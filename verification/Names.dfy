/**
 Names of services, methods and spans, and the lexicographic order by which the
 analysis scripts sort them and lists of them.
 */
module Names {

  datatype Name = Name(text: string)

  /** A total order. */
  ghost predicate IsOrder<T(!new)>(leq: (T, T) -> bool) {
    && (forall a, b :: leq(a, b) || leq(b, a))
    && (forall a, b :: leq(a, b) && leq(b, a) ==> a == b)
    && (forall a, b, c :: leq(a, b) && leq(b, c) ==> leq(a, c))
  }

  /** Lexicographic order on lists: the first difference decides, and a prefix comes first. */
  predicate ListLeq<T(==)>(leq: (T, T) -> bool, a: seq<T>, b: seq<T>) {
    |a| == 0 || (|b| > 0 && if a[0] == b[0] then ListLeq(leq, a[1..], b[1..]) else leq(a[0], b[0]))
  }

  lemma {:induction false} ListLeqTotal<T(!new)>(leq: (T, T) -> bool, a: seq<T>, b: seq<T>)
    requires IsOrder(leq)
    ensures ListLeq(leq, a, b) || ListLeq(leq, b, a)
  {
    if |a| > 0 && |b| > 0 && a[0] == b[0] {
      ListLeqTotal(leq, a[1..], b[1..]);
    }
  }

  lemma {:induction false} ListLeqAntisymmetric<T(!new)>(leq: (T, T) -> bool, a: seq<T>, b: seq<T>)
    requires IsOrder(leq) && ListLeq(leq, a, b) && ListLeq(leq, b, a)
    ensures a == b
  {
    if |a| > 0 && |b| > 0 {
      ListLeqAntisymmetric(leq, a[1..], b[1..]);
      assert a == [a[0]] + a[1..] && b == [b[0]] + b[1..];
    }
  }

  lemma {:induction false} ListLeqTransitive<T(!new)>(leq: (T, T) -> bool, a: seq<T>, b: seq<T>, c: seq<T>)
    requires IsOrder(leq) && ListLeq(leq, a, b) && ListLeq(leq, b, c)
    ensures ListLeq(leq, a, c)
  {
    if |a| > 0 && a[0] == b[0] && b[0] == c[0] {
      ListLeqTransitive(leq, a[1..], b[1..], c[1..]);
    }
  }

  /** The lists agree in front of `k`, where they differ and the first of them has the smaller element. */
  ghost predicate SmallerAt<T>(leq: (T, T) -> bool, a: seq<T>, b: seq<T>, k: nat) {
    k < |a| && k < |b| && a[..k] == b[..k] && a[k] != b[k] && leq(a[k], b[k])
  }

  lemma SmallerAtShift<T>(leq: (T, T) -> bool, a: seq<T>, b: seq<T>, k: nat)
    requires |a| > 0 && |b| > 0 && a[0] == b[0]
    ensures SmallerAt(leq, a, b, k + 1) <==> SmallerAt(leq, a[1..], b[1..], k)
  {
    if k < |a| - 1 && k < |b| - 1 {
      assert a[..k + 1] == [a[0]] + a[1..][..k] && b[..k + 1] == [b[0]] + b[1..][..k];
      assert a[..k + 1][1..] == a[1..][..k] && b[..k + 1][1..] == b[1..][..k];
    }
  }

  lemma SmallerAtFront<T>(leq: (T, T) -> bool, a: seq<T>, b: seq<T>)
    requires |a| > 0 && |b| > 0
    ensures SmallerAt(leq, a, b, 0) <==> a[0] != b[0] && leq(a[0], b[0])
    ensures a[0] != b[0] ==> !(a <= b) && forall k :: k > 0 ==> !SmallerAt(leq, a, b, k)
  {
    forall k: nat | k > 0 && k < |a| && k < |b| && a[0] != b[0] ensures a[..k] != b[..k] {
      assert a[..k][0] == a[0] && b[..k][0] == b[0];
    }
  }

  /** Lists are compared like words: one comes before its extensions, and otherwise the first difference decides. */
  lemma {:induction false} ListOrder<T>(leq: (T, T) -> bool, a: seq<T>, b: seq<T>)
    ensures ListLeq(leq, a, b) <==> a <= b || exists k :: SmallerAt(leq, a, b, k)
  {
    if |a| > 0 && |b| > 0 {
      SmallerAtFront(leq, a, b);
      if a[0] == b[0] {
        ListOrder(leq, a[1..], b[1..]);
        assert a == [a[0]] + a[1..] && b == [b[0]] + b[1..];
        hide SmallerAt;
        forall k: nat ensures SmallerAt(leq, a, b, k + 1) <==> SmallerAt(leq, a[1..], b[1..], k) {
          SmallerAtShift(leq, a, b, k);
        }
        if k: nat :| SmallerAt(leq, a, b, k) {
          assert SmallerAt(leq, a[1..], b[1..], k - 1);
        }
      }
    }
  }

  predicate CharLeq(a: char, b: char) {
    a <= b
  }

  predicate Leq(a: Name, b: Name) {
    ListLeq(CharLeq, a.text, b.text)
  }

  lemma LeqIsOrder()
    ensures forall a, b :: Leq(a, b) || Leq(b, a)
    ensures forall a, b :: Leq(a, b) && Leq(b, a) ==> a == b
    ensures forall a, b, c :: Leq(a, b) && Leq(b, c) ==> Leq(a, c)
    ensures IsOrder(Leq)
  {
    forall a, b ensures Leq(a, b) || Leq(b, a) {
      ListLeqTotal(CharLeq, a.text, b.text);
    }
    forall a, b | Leq(a, b) && Leq(b, a) ensures a == b {
      ListLeqAntisymmetric(CharLeq, a.text, b.text);
    }
    forall a, b, c | Leq(a, b) && Leq(b, c) ensures Leq(a, c) {
      ListLeqTransitive(CharLeq, a.text, b.text, c.text);
    }
  }

  /** Names stand in dictionary order. */
  lemma NameOrder(a: Name, b: Name)
    ensures Leq(a, b) <==>
            a.text <= b.text ||
            exists k :: 0 <= k < |a.text| && k < |b.text| && a.text[..k] == b.text[..k] && a.text[k] < b.text[k]
  {
    ListOrder(CharLeq, a.text, b.text);
    if k: nat :| SmallerAt(CharLeq, a.text, b.text, k) {
      assert a.text[k] < b.text[k];
    }
    if k: nat :| k < |a.text| && k < |b.text| && a.text[..k] == b.text[..k] && a.text[k] < b.text[k] {
      assert SmallerAt(CharLeq, a.text, b.text, k);
    }
  }
}
