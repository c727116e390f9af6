/**
 What the analysis of call variants counts (`conditional_variants.py`), without
 saying how: the signature of every span, the callee of every slot, and the
 counts of whole traces and services. A `Counter` is a multiset.
 */
module VariantSpec {
  import opened Collections
  import opened Names
  import opened Fanout

  type Signature = seq<seq<Name>>

  /** A call slot of a variant: the n-th call of a target within one stage. */
  datatype Slot = Slot(method': Name, signature: Signature, group: nat, target: Name, occurrence: nat)

  type Counts = map<Name, multiset<Signature>>
  type Transitions = map<Slot, multiset<Signature>>

  function Counter<K>(m: map<K, multiset<Signature>>, k: K): multiset<Signature> {
    GetOr(m, k, multiset{})
  }

  function Increment<K>(m: map<K, multiset<Signature>>, k: K, s: Signature): map<K, multiset<Signature>> {
    m[k := Counter(m, k) + multiset{s}]
  }

  function GroupSignature(group: seq<Span>): (r: seq<Name>)
    ensures |r| == |group|
  {
    seq(|group|, i requires 0 <= i < |group| => group[i].methodName)
  }

  function SignatureOf(groups: seq<seq<Span>>): (r: Signature)
    ensures |r| == |groups|
  {
    seq(|groups|, g requires 0 <= g < |groups| => GroupSignature(groups[g]))
  }

  /** The slots of a signature: as many occurrences of a target as its stage lists. */
  ghost predicate IsSlot(key: Slot) {
    key.group < |key.signature| && key.occurrence < multiset(key.signature[key.group])[key.target]
  }

  // ----- the order in which variants are listed

  predicate StageLeq(a: seq<Name>, b: seq<Name>) {
    ListLeq(Leq, a, b)
  }

  predicate SignatureLeq(a: Signature, b: Signature) {
    ListLeq(StageLeq, a, b)
  }

  lemma SignatureLeqIsOrder()
    ensures forall a, b :: SignatureLeq(a, b) || SignatureLeq(b, a)
    ensures forall a, b :: SignatureLeq(a, b) && SignatureLeq(b, a) ==> a == b
    ensures forall a, b, c :: SignatureLeq(a, b) && SignatureLeq(b, c) ==> SignatureLeq(a, c)
  {
    LeqIsOrder();
    forall a, b ensures StageLeq(a, b) || StageLeq(b, a) {
      ListLeqTotal(Leq, a, b);
    }
    forall a, b | StageLeq(a, b) && StageLeq(b, a) ensures a == b {
      ListLeqAntisymmetric(Leq, a, b);
    }
    forall a, b, c | StageLeq(a, b) && StageLeq(b, c) ensures StageLeq(a, c) {
      ListLeqTransitive(Leq, a, b, c);
    }
    forall a, b ensures SignatureLeq(a, b) || SignatureLeq(b, a) {
      ListLeqTotal(StageLeq, a, b);
    }
    forall a, b | SignatureLeq(a, b) && SignatureLeq(b, a) ensures a == b {
      ListLeqAntisymmetric(StageLeq, a, b);
    }
    forall a, b, c | SignatureLeq(a, b) && SignatureLeq(b, c) ensures SignatureLeq(a, c) {
      ListLeqTransitive(StageLeq, a, b, c);
    }
  }

  /** Signatures are compared at the first stage that differs, stages at the first name that differs. */
  lemma SignatureOrder(a: Signature, b: Signature)
    ensures SignatureLeq(a, b) <==> a <= b || exists g :: StageSmallerAt(a, b, g)
  {
    ListOrder(StageLeq, a, b);
    forall g: nat | g < |a| && g < |b| ensures StageSmallerAt(a, b, g) <==> SmallerAt(StageLeq, a, b, g) {
      ListOrder(Leq, a[g], b[g]);
      assert StageLeq(a[g], b[g]) <==> a[g] <= b[g] || exists i :: SmallerAt(Leq, a[g], b[g], i);
    }
  }

  ghost predicate StageSmallerAt(a: Signature, b: Signature, g: nat) {
    && g < |a| && g < |b| && a[..g] == b[..g] && a[g] != b[g]
    && (a[g] <= b[g] || exists i :: SmallerAt(Leq, a[g], b[g], i))
  }

  /** Frequent variants first, and variants of equal count by signature. */
  predicate ListedBefore(counter: multiset<Signature>, s: Signature, t: Signature) {
    s != t && (counter[s] > counter[t] || (counter[s] == counter[t] && SignatureLeq(s, t)))
  }

  lemma ListedBeforeLaws(counter: multiset<Signature>)
    ensures forall s, t :: s != t ==> ListedBefore(counter, s, t) || ListedBefore(counter, t, s)
    ensures forall s, t :: ListedBefore(counter, s, t) ==> !ListedBefore(counter, t, s)
    ensures forall s, t, u :: ListedBefore(counter, s, t) && ListedBefore(counter, t, u) ==> ListedBefore(counter, s, u)
  {
    SignatureLeqIsOrder();
    hide SignatureLeq;
  }

  ghost function Earlier(counter: multiset<Signature>, s: Signature): set<Signature> {
    set t | t in counter && ListedBefore(counter, t, s)
  }

  // ----- names and parents

  const USER := Name("USER")

  function FormatMethod(dm: string, iface: string): Name {
    Name(dm + "::" + iface)
  }

  /**
   A method's name is its service, two colons and its interface; it is never mistaken for
   the caller of root spans.
   */
  lemma MethodIsNotUser(dm: string, iface: string)
    ensures FormatMethod(dm, iface) == Name(dm + "::" + iface)
    ensures FormatMethod(dm, iface) != Name("USER") == USER
  {
    assert FormatMethod(dm, iface).text[|dm|] == ':';
    assert forall i :: 0 <= i < |USER.text| ==> USER.text[i] != ':';
  }

  function LastDot(s: string): (r: Option<nat>)
    ensures r.Some? ==> r.value < |s| && s[r.value] == '.' && '.' !in s[r.value + 1..]
    ensures r.None? ==> '.' !in s
  {
    if s == "" then None
    else if s[|s| - 1] == '.' then Some(|s| - 1)
    else
      assert s == s[..|s| - 1] + [s[|s| - 1]];
      match LastDot(s[..|s| - 1])
      case None => None
      case Some(i) =>
        assert s[i + 1..] == s[..|s| - 1][i + 1..] + [s[|s| - 1]];
        Some(i)
  }

  /** Everything before the last dot. A parent id is shorter, so parent links cannot form a cycle. */
  function ParentRpcId(rpc: Name): (r: Option<Name>)
    ensures r.Some? ==> r.value.text + "." <= rpc.text && '.' !in rpc.text[|r.value.text| + 1..]
    ensures r.Some? <==> '.' in rpc.text
  {
    match LastDot(rpc.text)
    case None => None
    case Some(i) =>
      assert rpc.text[..i] + "." == rpc.text[..i + 1];
      Some(Name(rpc.text[..i]))
  }

  // ----- the forest of one trace

  /** The spans of one trace under their rpc ids. */
  type Trace = map<Name, Span>

  ghost predicate TraceOk(spans: Trace) {
    forall k :: k in spans ==> spans[k].rpcId == k && spans[k].methodName != USER
  }

  ghost function AllSpans(spans: Trace): set<Span> {
    set k | k in spans :: spans[k]
  }

  ghost function KidsOf(spans: Trace, done: set<Name>, p: Name): set<Span> {
    set k | k in done && k in spans && ParentRpcId(k) == Some(p) :: spans[k]
  }

  /** Roots have no parent id, or one that is not in the trace if such spans are promoted. */
  ghost predicate IsRoot(spans: Trace, k: Name, missingParentAsRoot: bool) {
    ParentRpcId(k).None? || (ParentRpcId(k).value !in spans && missingParentAsRoot)
  }

  ghost predicate IsOrphan(spans: Trace, k: Name, missingParentAsRoot: bool) {
    ParentRpcId(k).Some? && ParentRpcId(k).value !in spans && !missingParentAsRoot
  }

  ghost function RootsOf(spans: Trace, done: set<Name>, missingParentAsRoot: bool): set<Span> {
    set k | k in done && k in spans && IsRoot(spans, k, missingParentAsRoot) :: spans[k]
  }

  ghost function OrphansOf(spans: Trace, missingParentAsRoot: bool): set<Span> {
    set k | k in spans && IsOrphan(spans, k, missingParentAsRoot) :: spans[k]
  }

  ghost function SetOf(bag: multiset<Span>): set<Span> {
    set c | c in bag
  }

  lemma KidsDistinct(spans: Trace, some: set<Span>)
    requires TraceOk(spans) && some <= AllSpans(spans)
    ensures DistinctIds(multiset(some)) && SetOf(multiset(some)) == some
    ensures forall c :: c in multiset(some) ==> c.rpcId in spans
  {
  }

  // ----- signatures

  /** A set of spans in some order. */
  ghost function Listing(spans: set<Span>): seq<Span> {
    if spans == {} then [] else
      var c :| c in spans;
      [c] + Listing(spans - {c})
  }

  lemma {:induction false} ListingLists(spans: set<Span>)
    ensures multiset(Listing(spans)) == multiset(spans)
  {
    if spans != {} {
      var c :| c in spans && Listing(spans) == [c] + Listing(spans - {c});
      ListingLists(spans - {c});
      assert spans == (spans - {c}) + {c};
    }
  }

  /** The stages of a set of siblings; the order in which they are listed does not matter. */
  ghost function StagesOf(siblings: set<Span>, threshold: real): seq<seq<Span>> {
    Groups(Listing(siblings), threshold)
  }

  lemma AnyListingWillDo(siblings: set<Span>, list: seq<Span>, threshold: real)
    requires multiset(list) == multiset(siblings) && DistinctIds(multiset(siblings))
    ensures Groups(list, threshold) == StagesOf(siblings, threshold)
  {
    ListingLists(siblings);
    GroupsIgnoreOrder(list, Listing(siblings), threshold);
  }

  ghost function SpanStages(spans: Trace, threshold: real, k: Name): seq<seq<Span>> {
    StagesOf(KidsOf(spans, spans.Keys, k), threshold)
  }

  ghost function RootStages(spans: Trace, threshold: real, missing: bool): seq<seq<Span>> {
    StagesOf(RootsOf(spans, spans.Keys, missing), threshold)
  }

  /** The signature of every span of a trace. */
  ghost function Signing(spans: Trace, threshold: real): map<Name, Signature> {
    map k | k in spans :: SignatureOf(SpanStages(spans, threshold, k))
  }

  ghost function Matching(spans: set<Span>, sigs: map<Name, Signature>, m: Name, s: Signature): set<Span> {
    set c | c in spans && c.methodName == m && Lookup(sigs, c.rpcId) == Some(s)
  }

  ghost function MatchCount(spans: set<Span>, sigs: map<Name, Signature>, m: Name, s: Signature): nat {
    |Matching(spans, sigs, m, s)|
  }

  // ----- which callee fills which slot

  /** The n-th call of a target within a stage. */
  ghost function Nth(group: seq<Span>, target: Name, n: nat): Option<Span> {
    if group == [] then None
    else if group[0].methodName != target then Nth(group[1..], target, n)
    else if n == 0 then Some(group[0])
    else Nth(group[1..], target, n - 1)
  }

  /** What one caller contributes to the counter of a slot: the signature of the callee in it. */
  ghost function Added(m: Name, stages: seq<seq<Span>>, sigs: map<Name, Signature>, key: Slot): multiset<Signature> {
    AddedSoFar(m, SignatureOf(stages), stages, sigs, key)
  }

  /** The same with only the first of its calls counted. */
  ghost function AddedSoFar(m: Name, sig: Signature, stages: seq<seq<Span>>, sigs: map<Name, Signature>,
                            key: Slot): multiset<Signature>
  {
    if key.method' != m || key.signature != sig || key.group >= |stages| then multiset{}
    else match Nth(stages[key.group], key.target, key.occurrence)
      case None => multiset{}
      case Some(c) => if c.rpcId in sigs then multiset{sigs[c.rpcId]} else multiset{}
  }

  ghost function SpanAdded(spans: Trace, threshold: real, k: Name, key: Slot): multiset<Signature>
    requires k in spans
  {
    Added(spans[k].methodName, SpanStages(spans, threshold, k), Signing(spans, threshold), key)
  }

  ghost function RootAdded(spans: Trace, threshold: real, missing: bool, key: Slot): multiset<Signature> {
    if RootsOf(spans, spans.Keys, missing) == {} then multiset{}
    else Added(USER, RootStages(spans, threshold, missing), Signing(spans, threshold), key)
  }

  ghost function SpansAdded(spans: Trace, threshold: real, ks: set<Name>, key: Slot): multiset<Signature>
    requires ks <= spans.Keys
  {
    if ks == {} then multiset{} else
      var k :| k in ks;
      SpansAdded(spans, threshold, ks - {k}, key) + SpanAdded(spans, threshold, k, key)
  }

  lemma {:induction false} SpansAddedPick(spans: Trace, threshold: real, ks: set<Name>, key: Slot, k: Name)
    requires ks <= spans.Keys && k in ks
    ensures SpansAdded(spans, threshold, ks, key) ==
            SpansAdded(spans, threshold, ks - {k}, key) + SpanAdded(spans, threshold, k, key)
  {
    hide SpanAdded;
    var j :| j in ks &&
      SpansAdded(spans, threshold, ks, key) ==
        SpansAdded(spans, threshold, ks - {j}, key) + SpanAdded(spans, threshold, j, key);
    if j != k {
      SpansAddedPick(spans, threshold, ks - {j}, key, k);
      SpansAddedPick(spans, threshold, ks - {k}, key, j);
      assert ks - {j} - {k} == ks - {k} - {j};
    }
  }

  // ----- the counts of a trace and of a service

  /** The callee signatures that one trace puts into a slot. */
  ghost function TraceTransitions(spans: Trace, threshold: real, missing: bool, key: Slot): multiset<Signature> {
    RootAdded(spans, threshold, missing, key) + SpansAdded(spans, threshold, spans.Keys, key)
  }

  /** How often one trace shows a variant: once per span, and once for its roots. */
  ghost function TraceVariants(spans: Trace, threshold: real, missing: bool, m: Name, s: Signature): nat {
    MatchCount(AllSpans(spans), Signing(spans, threshold), m, s) + UserVariants(spans, threshold, missing, m, s)
  }

  ghost function UserVariants(spans: Trace, threshold: real, missing: bool, m: Name, s: Signature): nat {
    if m == USER && RootsOf(spans, spans.Keys, missing) != {} &&
      s == SignatureOf(RootStages(spans, threshold, missing)) then 1 else 0
  }

  ghost function ServiceTransitions(traces: seq<Trace>, threshold: real, missing: bool, key: Slot): multiset<Signature>
  {
    if traces == [] then multiset{} else
      ServiceTransitions(traces[..|traces| - 1], threshold, missing, key) +
        TraceTransitions(traces[|traces| - 1], threshold, missing, key)
  }

  ghost function ServiceVariants(traces: seq<Trace>, threshold: real, missing: bool, m: Name, s: Signature): nat {
    if traces == [] then 0 else
      ServiceVariants(traces[..|traces| - 1], threshold, missing, m, s) +
        TraceVariants(traces[|traces| - 1], threshold, missing, m, s)
  }

  /** How often one trace drops a span with this variant because its parent is missing. */
  ghost function TraceOrphans(spans: Trace, threshold: real, missing: bool, m: Name, s: Signature): nat {
    MatchCount(OrphansOf(spans, missing), Signing(spans, threshold), m, s)
  }

  ghost function ServiceOrphans(traces: seq<Trace>, threshold: real, missing: bool, m: Name, s: Signature): nat {
    if traces == [] then 0 else
      ServiceOrphans(traces[..|traces| - 1], threshold, missing, m, s) +
      TraceOrphans(traces[|traces| - 1], threshold, missing, m, s)
  }

  /** None is dropped when spans with a missing parent are promoted to roots. */
  lemma {:induction false} PromotionKeepsAll(traces: seq<Trace>, threshold: real, m: Name, s: Signature)
    ensures ServiceOrphans(traces, threshold, true, m, s) == 0
  {
    if traces != [] {
      PromotionKeepsAll(traces[..|traces| - 1], threshold, m, s);
      assert OrphansOf(traces[|traces| - 1], true) == {};
    }
  }
}
