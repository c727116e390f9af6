/**
 The call-graph configuration of `config.rs`: targets written as
 "service::method", their validation, and the parsed call sequences.
 */
module CallGraph {
  import opened Collections
  import opened OraclePlan

  // ----- splitting at "::"

  predicate SepAt(s: string, i: nat) {
    i + 1 < |s| && s[i] == ':' && s[i + 1] == ':'
  }

  ghost predicate NoSep(s: string) {
    forall i: nat :: !SepAt(s, i)
  }

  /** The leftmost separator at or after `from`. */
  function FirstSep(s: string, from: nat): (r: Option<nat>)
    ensures r.None? ==> forall i :: from <= i ==> !SepAt(s, i)
    ensures r.Some? ==> from <= r.value && SepAt(s, r.value) && forall i :: from <= i < r.value ==> !SepAt(s, i)
    decreases |s| - from
  {
    if from >= |s| then None else if SepAt(s, from) then Some(from) else FirstSep(s, from + 1)
  }

  /** The parts between separators, found from the left without overlap. */
  function Split(s: string): seq<string>
    decreases |s|
  {
    match FirstSep(s, 0)
    case None => [s]
    case Some(i) => [s[..i]] + Split(s[i + 2..])
  }

  function Join(parts: seq<string>): string {
    if |parts| == 0 then "" else if |parts| == 1 then parts[0] else parts[0] + "::" + Join(parts[1..])
  }

  lemma {:induction false} SplitParts(s: string)
    ensures |Split(s)| > 0 && Join(Split(s)) == s
    ensures |Split(s)| == 1 <==> NoSep(s)
    decreases |s|
  {
    match FirstSep(s, 0)
    case None =>
    case Some(i) =>
      SplitParts(s[i + 2..]);
      assert Split(s)[1..] == Split(s[i + 2..]);
      assert s == s[..i] + "::" + s[i + 2..];
  }

  datatype Result<+T, +E> = Ok(value: T) | Err(error: E)

  datatype ConfigError = BadFormat(text: string) | NoEntryPoints | BadEntryPointKey | UnknownTarget(text: string)

  function Format(t: CallTarget): string {
    t.serviceId + "::" + t.methodName
  }

  function ParseServiceMethod(s: string): Result<CallTarget, ConfigError> {
    var parts := Split(s);
    if |parts| != 2 then Err(BadFormat(s)) else Ok(CallTarget(parts[0], parts[1]))
  }

  /** Parsing loses nothing: formatting what was parsed gives the text back. */
  lemma FormatUndoesParse(s: string)
    ensures ParseServiceMethod(s).Ok? ==> Format(ParseServiceMethod(s).value) == s
  {
    SplitParts(s);
  }

  /** The separator after the service id is found first unless the id contains or completes an earlier one. */
  ghost predicate WellNamed(t: CallTarget) {
    NoSep(t.serviceId + ":") && NoSep(t.methodName)
  }

  /** Parsing a formatted target gives it back exactly when its names are free of misleading colons. */
  lemma ParseUndoesFormat(t: CallTarget)
    ensures ParseServiceMethod(Format(t)) == Ok(t) <==> WellNamed(t)
  {
    var a, b, s := t.serviceId, t.methodName, Format(t);
    var n := |a|;
    assert SepAt(s, n) && s[n + 2..] == b && s[..n] == a;
    assert forall i: nat :: i < n ==> (SepAt(s, i) <==> SepAt(a + ":", i));
    SplitParts(b);
    var i := FirstSep(s, 0).value;
    if NoSep(a + ":") {
      assert i == n;
      assert Split(s) == [a] + Split(b);
      if NoSep(b) {
        assert Split(b) == [b];
      }
    } else {
      var k: nat :| SepAt(a + ":", k);
      assert k < n && i <= k;
      assert |s[..i]| != |a|;
      assert Split(s)[0] == s[..i];
    }
  }

  /** A service id that ends in a colon is split in the wrong place. */
  lemma MisleadingName()
    ensures ParseServiceMethod(Format(CallTarget("a:", "b"))) == Ok(CallTarget("a", ":b"))
  {
    var s := Format(CallTarget("a:", "b"));
    assert s == "a:::b" && !SepAt(s, 0) && SepAt(s, 1);
    assert FirstSep(s, 0) == FirstSep(s, 1) == Some(1);
    assert s[3..] == ":b" && s[..1] == "a";
    assert FirstSep(":b", 0).None? by {
      assert forall i: nat :: !SepAt(":b", i);
    }
    assert Split(s) == ["a"] + Split(":b");
  }

  // ----- the configuration

  /** One entry of a step: a target text and the probability of the call. */
  datatype RawCall = RawCall(target: string, probability: real)

  /** The entries of a step are listed in the order in which its table is iterated. */
  type RawSequence = seq<seq<RawCall>>

  datatype MethodDef = MethodDef(id: CallTarget, raw: RawSequence)

  /** `methods` lists the methods of all services in declaration order. */
  datatype Config = Config(entryPoints: map<string, RawSequence>, methods: seq<MethodDef>)

  datatype ParsedCall = ParsedCall(target: CallTarget, probability: real)

  type Sequence = seq<seq<ParsedCall>>

  datatype ParsedMethod = ParsedMethod(id: CallTarget, sequence: Sequence)

  datatype Parsed = Parsed(entryPoints: map<string, Sequence>, methods: seq<ParsedMethod>)

  ghost predicate TargetsIn(raw: RawSequence, valid: set<string>) {
    forall i, j :: 0 <= i < |raw| && 0 <= j < |raw[i]| ==> raw[i][j].target in valid
  }

  function ValidTargets(cfg: Config): set<string> {
    set i | 0 <= i < |cfg.methods| :: Format(cfg.methods[i].id)
  }

  /** What the validation accepts. */
  ghost predicate WellFormed(cfg: Config) {
    && cfg.entryPoints != map[]
    && (forall k :: k in cfg.entryPoints ==> k in {"a", "b"} && TargetsIn(cfg.entryPoints[k], ValidTargets(cfg)))
    && (forall i :: 0 <= i < |cfg.methods| ==> TargetsIn(cfg.methods[i].raw, ValidTargets(cfg)))
  }

  method CheckTargets(raw: RawSequence, valid: set<string>) returns (unknown: Option<string>)
    ensures unknown.None? <==> TargetsIn(raw, valid)
    ensures unknown.Some? ==> unknown.value !in valid
  {
    for i := 0 to |raw|
      invariant forall k, j :: 0 <= k < i && 0 <= j < |raw[k]| ==> raw[k][j].target in valid
    {
      for j := 0 to |raw[i]|
        invariant forall l :: 0 <= l < j ==> raw[i][l].target in valid
      {
        if raw[i][j].target !in valid {
          return Some(raw[i][j].target);
        }
      }
    }
    return None;
  }

  /** Entry points exist, are called "a" or "b", and every referenced target is defined. */
  method ValidateCallGraph(cfg: Config) returns (r: Result<(), ConfigError>)
    ensures r.Ok? <==> WellFormed(cfg)
  {
    var valid := ValidTargets(cfg);
    if cfg.entryPoints == map[] {
      return Err(NoEntryPoints);
    }
    var todo := cfg.entryPoints.Keys;
    while todo != {}
      invariant todo <= cfg.entryPoints.Keys
      invariant forall k :: k in cfg.entryPoints.Keys - todo ==>
                  k in {"a", "b"} && TargetsIn(cfg.entryPoints[k], valid)
      decreases todo
    {
      var k :| k in todo;
      todo := todo - {k};
      if k != "a" && k != "b" {
        return Err(BadEntryPointKey);
      }
      var unknown := CheckTargets(cfg.entryPoints[k], valid);
      if unknown.Some? {
        return Err(UnknownTarget(unknown.value));
      }
    }
    for i := 0 to |cfg.methods|
      invariant forall k :: 0 <= k < i ==> TargetsIn(cfg.methods[k].raw, valid)
    {
      var unknown := CheckTargets(cfg.methods[i].raw, valid);
      if unknown.Some? {
        return Err(UnknownTarget(unknown.value));
      }
    }
    return Ok(());
  }

  // ----- parsing

  /** `parsed` has the shape of `raw`, with every target text parsed. */
  ghost predicate ParsedFrom(parsed: Sequence, raw: RawSequence) {
    && |parsed| == |raw|
    && forall i :: 0 <= i < |raw| ==> StepParsedFrom(parsed[i], raw[i])
  }

  ghost predicate StepParsedFrom(parsed: seq<ParsedCall>, raw: seq<RawCall>) {
    && |parsed| == |raw|
    && forall j :: 0 <= j < |raw| ==>
         parsed[j].probability == raw[j].probability && ParseServiceMethod(raw[j].target) == Ok(parsed[j].target)
  }

  ghost predicate Parsable(raw: RawSequence) {
    forall i, j :: 0 <= i < |raw| && 0 <= j < |raw[i]| ==> ParseServiceMethod(raw[i][j].target).Ok?
  }

  method ParseSequence(raw: RawSequence) returns (r: Result<Sequence, ConfigError>)
    ensures r.Ok? <==> Parsable(raw)
    ensures r.Ok? ==> ParsedFrom(r.value, raw)
  {
    var parsed: Sequence := [];
    for i := 0 to |raw|
      invariant |parsed| == i
      invariant forall k :: 0 <= k < i ==> StepParsedFrom(parsed[k], raw[k])
      invariant forall k, j :: 0 <= k < i && 0 <= j < |raw[k]| ==> ParseServiceMethod(raw[k][j].target).Ok?
    {
      var step: seq<ParsedCall> := [];
      for j := 0 to |raw[i]|
        invariant StepParsedFrom(step, raw[i][..j])
        invariant forall l :: 0 <= l < j ==> ParseServiceMethod(raw[i][l].target).Ok?
      {
        var target := ParseServiceMethod(raw[i][j].target);
        if target.Err? {
          return Err(target.error);
        }
        step := step + [ParsedCall(target.value, raw[i][j].probability)];
      }
      assert raw[i][..|raw[i]|] == raw[i];
      parsed := parsed + [step];
    }
    return Ok(parsed);
  }

  ghost predicate MethodParsedFrom(parsed: ParsedMethod, def: MethodDef) {
    parsed.id == def.id && ParsedFrom(parsed.sequence, def.raw)
  }

  /** Every entry point and every method is its raw form parsed. */
  ghost predicate IsParse(cfg: Config, parsed: Parsed) {
    && parsed.entryPoints.Keys == cfg.entryPoints.Keys
    && (forall k :: k in cfg.entryPoints ==> ParsedFrom(parsed.entryPoints[k], cfg.entryPoints[k]))
    && |parsed.methods| == |cfg.methods|
    && (forall i :: 0 <= i < |cfg.methods| ==> MethodParsedFrom(parsed.methods[i], cfg.methods[i]))
  }

  /** The configuration is valid and every target in it parses. */
  ghost predicate Readable(cfg: Config) {
    && WellFormed(cfg)
    && (forall k :: k in cfg.entryPoints ==> Parsable(cfg.entryPoints[k]))
    && (forall i :: 0 <= i < |cfg.methods| ==> Parsable(cfg.methods[i].raw))
  }

  lemma ParsedFromUnique(p: Sequence, q: Sequence, raw: RawSequence)
    requires ParsedFrom(p, raw) && ParsedFrom(q, raw)
    ensures p == q
  {
    forall i | 0 <= i < |raw| ensures p[i] == q[i] {
      assert StepParsedFrom(p[i], raw[i]) && StepParsedFrom(q[i], raw[i]);
    }
  }

  /** A configuration has one parse. */
  lemma ParseUnique(cfg: Config, p: Parsed, q: Parsed)
    requires IsParse(cfg, p) && IsParse(cfg, q)
    ensures p == q
  {
    forall k | k in cfg.entryPoints ensures p.entryPoints[k] == q.entryPoints[k] {
      ParsedFromUnique(p.entryPoints[k], q.entryPoints[k], cfg.entryPoints[k]);
    }
    assert p.entryPoints == q.entryPoints;
    forall i | 0 <= i < |cfg.methods| ensures p.methods[i] == q.methods[i] {
      assert MethodParsedFrom(p.methods[i], cfg.methods[i]) && MethodParsedFrom(q.methods[i], cfg.methods[i]);
      ParsedFromUnique(p.methods[i].sequence, q.methods[i].sequence, cfg.methods[i].raw);
    }
  }

  /** Validates the configuration and parses every entry point and every method. */
  method ParseCallSequences(cfg: Config) returns (r: Result<Parsed, ConfigError>)
    ensures r.Ok? <==> Readable(cfg)
    ensures r.Ok? ==> IsParse(cfg, r.value)
  {
    var validated := ValidateCallGraph(cfg);
    hide WellFormed, Parsable, ParsedFrom;
    if validated.Err? {
      return Err(validated.error);
    }
    var entryPoints: map<string, Sequence> := map[];
    var todo := cfg.entryPoints.Keys;
    while todo != {}
      invariant todo <= cfg.entryPoints.Keys && entryPoints.Keys == cfg.entryPoints.Keys - todo
      invariant forall k :: k in entryPoints ==>
                  ParsedFrom(entryPoints[k], cfg.entryPoints[k]) && Parsable(cfg.entryPoints[k])
      decreases todo
    {
      var k :| k in todo;
      todo := todo - {k};
      var parsed := ParseSequence(cfg.entryPoints[k]);
      if parsed.Err? {
        return Err(parsed.error);
      }
      entryPoints := entryPoints[k := parsed.value];
    }
    var methods: seq<ParsedMethod> := [];
    for i := 0 to |cfg.methods|
      invariant |methods| == i
      invariant forall k :: 0 <= k < i ==> MethodParsedFrom(methods[k], cfg.methods[k]) && Parsable(cfg.methods[k].raw)
    {
      var parsed := ParseSequence(cfg.methods[i].raw);
      if parsed.Err? {
        return Err(parsed.error);
      }
      methods := methods + [ParsedMethod(cfg.methods[i].id, parsed.value)];
    }
    return Ok(Parsed(entryPoints, methods));
  }

  // ----- the table of methods

  type Methods = map<CallTarget, Sequence>

  /** The table filled in declaration order. */
  function Table(methods: seq<ParsedMethod>): Methods {
    if methods == [] then map[]
    else
      var last := methods[|methods| - 1];
      Table(methods[..|methods| - 1])[last.id := last.sequence]
  }

  /** The table holds every method that is defined, and the last of its definitions. */
  lemma {:induction false} LastDefinitionWins(methods: seq<ParsedMethod>, i: nat)
    requires i < |methods| && forall j :: i < j < |methods| ==> methods[j].id != methods[i].id
    ensures Lookup(Table(methods), methods[i].id) == Some(methods[i].sequence)
  {
    if i < |methods| - 1 {
      assert methods[|methods| - 1].id != methods[i].id;
      LastDefinitionWins(methods[..|methods| - 1], i);
    }
  }

  lemma {:induction false} TableKeys(methods: seq<ParsedMethod>, k: CallTarget)
    ensures k in Table(methods) <==> exists i :: 0 <= i < |methods| && methods[i].id == k
  {
    if methods != [] {
      var n := |methods| - 1;
      TableKeys(methods[..n], k);
      if i :| 0 <= i < n && methods[i].id == k {
        assert methods[..n][i].id == k;
      }
    }
  }

  method BuildTable(methods: seq<ParsedMethod>) returns (table: Methods)
    ensures table == Table(methods)
  {
    table := map[];
    for i := 0 to |methods|
      invariant table == Table(methods[..i])
    {
      assert methods[..i + 1][..i] == methods[..i];
      table := table[methods[i].id := methods[i].sequence];
    }
    assert methods[..|methods|] == methods;
  }
}
