/** Replay states, environments and traces: validation, canonical text and fingerprints. */
module Trace {
  import opened Text
  import opened Sorting
  import opened Canonical

  datatype Source = Source(path: Text, line: int, column: int)

  datatype State = State(identity: Text, bindings: seq<(Text, Value)>)

  datatype Step = Step(index: int, action: Text, source: Source, expected: State)

  datatype Environment = Environment(
    seed: Text, bounds: seq<(Text, int)>, tool: Text,
      profile: Text, contract: Text, adapter: Text, implementation: Text)

  datatype Trace = Trace(schemaVersion: int, identity: Text, environment: Environment, initial: State, steps: seq<Step>)

  /** Diagnostic codes; paths and messages are not modelled, so a list of findings is the set of their codes. */
  datatype Code =
    | SourcePath | SourceLine | SourceColumn | StateBinding | StateBindingDuplicate | StateValue | StateIdentity
    | StateFingerprint | EnvFingerprint | BoundName | BoundValue | BoundDuplicate | StepOrder | StepAction
    | SchemaVersion | TraceIdentity | Seed | StringUnicode | TraceFingerprint | ObservationOrder | ObservationAction

  type Codes = set<Code>

  function When(condition: bool, code: Code): (r: Codes)
    ensures r == {} <==> !condition
    ensures forall c | c in r :: c == code
  {
    if condition then {code} else {}
  }

  /** The codes `validateTrace` reports for the whole trace. */
  predicate NotTraceLevel(codes: Codes) {
    TraceFingerprint !in codes && TraceIdentity !in codes
  }

  // ---------------------------------------------------------------- SHA-256, uninterpreted

  type Hash = Text -> Text

  predicate LowerHex(t: Text) {
    forall u | u in t :: IsDigit(u) || 0x61 <= u <= 0x66
  }

  predicate IsLowerSha256(t: Text) {
    |t| == 64 && LowerHex(t)
  }

  /** All that is used of the hash: it is a function of the text into 64 lowercase hexadecimal digits. */
  ghost predicate Digests(hash: Hash) {
    forall t :: IsLowerSha256(hash(t))
  }

  // ---------------------------------------------------------------- state

  predicate Encodable(bindings: seq<(Text, Value)>) {
    EncodeFields(bindings).Some?
  }

  /** `encodeStateUnchecked`; the source raises an exception when a binding does not encode. */
  function StateText(bindings: seq<(Text, Value)>): Text
    requires Encodable(bindings)
  {
    [0x7b] + Join(MemberTexts(SortPairs(EncodeFields(bindings).value))) + [0x7d]
  }

  /** Findings about a list of named things, and one more finding about the list. */
  function NameCodes(
      blank: bool, name: Code, unicode: bool, duplicate: bool, twice: Code, refused: bool, other: Code): (r: Codes)
    requires NotTraceLevel({name, twice, other})
    ensures r == {} <==> !blank && !unicode && !duplicate && !refused
    ensures NotTraceLevel(r)
  {
    When(blank, name) + When(unicode, StringUnicode) + When(duplicate, twice) + When(refused, other)
  }

  predicate AnyBlank(names: seq<Text>) {
    exists n | n in names :: Blank(n)
  }

  predicate AnyMalformed(names: seq<Text>) {
    exists n | n in names :: !ValidUnicode(n)
  }

  function ValidateStateContent(state: State): (r: Codes)
    ensures NotTraceLevel(r)
  {
    var names := Names(state.bindings);
    NameCodes(AnyBlank(names), StateBinding, AnyMalformed(names), !Distinct(names), StateBindingDuplicate,
              !Encodable(state.bindings), StateValue)
  }

  lemma GoodNames<T>(pairs: seq<(Text, T)>)
    ensures !AnyBlank(Names(pairs)) && !AnyMalformed(Names(pairs)) <==> forall p | p in pairs :: GoodName(p.0)
  {
    var names := Names(pairs);
    if forall p | p in pairs :: GoodName(p.0) {
      forall n | n in names
        ensures GoodName(n)
      {
        NamesMember(pairs, n);
      }
    } else {
      var p :| p in pairs && !GoodName(p.0);
      NamesMember(pairs, p.0);
    }
  }

  lemma ContentValid(state: State)
    ensures ValidateStateContent(state) == {} <==>
      Distinct(Names(state.bindings)) && (forall b | b in state.bindings :: GoodName(b.0)) && Encodable(state.bindings)
    ensures ValidateStateContent(state) == {} <==> Encode(Record(state.bindings)).Some?
    ensures ValidateStateContent(state) == {} ==> Encode(Record(state.bindings)).value == StateText(state.bindings)
  {
    GoodNames(state.bindings);
  }

  function ValidateState(hash: Hash, state: State): (r: Codes)
    ensures NotTraceLevel(r)
  {
    var content := ValidateStateContent(state);
    content + if !IsLowerSha256(state.identity) then {StateIdentity}
              else if content == {} then
                ContentValid(state);
                When(state.identity != hash(StateText(state.bindings)), StateFingerprint)
              else {}
  }

  /** `encodeState`. */
  function EncodeState(hash: Hash, state: State): Option<Text> {
    if ValidateState(hash, state) == {} then
      ContentValid(state);
      Some(StateText(state.bindings))
    else None
  }

  ghost predicate ValidState(hash: Hash, state: State) {
    ValidateState(hash, state) == {}
  }

  /** A valid state is one that encodes and carries the digest of its own text. */
  lemma ValidStateSpec(hash: Hash, state: State)
    requires Digests(hash)
    ensures ValidState(hash, state) <==>
      Encode(Record(state.bindings)).Some? && state.identity == hash(Encode(Record(state.bindings)).value)
    ensures ValidState(hash, state) ==> EncodeState(hash, state) == Encode(Record(state.bindings))
  {
    ContentValid(state);
  }

  // ---------------------------------------------------------------- environment, source, trace

  function ValidateSource(source: Source): (r: Codes)
    ensures NotTraceLevel(r)
  {
    When(Blank(source.path), SourcePath) + When(!ValidUnicode(source.path), StringUnicode)
    + When(source.line < 1, SourceLine) + When(source.column < 1, SourceColumn)
  }

  function ValidateBounds(bounds: seq<(Text, int)>): (r: Codes)
    ensures NotTraceLevel(r)
  {
    var names := Names(bounds);
    NameCodes(AnyBlank(names), BoundName, AnyMalformed(names), !Distinct(names), BoundDuplicate,
              exists b | b in bounds :: b.1 < 0, BoundValue)
  }

  function ValidateEnvironment(e: Environment): (r: Codes)
    ensures NotTraceLevel(r)
  {
    When(Blank(e.seed), Seed) + When(!ValidUnicode(e.seed), StringUnicode)
    + When(!IsLowerSha256(e.tool) || !IsLowerSha256(e.profile) || !IsLowerSha256(e.contract)
           || !IsLowerSha256(e.adapter) || !IsLowerSha256(e.implementation), EnvFingerprint)
    + ValidateBounds(e.bounds)
  }

  function ValidateIdentity(step: Step, ordinal: nat): (r: Codes)
    ensures NotTraceLevel(r)
    ensures r == {} <==> step.index == ordinal + 1 && !Blank(step.action) && ValidUnicode(step.action)
  {
    When(step.index != ordinal + 1, StepOrder) + When(Blank(step.action), StepAction)
    + When(!ValidUnicode(step.action), StringUnicode)
  }

  function ValidateStep(hash: Hash, ordinal: nat, step: Step): (r: Codes)
    ensures NotTraceLevel(r)
  {
    ValidateIdentity(step, ordinal) + (ValidateSource(step.source) + ValidateState(hash, step.expected))
  }

  function ValidateSteps(hash: Hash, steps: seq<Step>): (r: Codes)
    ensures NotTraceLevel(r)
  {
    set i, c | 0 <= i < |steps| && c in ValidateStep(hash, i, steps[i]) :: c
  }

  lemma StepsValid(hash: Hash, steps: seq<Step>)
    ensures ValidateSteps(hash, steps) == {} <==> forall i | 0 <= i < |steps| :: ValidateStep(hash, i, steps[i]) == {}
  {
    if i :| 0 <= i < |steps| && ValidateStep(hash, i, steps[i]) != {} {
      var c :| c in ValidateStep(hash, i, steps[i]);
      assert c in ValidateSteps(hash, steps);
    }
  }

  function ValidateContents(hash: Hash, trace: Trace): (r: Codes)
    ensures NotTraceLevel(r)
    ensures r == {} ==> trace.schemaVersion == 1 && ValidateEnvironment(trace.environment) == {}
    ensures r == {} ==> ValidateState(hash, trace.initial) == {} && ValidateSteps(hash, trace.steps) == {}
  {
    When(trace.schemaVersion != 1, SchemaVersion) + ValidateEnvironment(trace.environment)
    + ValidateState(hash, trace.initial) + ValidateSteps(hash, trace.steps)
  }

  function Structural(hash: Hash, trace: Trace): (r: Codes)
    ensures TraceFingerprint !in r
  {
    When(!IsLowerSha256(trace.identity), TraceIdentity) + ValidateContents(hash, trace)
  }

  predicate TraceEncodable(trace: Trace) {
    Encodable(trace.initial.bindings) &&
      forall i | 0 <= i < |trace.steps| :: Encodable(trace.steps[i].expected.bindings)
  }

  lemma StructuralEncodes(hash: Hash, trace: Trace)
    requires Structural(hash, trace) == {}
    ensures TraceEncodable(trace)
  {
    StepsValid(hash, trace.steps);
    forall i | 0 <= i < |trace.steps|
      ensures Encodable(trace.steps[i].expected.bindings)
    {
      assert ValidateStep(hash, i, trace.steps[i]) == {};
    }
  }

  // ---------------------------------------------------------------- the trace text

  /** Text that needs no escaping. */
  predicate Plain(t: Text) {
    forall u | u in t :: 0x20 <= u <= 0x7e && u != 0x22 && u != 0x5c
  }

  function PlainUnit(c: char): (u: Unit)
    ensures 0x20 <= u <= 0x7e && u != 0x22 && u != 0x5c
  {
    if ' ' <= c <= '~' && c != '"' && c != '\\' then c as int as Unit else 0x3f
  }

  /** The code units of a field name. */
  function Units(s: string): (r: Text)
    ensures Plain(r)
  {
    seq(|s|, i requires 0 <= i < |s| => PlainUnit(s[i]))
  }

  /** `"name":text` */
  function Member(name: Text, text: Text): Text {
    [0x22] + name + [0x22, 0x3a] + text
  }

  function Braces(parts: seq<Text>): Text {
    [0x7b] + Join(parts) + [0x7d]
  }

  const PATH := Units("path")
  const LINE := Units("line")
  const COLUMN := Units("column")
  const SEED := Units("seed")
  const BOUNDS := Units("bounds")
  const TOOL := Units("toolFingerprint")
  const PROFILE := Units("profileFingerprint")
  const CONTRACT := Units("contractFingerprint")
  const ADAPTER := Units("adapterFingerprint")
  const IMPLEMENTATION := Units("implementationFingerprint")
  const INDEX := Units("index")
  const ACTION := Units("action")
  const SOURCE := Units("source")
  const EXPECTED := Units("expected")
  const SCHEMA := Units("schemaVersion")
  const ENVIRONMENT := Units("environment")
  const INITIAL := Units("initial")
  const STEPS := Units("steps")

  function SourceText(s: Source): Text {
    Braces([Member(PATH, EscapeJson(s.path)), Member(LINE, IntText(s.line)), Member(COLUMN, IntText(s.column))])
  }

  function BoundTexts(bounds: seq<(Text, int)>): (r: seq<Text>)
    ensures |r| == |bounds|
    ensures forall i | 0 <= i < |bounds| :: r[i] == EscapeJson(bounds[i].0) + [0x3a] + IntText(bounds[i].1)
  {
    seq(|bounds|, i requires 0 <= i < |bounds| => EscapeJson(bounds[i].0) + [0x3a] + IntText(bounds[i].1))
  }

  function EnvironmentText(e: Environment): Text {
    Braces([
      Member(SEED, EscapeJson(e.seed)),
      Member(BOUNDS, Braces(BoundTexts(SortPairs(e.bounds)))),
      Member(TOOL, EscapeJson(e.tool)),
      Member(PROFILE, EscapeJson(e.profile)),
      Member(CONTRACT, EscapeJson(e.contract)),
      Member(ADAPTER, EscapeJson(e.adapter)),
      Member(IMPLEMENTATION, EscapeJson(e.implementation))])
  }

  function StepText(step: Step): Text
    requires Encodable(step.expected.bindings)
  {
    Braces([
      Member(INDEX, IntText(step.index)),
      Member(ACTION, EscapeJson(step.action)),
      Member(SOURCE, SourceText(step.source)),
      Member(EXPECTED, StateText(step.expected.bindings))])
  }

  function StepTexts(steps: seq<Step>): (r: seq<Text>)
    requires forall i | 0 <= i < |steps| :: Encodable(steps[i].expected.bindings)
    ensures |r| == |steps|
    ensures forall i | 0 <= i < |steps| :: r[i] == StepText(steps[i])
  {
    seq(|steps|, i requires 0 <= i < |steps| => StepText(steps[i]))
  }

  /** `encodeTraceUnchecked`. */
  function TraceText(trace: Trace): Text
    requires TraceEncodable(trace)
  {
    Braces([
      Member(SCHEMA, IntText(trace.schemaVersion)),
      Member(ENVIRONMENT, EnvironmentText(trace.environment)),
      Member(INITIAL, StateText(trace.initial.bindings)),
      Member(STEPS, [0x5b] + Join(StepTexts(trace.steps)) + [0x5d])])
  }

  // ---------------------------------------------------------------- validateTrace and traceFingerprint

  function ValidateTrace(hash: Hash, trace: Trace): Codes {
    var structural := Structural(hash, trace);
    if structural == {} then
      StructuralEncodes(hash, trace);
      When(trace.identity != hash(TraceText(trace)), TraceFingerprint)
    else structural
  }

  datatype Fingerprint = Ok(digest: Text) | Error(codes: Codes)

  function Zeros(n: nat): (r: Text)
    ensures |r| == n && forall u | u in r :: u == 0x30
  {
    if n == 0 then [] else [0x30] + Zeros(n - 1)
  }

  const ZEROS: Text := Zeros(64)

  /** `QuintReplay.traceFingerprint`: validates a copy with a placeholder identity and hashes its text. */
  function TraceFingerprintOf(hash: Hash, trace: Trace): Fingerprint {
    var placeholder := trace.(identity := ZEROS);
    var codes := ValidateTrace(hash, placeholder) - {TraceFingerprint};
    if codes == {} then
      FilteredIsStructural(hash, placeholder);
      StructuralEncodes(hash, placeholder);
      Ok(hash(TraceText(placeholder)))
    else Error(codes)
  }

  lemma FilteredIsStructural(hash: Hash, trace: Trace)
    ensures ValidateTrace(hash, trace) - {TraceFingerprint} == Structural(hash, trace)
  {
  }

  lemma PlaceholderStructural(hash: Hash, trace: Trace, identity: Text)
    requires IsLowerSha256(identity)
    ensures Structural(hash, trace.(identity := identity)) == ValidateContents(hash, trace)
    ensures Structural(hash, trace) == {} <==> IsLowerSha256(trace.identity) && ValidateContents(hash, trace) == {}
  {
    assert ValidateContents(hash, trace.(identity := identity)) == ValidateContents(hash, trace);
  }

  lemma ZerosIsDigest()
    ensures IsLowerSha256(ZEROS)
  {
  }

  /** A trace is valid exactly when fingerprinting it succeeds with the identity it carries; and fingerprinting
      succeeds exactly when some identity would make it valid. */
  lemma ValidIffFingerprint(hash: Hash, trace: Trace)
    requires Digests(hash)
    ensures ValidateTrace(hash, trace) == {} <==> TraceFingerprintOf(hash, trace) == Ok(trace.identity)
    ensures TraceFingerprintOf(hash, trace).Ok? ==>
      ValidateTrace(hash, trace.(identity := TraceFingerprintOf(hash, trace).digest)) == {}
  {
    var placeholder := trace.(identity := ZEROS);
    ZerosIsDigest();
    PlaceholderStructural(hash, trace, ZEROS);
    FilteredIsStructural(hash, placeholder);
    if ValidateContents(hash, trace) == {} {
      StructuralEncodes(hash, placeholder);
      var digest := hash(TraceText(placeholder));
      assert IsLowerSha256(digest);
      var signed := trace.(identity := digest);
      PlaceholderStructural(hash, trace, digest);
      assert TraceText(signed) == TraceText(placeholder) == TraceText(trace);
    }
  }
}
