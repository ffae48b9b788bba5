/** Whole ITF documents: `Itf.read`, and the decoding of an accepted document into a replay trace. */
module ItfDocument {
  import opened Text
  import opened Sorting
  import opened Json
  import opened Canonical
  import opened Decoder
  import opened Itf
  import opened Agreement
  import opened Trace

  datatype Limits = Limits(maxStates: nat, maxCollection: nat)

  datatype Document = Document(variables: seq<Text>, states: seq<seq<(Text, ItfValue)>>)

  const META: Text := Units("#meta")
  const VARS: Text := Units("vars")
  const STATES_FIELD: Text := Units("states")
  const FORMAT: Text := Units("format")
  const ITF: Text := Units("ITF")

  /** `TryGetProperty`: the last member with the name. */
  function Property(members: seq<(Text, Json)>, name: Text): (r: Option<Json>)
    ensures r.Some? <==> name in Names(members)
    ensures r.Some? ==> (name, r.value) in members
  {
    if |members| == 0 then None
    else
      var last := |members| - 1;
      assert Names(members) == Names(members[..last]) + [members[last].0];
      if members[last].0 == name then
        assert members[last] == (name, members[last].1);
        Some(members[last].1)
      else Property(members[..last], name)
  }

  // ---------------------------------------------------------------- check, as it runs

  /** `check`: a set of the names met, one object at a time. */
  method Check(limit: nat, j: Json) returns (ok: bool)
    ensures ok <==> Checked(limit, j)
    decreases j
  {
    match j {
      case JArray(items) =>
        if |items| > limit {
          return false;
        }
        for i := 0 to |items|
          invariant forall k {:trigger items[k]} | 0 <= k < i :: Checked(limit, items[k])
        {
          var good := Check(limit, items[i]);
          if !good {
            assert items[i] in items;
            return false;
          }
        }
        ok := true;
      case JObject(members) =>
        if |members| > limit {
          return false;
        }
        ok := CheckMembers(limit, members);
      case _ => ok := true;
    }
  }

  method CheckMembers(limit: nat, members: seq<(Text, Json)>) returns (ok: bool)
    ensures ok <==>
      Distinct(Names(members)) && forall m | m in members :: ValidUnicode(m.0) && Checked(limit, m.1)
    decreases members
  {
    var names: set<Text> := {};
    for i := 0 to |members|
      invariant forall n :: n in names <==> exists k :: 0 <= k < i && Names(members)[k] == n
      invariant forall a, b | 0 <= a < b < i :: Names(members)[a] != Names(members)[b]
      invariant forall k {:trigger members[k]} | 0 <= k < i ::
        ValidUnicode(members[k].0) && Checked(limit, members[k].1)
    {
      var f := members[i];
      assert f == members[i] && f in members && Names(members)[i] == f.0;
      if f.0 in names || !ValidUnicode(f.0) {
        return false;
      }
      names := names + {f.0};
      var good := CheckMember(limit, f);
      if !good {
        return false;
      }
    }
    ok := true;
  }

  method CheckMember(limit: nat, member: (Text, Json)) returns (ok: bool)
    ensures ok <==> Checked(limit, member.1)
    decreases member
  {
    ok := Check(limit, member.1);
  }

  // ---------------------------------------------------------------- read

  predicate IsInt32(n: int) {
    -0x8000_0000 <= n < 0x8000_0000
  }

  /** A JSON number that `TryGetInt32` reads as `n`. */
  predicate IsIndex(j: Json, n: int) {
    j.JNumber? && IntSyntax(j.lexeme) && IsInt32(IntValue(j.lexeme)) && IntValue(j.lexeme) == n
  }

  const INDEX_FIELD: Text := Units("index")

  predicate IndexedAs(state: Json, i: nat)
    requires state.JObject?
  {
    var meta := Property(state.members, META);
    meta.None? || (meta.value.JObject? && Property(meta.value.members, INDEX_FIELD).Some?
                   && IsIndex(Property(meta.value.members, INDEX_FIELD).value, i))
  }

  /** The bindings are exactly the declared variables. */
  predicate Binds(variables: seq<Text>, state: Json)
    requires state.JObject?
  {
    (forall n | n in Names(state.members) && n != META :: n in variables) &&
    (forall n | n in variables :: n in Names(state.members) && n != META)
  }

  /** The variables a state binds, read in the declared order. */
  function ReadBindings(q: Quote, variables: seq<Text>, state: Json): Option<seq<(Text, ItfValue)>>
    requires state.JObject? && forall n | n in variables :: n in Names(state.members)
  {
    if |variables| == 0 then Some([])
    else
      var last := variables[|variables| - 1];
      match ReadBindings(q, variables[..|variables| - 1], state)
      case None => None
      case Some(before) =>
        match ReadValue(q, Property(state.members, last).value)
        case None => None
        case Some(v) => Some(before + [(last, v)])
  }

  function ReadState(q: Quote, variables: seq<Text>, i: nat, state: Json): Option<seq<(Text, ItfValue)>> {
    if !state.JObject? || !Binds(variables, state) || !IndexedAs(state, i) then None
    else ReadBindings(q, variables, state)
  }

  function ReadStates(q: Quote, variables: seq<Text>, states: seq<Json>): (r: Option<seq<seq<(Text, ItfValue)>>>) {
    if |states| == 0 then Some([])
    else
      match ReadStates(q, variables, states[..|states| - 1])
      case None => None
      case Some(before) =>
        match ReadState(q, variables, |states| - 1, states[|states| - 1])
        case None => None
        case Some(s) => Some(before + [s])
  }

  lemma {:induction false} ReadStatesMeans(q: Quote, variables: seq<Text>, states: seq<Json>)
    requires ReadStates(q, variables, states).Some?
    ensures forall i | 0 <= i < |states| :: ReadState(q, variables, i, states[i]).Some?
  {
    if |states| > 0 {
      ReadStatesMeans(q, variables, states[..|states| - 1]);
      forall i | 0 <= i < |states|
        ensures ReadState(q, variables, i, states[i]).Some?
      {
        if i < |states| - 1 {
          assert states[..|states| - 1][i] == states[i];
        }
      }
    }
  }

  predicate IsVariable(j: Json) {
    j.JString? && ValidUnicode(j.text) && !Blank(j.text) && !Hashed(j.text)
  }

  function VariableNames(items: seq<Json>): (r: seq<Text>)
    requires forall i | 0 <= i < |items| :: items[i].JString?
    ensures |r| == |items| && forall i | 0 <= i < |items| :: r[i] == items[i].text
  {
    seq(|items|, i requires 0 <= i < |items| => items[i].text)
  }

  predicate GoodMeta(members: seq<(Text, Json)>) {
    var meta := Property(members, META);
    meta.None? || (meta.value.JObject? && Property(meta.value.members, FORMAT) == Some(JString(ITF)))
  }

  /** The shape of the root: its fields, its metadata, its variables and its list of states. */
  predicate GoodRoot(limits: Limits, j: Json) {
    && j.JObject? && (forall m | m in j.members :: m.0 == META || m.0 == VARS || m.0 == STATES_FIELD)
    && GoodMeta(j.members) && GoodVars(j.members) && GoodStates(limits, j.members)
  }

  predicate AreVariables(items: seq<Json>) {
    (forall i | 0 <= i < |items| :: IsVariable(items[i])) && |items| > 0 && Distinct(VariableNames(items))
  }

  predicate GoodVars(members: seq<(Text, Json)>) {
    var vars := Property(members, VARS);
    vars.Some? && vars.value.JArray? && AreVariables(vars.value.items)
  }

  predicate GoodStates(limits: Limits, members: seq<(Text, Json)>) {
    var states := Property(members, STATES_FIELD);
    states.Some? && states.value.JArray? && 0 < |states.value.items| <= limits.maxStates
  }

  function Variables(j: Json): seq<Text>
    requires j.JObject? && GoodVars(j.members)
  {
    VariableNames(Property(j.members, VARS).value.items)
  }

  function States(j: Json): seq<Json>
    requires j.JObject? && Property(j.members, STATES_FIELD).Some? && Property(j.members, STATES_FIELD).value.JArray?
  {
    Property(j.members, STATES_FIELD).value.items
  }

  /** `Itf.read` on a parsed document. */
  function ReadDocument(q: Quote, limits: Limits, j: Json): Option<Document> {
    if !Checked(limits.maxCollection, j) || !GoodRoot(limits, j) then None
    else
      match ReadStates(q, Variables(j), States(j))
      case None => None
      case Some(states) => Some(Document(Variables(j), states))
  }

  // ---------------------------------------------------------------- decodeItfUnchecked

  datatype Finding =
    | Required | UnsupportedField | MetaValue | StateIndexType | ValueRefused | StepBindings | OfTrace(code: Code)

  type Findings = set<Finding>

  datatype StepBinding = StepBinding(index: int, action: Text, source: Source)

  datatype Context = Context(environment: Environment, steps: seq<StepBinding>)

  /** The trace, the findings, or an exception: for a state that has no encoding or a status that cannot be read. */
  datatype Result = Decoded(trace: Trace) | Refused(findings: Findings) | Raised

  function Found(condition: bool, finding: Finding): Findings {
    if condition then {finding} else {}
  }

  /** `checkFields` with the required fields also the allowed ones, for names without repetition. */
  function CheckFields(fields: seq<Text>, members: seq<(Text, Json)>): Findings {
    Found(exists m | m in members :: m.0 !in fields, UnsupportedField)
    + Found(exists f | f in fields :: f !in Names(members), Required)
  }

  const DESCRIPTION: Text := Units("format-description")
  const SOURCE_FIELD: Text := Units("source")
  const STATUS: Text := Units("status")
  const OK: Text := Units("ok")

  function MetaFindings(members: seq<(Text, Json)>): Findings {
    match Property(members, META)
    case None => {}
    case Some(meta) =>
      if !meta.JObject? then {}
      else
        CheckFields([FORMAT, DESCRIPTION, SOURCE_FIELD, STATUS], meta.members)
        + Found(Property(meta.members, FORMAT) != Some(JString(ITF)), MetaValue)
        + Found(Property(meta.members, STATUS) != Some(JString(OK)), MetaValue)
  }

  /** The metadata's status is a string with an unpaired surrogate, which `Itf.read` does not look at: comparing it with
      the expected one raises. */
  predicate StatusUnreadable(members: seq<(Text, Json)>) {
    var meta := Property(members, META);
    meta.Some? && meta.value.JObject? &&
    (var status := Property(meta.value.members, STATUS);
     status.Some? && status.value.JString? && !ValidUnicode(status.value.text))
  }

  /** The state's own fields and its index. */
  function StateFindings(variables: seq<Text>, i: nat, members: seq<(Text, Json)>): Findings {
    CheckFields(variables + [META], members) +
    match Property(members, META)
    case None => {}
    case Some(meta) =>
      if !meta.JObject? then {}
      else
        CheckFields([INDEX_FIELD], meta.members)
        + Found(Property(meta.members, INDEX_FIELD).None? || !IsIndex(Property(meta.members, INDEX_FIELD).value, i),
                StateIndexType)
  }

  /** The variables that are present and decode. */
  function DecodeBindings(variables: seq<Text>, members: seq<(Text, Json)>): seq<(Text, Value)> {
    if |variables| == 0 then []
    else
      var last := variables[|variables| - 1];
      var before := DecodeBindings(variables[..|variables| - 1], members);
      match Property(members, last)
      case None => before
      case Some(j) => if DecodeValue(j).Some? then before + [(last, DecodeValue(j).value)] else before
  }

  /** Whether a variable's value is refused. */
  predicate SomeRefused(variables: seq<Text>, members: seq<(Text, Json)>) {
    exists n | n in variables :: Property(members, n).Some? && DecodeValue(Property(members, n).value).None?
  }

  predicate AllEncodable(states: seq<State>) {
    forall i | 0 <= i < |states| :: Encodable(states[i].bindings)
  }

  function MembersOf(j: Json): seq<(Text, Json)> {
    if j.JObject? then j.members else []
  }

  /** The states decoded so far and the findings, or nothing once a state has no encoding. */
  function DecodeStates(hash: Hash, variables: seq<Text>, states: seq<Json>): (r: Option<(seq<State>, Findings)>)
    ensures r.Some? ==> |r.value.0| == |states| && AllEncodable(r.value.0)
  {
    if |states| == 0 then Some(([], {}))
    else
      var last := |states| - 1;
      var before := DecodeStates(hash, variables, states[..last]);
      var members := MembersOf(states[last]);
      var bindings := DecodeBindings(variables, members);
      if before.None? || !Encodable(bindings) then None
      else
        Some((before.value.0 + [State(hash(StateText(bindings)), bindings)],
              before.value.1 + StateFindings(variables, last, members)
              + Found(SomeRefused(variables, members), ValueRefused)))
  }

  function StepsOf(states: seq<State>, bindings: seq<StepBinding>): (r: seq<Step>)
    requires |states| == |bindings|
    ensures |r| == |states|
    ensures forall i | 0 <= i < |r| ::
        r[i] == Step(bindings[i].index, bindings[i].action, bindings[i].source, states[i])
  {
    seq(|states|, i requires 0 <= i < |states| =>
      Step(bindings[i].index, bindings[i].action, bindings[i].source, states[i]))
  }

  function Transitions(context: Context, states: seq<State>): seq<Step>
    requires |states| > 0
  {
    if |states| - 1 == |context.steps| then StepsOf(states[1..], context.steps) else []
  }

  /** The trace of at least one decoded state, before its identity is computed. */
  function Draft(context: Context, states: seq<State>): Trace
    requires |states| > 0
  {
    Trace(1, ZEROS, context.environment, states[0], Transitions(context, states))
  }

  function TraceFindings(codes: Codes): Findings {
    set c | c in codes :: OfTrace(c)
  }

  /** The trace of at least one decoded state, with the digest of its text. */
  function Signed(hash: Hash, context: Context, states: seq<State>): Trace
    requires |states| > 0 && AllEncodable(states)
  {
    var draft := Draft(context, states);
    draft.(identity := hash(TraceText(draft)))
  }

  /** The trace if nothing is found, the findings otherwise. */
  function Concluded(findings: Findings, uneven: bool, codes: Codes, trace: Trace): Result {
    var all := findings + Found(uneven, StepBindings) + TraceFindings(codes);
    if all == {} then Decoded(trace) else Refused(all)
  }

  function Finish(hash: Hash, context: Context, states: seq<State>, findings: Findings): Result
    requires |states| > 0 && AllEncodable(states)
  {
    var trace := Signed(hash, context, states);
    Concluded(findings, |context.steps| != |states| - 1, ValidateTrace(hash, trace), trace)
  }

  predicate Accepts(q: Quote, limits: Limits, j: Json) {
    ReadDocument(q, limits, j).Some?
  }

  lemma AcceptedShape(q: Quote, limits: Limits, j: Json)
    requires Accepts(q, limits, j)
    ensures Checked(limits.maxCollection, j) && GoodRoot(limits, j) && |States(j)| > 0
    ensures forall i | 0 <= i < |States(j)| :: ReadState(q, Variables(j), i, States(j)[i]).Some?
    ensures forall i | 0 <= i < |States(j)| :: States(j)[i].JObject?
  {
    var states := States(j);
    ReadStatesMeans(q, Variables(j), states);
    forall i | 0 <= i < |states|
      ensures states[i].JObject?
    {
      assert ReadState(q, Variables(j), i, states[i]).Some?;
    }
  }

  /** `decodeItf` after `Itf.read` has accepted the document. */
  function DecodeSpec(hash: Hash, context: Context, q: Quote, limits: Limits, j: Json): Result
    requires Accepts(q, limits, j)
  {
    var decoded := DecodeStates(hash, Variables(j), States(j));
    if StatusUnreadable(j.members) || decoded.None? then Raised
    else Finish(hash, context, decoded.value.0, RootFindings(j.members) + decoded.value.1)
  }

  function RootFindings(members: seq<(Text, Json)>): Findings {
    CheckFields([META, VARS, STATES_FIELD], members) + MetaFindings(members)
  }

  lemma DecodeStatesStep(hash: Hash, variables: seq<Text>, states: seq<Json>, i: nat)
    requires i < |states|
    ensures
      var before := DecodeStates(hash, variables, states[..i]);
      var members := MembersOf(states[i]);
      var bindings := DecodeBindings(variables, members);
      DecodeStates(hash, variables, states[..i + 1]) ==
      if before.None? || !Encodable(bindings) then None
      else
        Some((before.value.0 + [State(hash(StateText(bindings)), bindings)],
              before.value.1 +
                StateFindings(variables, i, members) + Found(SomeRefused(variables, members), ValueRefused)))
  {
    assert states[..i + 1][..i] == states[..i];
  }

  /** The states in turn, the findings growing with each. */
  method DecodeEach(hash: Hash, variables: seq<Text>, states: seq<Json>) returns (r: Option<(seq<State>, Findings)>)
    ensures r == DecodeStates(hash, variables, states)
  {
    var decoded: seq<State>, findings: Findings := [], {};
    for i := 0 to |states|
      invariant DecodeStates(hash, variables, states[..i]) == Some((decoded, findings))
    {
      DecodeStatesStep(hash, variables, states, i);
      var members := MembersOf(states[i]);
      var bindings := DecodeBindings(variables, members);
      if !Encodable(bindings) {
        RaisedEnds(hash, variables, states, i + 1);
        return None;
      }
      findings := findings +
        StateFindings(variables, i, members) + Found(SomeRefused(variables, members), ValueRefused);
      decoded := decoded + [State(hash(StateText(bindings)), bindings)];
    }
    assert states[..|states|] == states;
    return Some((decoded, findings));
  }

  /** `decodeItf` as it runs, after `Itf.read`. */
  method DecodeItf(hash: Hash, context: Context, q: Quote, limits: Limits, j: Json) returns (r: Result)
    requires Accepts(q, limits, j)
    ensures r == DecodeSpec(hash, context, q, limits, j)
  {
    if StatusUnreadable(j.members) {
      return Raised;
    }
    var findings := RootFindings(j.members);
    var decoded := DecodeEach(hash, Variables(j), States(j));
    if decoded.None? {
      return Raised;
    }
    findings := findings + decoded.value.1;
    r := Finish(hash, context, decoded.value.0, findings);
  }

  lemma {:induction false} RaisedEnds(hash: Hash, variables: seq<Text>, states: seq<Json>, n: nat)
    requires n <= |states| && DecodeStates(hash, variables, states[..n]).None?
    ensures DecodeStates(hash, variables, states).None?
    decreases |states|
  {
    if n == |states| {
      assert states[..n] == states;
    } else {
      assert states[..|states| - 1][..n] == states[..n];
      RaisedEnds(hash, variables, states[..|states| - 1], n);
    }
  }

  // ---------------------------------------------------------------- when decoding raises

  lemma PropertyChecked(limit: nat, members: seq<(Text, Json)>, name: Text)
    requires Checked(limit, JObject(members)) && name in Names(members)
    ensures Checked(limit, Property(members, name).value)
  {
    assert (name, Property(members, name).value) in members;
  }

  predicate EncodesAll(bindings: seq<(Text, Value)>) {
    forall i | 0 <= i < |bindings| :: Encode(bindings[i].1).Some?
  }

  lemma EncodableMeans(bindings: seq<(Text, Value)>)
    ensures Encodable(bindings) <==> EncodesAll(bindings)
  {
    if Encodable(bindings) {
      forall i | 0 <= i < |bindings|
        ensures Encode(bindings[i].1).Some?
      {
        assert EncodeField(bindings[i]).Some?;
      }
    } else {
      var i :| 0 <= i < |bindings| && EncodeField(bindings[i]).None?;
      assert Encode(bindings[i].1).None?;
    }
  }

  /** The variable's value decodes to one with a blank record name. */
  predicate BlankAt(members: seq<(Text, Json)>, name: Text) {
    Property(members, name).Some? && DecodeValue(Property(members, name).value).Some? &&
    !NoBlanks(DecodeValue(Property(members, name).value).value)
  }

  lemma ReadBindingsStep(q: Quote, variables: seq<Text>, state: Json)
    requires state.JObject? && (forall n | n in variables :: n in Names(state.members)) && |variables| > 0
    requires ReadBindings(q, variables, state).Some?
    ensures
      var before, last := variables[..|variables| - 1], variables[|variables| - 1];
      && (forall n | n in before :: n in variables) && last in variables
      && ReadBindings(q, before, state).Some? && ReadValue(q, Property(state.members, last).value).Some?
  {
  }

  predicate SomeBlank(variables: seq<Text>, members: seq<(Text, Json)>) {
    exists n | n in variables :: BlankAt(members, n)
  }

  lemma SomeBlankStep(variables: seq<Text>, members: seq<(Text, Json)>)
    requires |variables| > 0
    ensures SomeBlank(variables, members) <==>
      SomeBlank(variables[..|variables| - 1], members) || BlankAt(members, variables[|variables| - 1])
  {
    var before, last := variables[..|variables| - 1], variables[|variables| - 1];
    assert variables == before + [last];
  }

  lemma {:induction false} BindingsEncode(q: Quote, limit: nat, variables: seq<Text>, state: Json)
    requires state.JObject? && Checked(limit, state) && forall n | n in variables :: n in Names(state.members)
    requires ReadBindings(q, variables, state).Some?
    ensures EncodesAll(DecodeBindings(variables, state.members)) <==> !SomeBlank(variables, state.members)
  {
    if |variables| > 0 {
      var before, last := variables[..|variables| - 1], variables[|variables| - 1];
      ReadBindingsStep(q, variables, state);
      BindingsEncode(q, limit, before, state);
      SomeBlankStep(variables, state.members);
      PropertyChecked(limit, state.members, last);
      OneMoreEncodes(q, limit, variables, state.members);
    }
  }

  lemma OneMoreEncodes(q: Quote, limit: nat, variables: seq<Text>, members: seq<(Text, Json)>)
    requires |variables| > 0 && Property(members, variables[|variables| - 1]).Some?
    requires
      var j := Property(members, variables[|variables| - 1]).value;
      Checked(limit, j) && ReadValue(q, j).Some?
    ensures
      var before, last := variables[..|variables| - 1], variables[|variables| - 1];
      EncodesAll(DecodeBindings(variables, members)) <==>
      EncodesAll(DecodeBindings(before, members)) && !BlankAt(members, last)
  {
    var before, last := variables[..|variables| - 1], variables[|variables| - 1];
    var j := Property(members, last).value;
    if DecodeValue(j).Some? {
      TwoCodecsAgree(q, limit, j);
      EncodesAppend(DecodeBindings(before, members), (last, DecodeValue(j).value));
    }
  }

  lemma EncodesAppend(bindings: seq<(Text, Value)>, b: (Text, Value))
    ensures EncodesAll(bindings + [b]) <==> EncodesAll(bindings) && Encode(b.1).Some?
  {
    if EncodesAll(bindings + [b]) {
      forall i | 0 <= i < |bindings|
        ensures Encode(bindings[i].1).Some?
      {
        assert (bindings + [b])[i] == bindings[i];
      }
      assert (bindings + [b])[|bindings|] == b;
    }
  }

  predicate Unencodable(variables: seq<Text>, state: Json) {
    !Encodable(DecodeBindings(variables, MembersOf(state)))
  }

  predicate AnyUnencodable(variables: seq<Text>, states: seq<Json>) {
    exists s | s in states :: Unencodable(variables, s)
  }

  lemma StatesRaiseStep(hash: Hash, variables: seq<Text>, states: seq<Json>)
    requires |states| > 0
    ensures DecodeStates(hash, variables, states).None? <==>
      DecodeStates(hash, variables, states[..|states| - 1]).None? || Unencodable(variables, states[|states| - 1])
  {
  }

  lemma {:induction false} StatesRaise(hash: Hash, variables: seq<Text>, states: seq<Json>)
    ensures DecodeStates(hash, variables, states).None? <==> AnyUnencodable(variables, states)
  {
    if |states| > 0 {
      StatesRaise(hash, variables, states[..|states| - 1]);
      StatesRaiseStep(hash, variables, states);
      AnyStep(variables, states);
    }
  }

  lemma AnyStep(variables: seq<Text>, states: seq<Json>)
    requires |states| > 0
    ensures AnyUnencodable(variables, states) <==>
        AnyUnencodable(variables, states[..|states| - 1]) || Unencodable(variables, states[|states| - 1])
  {
    var before, last := states[..|states| - 1], states[|states| - 1];
    if s :| s in states && Unencodable(variables, s) {
      assert s in before || s == last;
    }
  }

  lemma StateChecked(limit: nat, j: Json, i: nat)
    requires Checked(limit, j) && j.JObject? && STATES_FIELD in Names(j.members)
    requires Property(j.members, STATES_FIELD).value.JArray? && i < |States(j)|
    ensures Checked(limit, States(j)[i])
  {
    PropertyChecked(limit, j.members, STATES_FIELD);
    assert States(j)[i] in States(j);
  }

  lemma AcceptedState(q: Quote, limits: Limits, j: Json, i: nat)
    requires Accepts(q, limits, j) && i < |States(j)|
    ensures States(j)[i].JObject? && Binds(Variables(j), States(j)[i]) && IndexedAs(States(j)[i], i)
    ensures ReadBindings(q, Variables(j), States(j)[i]).Some? && Checked(limits.maxCollection, States(j)[i])
  {
    AcceptedShape(q, limits, j);
    assert ReadState(q, Variables(j), i, States(j)[i]).Some?;
    StateChecked(limits.maxCollection, j, i);
  }

  lemma AcceptedStateEncodes(q: Quote, limits: Limits, j: Json, i: nat)
    requires Accepts(q, limits, j) && i < |States(j)|
    ensures Unencodable(Variables(j), States(j)[i]) <==> HasBlank(Variables(j), States(j)[i])
  {
    AcceptedState(q, limits, j, i);
    BindingsEncode(q, limits.maxCollection, Variables(j), States(j)[i]);
    EncodableMeans(DecodeBindings(Variables(j), MembersOf(States(j)[i])));
  }

  /** Some variable of the state has a value with a blank record name. */
  predicate HasBlank(variables: seq<Text>, state: Json) {
    SomeBlank(variables, MembersOf(state))
  }

  lemma BlankIsUnencodable(q: Quote, limits: Limits, j: Json)
    requires Accepts(q, limits, j)
    ensures AnyUnencodable(Variables(j), States(j)) <==> exists s | s in States(j) :: HasBlank(Variables(j), s)
  {
    var variables, states := Variables(j), States(j);
    forall s | s in states
      ensures Unencodable(variables, s) <==> HasBlank(variables, s)
    {
      var i :| 0 <= i < |states| && states[i] == s;
      AcceptedStateEncodes(q, limits, j, i);
    }
  }

  /** For every document `Itf.read` accepts, decoding raises exactly when its metadata's status is a string with an
      unpaired surrogate or some variable of some state has a value with a blank record name; so for the others the
      branch for a state without an encoding is never reached. */
  lemma RaisesExactly(hash: Hash, context: Context, q: Quote, limits: Limits, j: Json)
    requires Accepts(q, limits, j)
    ensures DecodeSpec(hash, context, q, limits, j) == Raised <==>
      StatusUnreadable(j.members) || exists s | s in States(j) :: HasBlank(Variables(j), s)
  {
    StatesRaise(hash, Variables(j), States(j));
    BlankIsUnencodable(q, limits, j);
  }

  // ---------------------------------------------------------------- two documents that raise

  const X: Text := [0x78]

  /** One variable, and one state binding it. */
  function OneState(value: Json): Json {
    JObject([(X, value)])
  }

  function Plainly(value: Json): Json {
    JObject([(VARS, JArray([JString(X)])), (STATES_FIELD, JArray([OneState(value)]))])
  }

  function WithStatus(status: Text): Json {
    JObject([(META, JObject([(FORMAT, JString(ITF)), (STATUS, JString(status))])),
             (VARS, JArray([JString(X)])), (STATES_FIELD, JArray([OneState(JNull)]))])
  }

  lemma PropertyLast(members: seq<(Text, Json)>, m: (Text, Json))
    ensures Property(members + [m], m.0) == Some(m.1)
    ensures forall n | n != m.0 :: Property(members + [m], n) == Property(members, n)
  {
    assert (members + [m])[..|members|] == members;
  }

  lemma TwoProperties(a: (Text, Json), b: (Text, Json))
    requires a.0 != b.0
    ensures Names([a, b]) == [a.0, b.0] && Distinct(Names([a, b]))
    ensures Property([a, b], a.0) == Some(a.1) && Property([a, b], b.0) == Some(b.1)
    ensures forall n | n != a.0 && n != b.0 :: Property([a, b], n) == None
  {
    PropertyLast([], a);
    PropertyLast([a], b);
    assert [] + [a] == [a] && [a] + [b] == [a, b];
  }

  lemma ThreeProperties(a: (Text, Json), b: (Text, Json), c: (Text, Json))
    requires a.0 != b.0 && a.0 != c.0 && b.0 != c.0
    ensures Names([a, b, c]) == [a.0, b.0, c.0] && Distinct(Names([a, b, c]))
    ensures Property([a, b, c], a.0) == Some(a.1) && Property([a, b, c], b.0) == Some(b.1)
    ensures Property([a, b, c], c.0) == Some(c.1)
  {
    TwoProperties(a, b);
    PropertyLast([a, b], c);
    assert [a, b] + [c] == [a, b, c];
  }

  lemma FieldNames()
    ensures |META| == 5 && |VARS| == 4 && |STATES_FIELD| == 6 && |FORMAT| == 6 && |STATUS| == 6
    ensures FORMAT != STATUS && Hashed(META) && !Hashed(X) && !Blank(X) && ValidUnicode(X) && X != META
    ensures ValidUnicode(META) && ValidUnicode(VARS) && ValidUnicode(STATES_FIELD)
    ensures ValidUnicode(FORMAT) && ValidUnicode(STATUS)
  {
    assert FORMAT[0] == 0x66 && STATUS[0] == 0x73;
    assert META[0] == 0x23;
    assert X[0] in X && !IsWhite(X[0]);
    AsciiValid(X);
    AsciiValid(META);
    AsciiValid(VARS);
    AsciiValid(STATES_FIELD);
    AsciiValid(FORMAT);
    AsciiValid(STATUS);
  }

  lemma OneProperty(m: (Text, Json))
    ensures Names([m]) == [m.0] && Property([m], m.0) == Some(m.1)
    ensures forall n | n != m.0 :: Property([m], n) == None
  {
    PropertyLast([], m);
    assert [] + [m] == [m];
  }

  lemma OneBinding(q: Quote, value: Json)
    requires ReadValue(q, value).Some?
    ensures Binds([X], OneState(value)) && IndexedAs(OneState(value), 0)
    ensures ReadBindings(q, [X], OneState(value)).Some?
  {
    FieldNames();
    OneProperty((X, value));
    assert [X][..0] == [];
    assert ReadBindings(q, [], OneState(value)) == Some([]);
  }

  /** A state with the one variable is read as its value is. */
  lemma OneStateRead(q: Quote, value: Json)
    requires ReadValue(q, value).Some?
    ensures ReadStates(q, [X], [OneState(value)]).Some?
  {
    OneBinding(q, value);
    assert [OneState(value)][..0] == [];
    assert ReadStates(q, [X], []) == Some([]);
  }

  lemma OneStateChecked(value: Json)
    requires Checked(10, value)
    ensures Checked(10, JArray([JString(X)])) && Checked(10, JArray([OneState(value)]))
  {
    FieldNames();
    assert Names([(X, value)]) == [X];
    assert Checked(10, OneState(value));
  }

  const LIMITS: Limits := Limits(10, 10)

  lemma PlainlyRoot(value: Json)
    ensures GoodRoot(LIMITS, Plainly(value)) && Distinct(Names(Plainly(value).members))
    ensures Variables(Plainly(value)) == [X] && States(Plainly(value)) == [OneState(value)]
  {
    FieldNames();
    TwoProperties((VARS, JArray([JString(X)])), (STATES_FIELD, JArray([OneState(value)])));
    assert VariableNames([JString(X)]) == [X];
  }

  lemma PlainlyAccepted(q: Quote, value: Json)
    requires ReadValue(q, value).Some? && Checked(10, value)
    ensures Accepts(q, LIMITS, Plainly(value))
  {
    FieldNames();
    PlainlyRoot(value);
    OneStateChecked(value);
    OneStateRead(q, value);
    assert Checked(10, Plainly(value));
  }

  /** A document `Itf.read` accepts and decoding raises on: one state whose one variable is a record with a blank
      name. */
  lemma BlankNameRaises(hash: Hash, context: Context, q: Quote)
    ensures
      var j := Plainly(JObject([([], JNull)]));
      Accepts(q, LIMITS, j) && DecodeSpec(hash, context, q, LIMITS, j) == Raised
  {
    var value := JObject([([], JNull)]);
    var j := Plainly(value);
    BlankRecord(q);
    PlainlyAccepted(q, value);
    PlainlyRoot(value);
    OneProperty((X, value));
    assert X in [X] && BlankAt([(X, value)], X);
    assert OneState(value) in States(j) && HasBlank([X], OneState(value));
    RaisesExactly(hash, context, q, LIMITS, j);
  }

  lemma BlankRecord(q: Quote)
    ensures
      var value := JObject([([], JNull)]);
      && ReadValue(q, value).Some? && Checked(10, value)
      && DecodeValue(value) == Some(Record([([], Null)])) && !NoBlanks(Record([([], Null)]))
  {
    var members: seq<(Text, Json)> := [([], JNull)];
    assert Names(members) == [[]] && members[1..] == [];
    assert DecodeMember(members[0]) == Some(([], Null)) && DecodeMembers([]) == Some([]);
    assert DecodeMembers(members) == Some([([], Null)] + []);
    assert ReadMember(q, members[0]) == Some(([], INull)) && ReadMembers(q, []) == Some([]);
    assert ReadMembers(q, members) == Some([([], INull)] + []);
    assert !Hashed(members[0].0);
    var f: (Text, Value) := ([], Null);
    assert f in [f] && Blank(f.0);
    assert [f] + [] == [f];
  }

  const LONE_SURROGATE: Text := [0xd800]

  lemma GoodStatusMeta(status: Text)
    ensures
      var members := [(FORMAT, JString(ITF)), (STATUS, JString(status))];
      && Checked(10, JObject(members)) && Property(members, FORMAT) == Some(JString(ITF))
      && Property(members, STATUS) == Some(JString(status))
  {
    FieldNames();
    TwoProperties((FORMAT, JString(ITF)), (STATUS, JString(status)));
  }

  lemma WithStatusFields(status: Text)
    ensures
      var members := WithStatus(status).members;
      && Distinct(Names(members)) && Property(members, META) == Some(members[0].1)
      && Property(members, VARS) == Some(members[1].1) && Property(members, STATES_FIELD) == Some(members[2].1)
  {
    FieldNames();
    var members := WithStatus(status).members;
    ThreeProperties(members[0], members[1], members[2]);
  }

  lemma WithStatusChecked(status: Text)
    ensures Checked(10, WithStatus(status))
  {
    FieldNames();
    GoodStatusMeta(status);
    OneStateChecked(JNull);
    WithStatusFields(status);
    var members := WithStatus(status).members;
    ThreeChecked(members[0], members[1], members[2]);
  }

  lemma ThreeChecked(a: (Text, Json), b: (Text, Json), c: (Text, Json))
    requires Distinct(Names([a, b, c])) && ValidUnicode(a.0) && ValidUnicode(b.0) && ValidUnicode(c.0)
    requires Checked(10, a.1) && Checked(10, b.1) && Checked(10, c.1)
    ensures Checked(10, JObject([a, b, c]))
  {
  }

  lemma WithStatusRoot(status: Text)
    ensures GoodRoot(LIMITS, WithStatus(status))
    ensures Variables(WithStatus(status)) == [X] && States(WithStatus(status)) == [OneState(JNull)]
  {
    FieldNames();
    WithStatusFields(status);
    GoodStatusMeta(status);
    assert VariableNames([JString(X)]) == [X];
  }

  lemma WithStatusAccepted(q: Quote, status: Text)
    ensures Accepts(q, LIMITS, WithStatus(status))
  {
    WithStatusChecked(status);
    WithStatusRoot(status);
    OneStateRead(q, JNull);
  }

  lemma WithStatusUnreadable(status: Text)
    ensures StatusUnreadable(WithStatus(status).members) <==> !ValidUnicode(status)
  {
    WithStatusFields(status);
    GoodStatusMeta(status);
  }

  /** Another: its metadata's status is an unpaired surrogate, which `Itf.read` never reads. */
  lemma UnreadableStatusRaises(hash: Hash, context: Context, q: Quote)
    ensures Accepts(q, LIMITS, WithStatus(LONE_SURROGATE))
    ensures DecodeSpec(hash, context, q, LIMITS, WithStatus(LONE_SURROGATE)) == Raised
  {
    WithStatusAccepted(q, LONE_SURROGATE);
    WithStatusUnreadable(LONE_SURROGATE);
    RaisesExactly(hash, context, q, LIMITS, WithStatus(LONE_SURROGATE));
  }

  // ---------------------------------------------------------------- what is decoded

  lemma {:induction false} AllBound(variables: seq<Text>, members: seq<(Text, Json)>)
    requires (forall n | n in variables :: n in Names(members)) && !SomeRefused(variables, members)
    ensures
      var bindings := DecodeBindings(variables, members);
      |bindings| == |variables| && forall k | 0 <= k < |variables| ::
        variables[k] in Names(members) && bindings[k].0 == variables[k]
        && Some(bindings[k].1) == DecodeValue(Property(members, variables[k]).value)
  {
    if |variables| > 0 {
      var before, last := variables[..|variables| - 1], variables[|variables| - 1];
      assert variables == before + [last];
      assert forall n | n in before :: n in variables;
      AllBound(before, members);
      assert last in variables;
    }
  }

  lemma {:induction false} StatesDecoded(hash: Hash, variables: seq<Text>, states: seq<Json>, i: nat)
    requires DecodeStates(hash, variables, states).Some? && i < |states|
    ensures
      var (decoded, findings) := DecodeStates(hash, variables, states).value;
      && decoded[i].bindings == DecodeBindings(variables, MembersOf(states[i]))
      && (ValueRefused !in findings ==> !SomeRefused(variables, MembersOf(states[i])))
  {
    if i < |states| - 1 {
      StatesDecoded(hash, variables, states[..|states| - 1], i);
      assert states[..|states| - 1][i] == states[i];
    }
  }

  function StateOf(trace: Trace, i: nat): State
    requires i <= |trace.steps|
  {
    if i == 0 then trace.initial else trace.steps[i - 1].expected
  }

  lemma CodesFound(codes: Codes)
    ensures codes != {} ==> TraceFindings(codes) != {}
  {
    if c :| c in codes {
      assert OfTrace(c) in TraceFindings(codes);
    }
  }

  /** A draft of all the states, its steps bound to the consumer's. */
  predicate Assembled(trace: Trace, context: Context, states: seq<State>) {
    && trace.environment == context.environment && |trace.steps| == |context.steps| == |states| - 1
    && (forall i | 0 <= i < |states| :: StateOf(trace, i) == states[i])
    && (forall k | 0 <= k < |trace.steps| ::
          var step := trace.steps[k];
          StepBinding(step.index, step.action, step.source) == context.steps[k])
  }

  lemma DraftAssembled(context: Context, states: seq<State>, identity: Text)
    requires |states| > 0 && |context.steps| == |states| - 1
    ensures Assembled(Draft(context, states).(identity := identity), context, states)
  {
  }

  lemma FinishMeans(hash: Hash, context: Context, states: seq<State>, findings: Findings)
    requires |states| > 0 && AllEncodable(states) && Finish(hash, context, states, findings).Decoded?
    ensures
      var trace := Finish(hash, context, states, findings).trace;
      findings == {} && ValidateTrace(hash, trace) == {} && Assembled(trace, context, states)
  {
    FinishClean(hash, context, states, findings);
    DraftAssembled(context, states, hash(TraceText(Draft(context, states))));
  }

  /** A trace is made only when nothing was found. */
  lemma FinishClean(hash: Hash, context: Context, states: seq<State>, findings: Findings)
    requires |states| > 0 && AllEncodable(states) && Finish(hash, context, states, findings).Decoded?
    ensures
      var trace := Signed(hash, context, states);
      && Finish(hash, context, states, findings).trace == trace
      && findings == {} && |context.steps| == |states| - 1 && ValidateTrace(hash, trace) == {}
  {
    var trace := Signed(hash, context, states);
    ConcludedClean(findings, |context.steps| != |states| - 1, ValidateTrace(hash, trace), trace);
  }

  lemma ConcludedClean(findings: Findings, uneven: bool, codes: Codes, trace: Trace)
    ensures Concluded(findings, uneven, codes, trace).Decoded? ==>
      && Concluded(findings, uneven, codes, trace).trace == trace && findings == {} && !uneven && codes == {}
  {
    CodesFound(codes);
    NoneFound(findings, Found(uneven, StepBindings), TraceFindings(codes));
  }

  lemma NoneFound(a: Findings, b: Findings, c: Findings)
    ensures a + b + c == {} ==> a == {} && b == {} && c == {}
  {
    assert a <= a + b + c && b <= a + b + c && c <= a + b + c;
  }

  /** The state binds exactly the variables, in order, to the values decoded from the document's. */
  predicate BoundAsRead(variables: seq<Text>, j: Json, state: State) {
    var members := MembersOf(j);
    |state.bindings| == |variables| && forall k | 0 <= k < |variables| ::
      variables[k] in Names(members) && state.bindings[k].0 == variables[k]
      && Some(state.bindings[k].1) == DecodeValue(Property(members, variables[k]).value)
  }

  /** The trace has all the states of the document, in order, and the consumer's steps. */
  predicate FromDocument(trace: Trace, context: Context, variables: seq<Text>, states: seq<Json>) {
    && trace.environment == context.environment && |trace.steps| == |context.steps| == |states| - 1
    && (forall i | 0 <= i < |states| :: BoundAsRead(variables, states[i], StateOf(trace, i)))
    && (forall k | 0 <= k < |trace.steps| ::
          var step := trace.steps[k];
          StepBinding(step.index, step.action, step.source) == context.steps[k])
  }

  lemma StateBoundAsRead(hash: Hash, q: Quote, limits: Limits, j: Json, i: nat)
    requires Accepts(q, limits, j) && i < |States(j)|
    requires
      var decoded := DecodeStates(hash, Variables(j), States(j));
      decoded.Some? && ValueRefused !in decoded.value.1
    ensures BoundAsRead(Variables(j), States(j)[i], DecodeStates(hash, Variables(j), States(j)).value.0[i])
  {
    AcceptedState(q, limits, j, i);
    StatesDecoded(hash, Variables(j), States(j), i);
    AllBound(Variables(j), MembersOf(States(j)[i]));
  }

  lemma AssembledFromDocument(
      trace: Trace, context: Context, decoded: seq<State>, variables: seq<Text>, states: seq<Json>)
    requires Assembled(trace, context, decoded) && |decoded| == |states|
    requires forall i | 0 <= i < |states| :: BoundAsRead(variables, states[i], decoded[i])
    ensures FromDocument(trace, context, variables, states)
  {
    forall i | 0 <= i < |states|
      ensures BoundAsRead(variables, states[i], StateOf(trace, i))
    {
      assert StateOf(trace, i) == decoded[i];
    }
  }

  /** A document that decodes gives a valid trace of all its states in order, each binding exactly the declared
      variables, in the declared order, to their decoded values; its steps bear the consumer's indices, actions and
      sources. */
  lemma DecodedMeans(hash: Hash, context: Context, q: Quote, limits: Limits, j: Json)
    requires Accepts(q, limits, j) && DecodeSpec(hash, context, q, limits, j).Decoded?
    ensures ValidateTrace(hash, DecodeSpec(hash, context, q, limits, j).trace) == {}
    ensures FromDocument(DecodeSpec(hash, context, q, limits, j).trace, context, Variables(j), States(j))
  {
    var decoded := DecodeStates(hash, Variables(j), States(j)).value;
    FinishMeans(hash, context, decoded.0, RootFindings(j.members) + decoded.1);
    forall i | 0 <= i < |States(j)|
      ensures BoundAsRead(Variables(j), States(j)[i], decoded.0[i])
    {
      StateBoundAsRead(hash, q, limits, j, i);
    }
    AssembledFromDocument(DecodeSpec(hash, context, q, limits, j).trace, context, decoded.0, Variables(j), States(j));
  }
}
