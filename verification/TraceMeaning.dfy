/** What a trace fingerprint identifies: the trace text is the compact print of a JSON tree, and two valid traces
    print alike exactly when they agree up to binding and bound order and integer spelling. */
module TraceMeaning {
  import opened Text
  import opened Sorting
  import opened Json
  import opened Canonical
  import opened Meaning
  import opened Trace

  // ---------------------------------------------------------------- trees

  function NumberTree(n: int): Json {
    JNumber(IntText(n))
  }

  function StateTree(state: State): Json {
    Tree(Record(state.bindings))
  }

  function SourceTree(s: Source): Json {
    JObject([(PATH, JString(s.path)), (LINE, NumberTree(s.line)), (COLUMN, NumberTree(s.column))])
  }

  function BoundTrees(bounds: seq<(Text, int)>): (r: seq<(Text, Json)>)
    ensures |r| == |bounds|
    ensures forall i | 0 <= i < |bounds| :: r[i] == (bounds[i].0, NumberTree(bounds[i].1))
  {
    seq(|bounds|, i requires 0 <= i < |bounds| => (bounds[i].0, NumberTree(bounds[i].1)))
  }

  function BoundsTree(bounds: seq<(Text, int)>): Json {
    JObject(BoundTrees(SortPairs(bounds)))
  }

  function EnvironmentTree(e: Environment): Json {
    JObject([
      (SEED, JString(e.seed)), (BOUNDS, BoundsTree(e.bounds)), (TOOL, JString(e.tool)), (PROFILE, JString(e.profile)),
      (CONTRACT, JString(e.contract)), (ADAPTER, JString(e.adapter)), (IMPLEMENTATION, JString(e.implementation))])
  }

  function StepTree(step: Step): Json {
    JObject([
      (INDEX, NumberTree(step.index)), (ACTION, JString(step.action)), (SOURCE, SourceTree(step.source)),
      (EXPECTED, StateTree(step.expected))])
  }

  function StepTrees(steps: seq<Step>): (r: seq<Json>)
    ensures |r| == |steps|
    ensures forall i | 0 <= i < |steps| :: r[i] == StepTree(steps[i])
  {
    seq(|steps|, i requires 0 <= i < |steps| => StepTree(steps[i]))
  }

  function TraceTree(trace: Trace): Json {
    JObject([
      (SCHEMA, NumberTree(trace.schemaVersion)), (ENVIRONMENT, EnvironmentTree(trace.environment)),
      (INITIAL, StateTree(trace.initial)), (STEPS, JArray(StepTrees(trace.steps)))])
  }

  // ---------------------------------------------------------------- the text is the printed tree

  lemma {:induction false} PlainEscape(t: Text)
    requires Plain(t)
    ensures Escape(t) == t
  {
    if |t| > 0 {
      assert t[0] in t;
      forall u | u in t[1..]
        ensures 0x20 <= u <= 0x7e && u != 0x22 && u != 0x5c
      {
        assert u in t;
      }
      PlainEscape(t[1..]);
      assert t == [t[0]] + t[1..];
    }
  }

  lemma MemberIsPrint(name: Text, tree: Json)
    requires Plain(name)
    ensures Member(name, Print(EscapeJson, tree)) == PrintMember(EscapeJson, (name, tree))
  {
    PlainEscape(name);
  }

  lemma BracesIsPrint(texts: seq<Text>, members: seq<(Text, Json)>)
    requires |texts| == |members| && forall i | 0 <= i < |texts| :: texts[i] == PrintMember(EscapeJson, members[i])
    ensures Braces(texts) == Print(EscapeJson, JObject(members))
  {
    JoinIsMembers(EscapeJson, texts, members);
  }

  /** A list of members written with plain names and printed values. */
  lemma MembersArePrints(names: seq<Text>, trees: seq<Json>, texts: seq<Text>, members: seq<(Text, Json)>)
    requires |names| == |trees| == |texts| == |members|
    requires forall i | 0 <= i < |names| :: Plain(names[i]) && members[i] == (names[i], trees[i])
    requires forall i | 0 <= i < |names| :: texts[i] == Member(names[i], Print(EscapeJson, trees[i]))
    ensures Braces(texts) == Print(EscapeJson, JObject(members))
  {
    forall i | 0 <= i < |names|
      ensures texts[i] == PrintMember(EscapeJson, members[i])
    {
      MemberIsPrint(names[i], trees[i]);
    }
    BracesIsPrint(texts, members);
  }

  lemma SourceIsPrint(s: Source)
    ensures SourceText(s) == Print(EscapeJson, SourceTree(s))
  {
    MembersArePrints(
      [PATH, LINE, COLUMN],
      [JString(s.path), NumberTree(s.line), NumberTree(s.column)],
      [Member(PATH, EscapeJson(s.path)), Member(LINE, IntText(s.line)), Member(COLUMN, IntText(s.column))],
      SourceTree(s).members);
  }

  lemma BoundsIsPrint(bounds: seq<(Text, int)>)
    ensures Braces(BoundTexts(SortPairs(bounds))) == Print(EscapeJson, BoundsTree(bounds))
  {
    BracesIsPrint(BoundTexts(SortPairs(bounds)), BoundTrees(SortPairs(bounds)));
  }

  /** A member as written and as a tree. */
  predicate Written(text: Text, member: (Text, Json)) {
    text == PrintMember(EscapeJson, member)
  }

  lemma StringMember(name: Text, t: Text)
    requires Plain(name)
    ensures Written(Member(name, EscapeJson(t)), (name, JString(t)))
  {
    MemberIsPrint(name, JString(t));
  }

  lemma NumberMember(name: Text, n: int)
    requires Plain(name)
    ensures Written(Member(name, IntText(n)), (name, NumberTree(n)))
  {
    MemberIsPrint(name, NumberTree(n));
  }

  lemma FourArePrints(
      x1: Text, m1: (Text, Json), x2: Text, m2: (Text, Json), x3: Text, m3: (Text, Json), x4: Text, m4: (Text, Json))
    requires Written(x1, m1) && Written(x2, m2) && Written(x3, m3) && Written(x4, m4)
    ensures Braces([x1, x2, x3, x4]) == Print(EscapeJson, JObject([m1, m2, m3, m4]))
  {
    BracesIsPrint([x1, x2, x3, x4], [m1, m2, m3, m4]);
  }

  lemma SevenArePrints(
      x1: Text, m1: (Text, Json), x2: Text, m2: (Text, Json), x3: Text, m3: (Text, Json), x4: Text, m4: (Text, Json),
      x5: Text, m5: (Text, Json), x6: Text, m6: (Text, Json), x7: Text, m7: (Text, Json))
    requires Written(x1, m1) && Written(x2, m2) && Written(x3, m3) && Written(x4, m4) && Written(x5, m5)
    requires Written(x6, m6) && Written(x7, m7)
    ensures Braces([x1, x2, x3, x4, x5, x6, x7]) == Print(EscapeJson, JObject([m1, m2, m3, m4, m5, m6, m7]))
  {
    BracesIsPrint([x1, x2, x3, x4, x5, x6, x7], [m1, m2, m3, m4, m5, m6, m7]);
  }

  lemma BoundsMember(bounds: seq<(Text, int)>)
    ensures Written(Member(BOUNDS, Braces(BoundTexts(SortPairs(bounds)))), (BOUNDS, BoundsTree(bounds)))
  {
    BoundsIsPrint(bounds);
    MemberIsPrint(BOUNDS, BoundsTree(bounds));
  }

  lemma EnvironmentIsPrint(e: Environment)
    ensures EnvironmentText(e) == Print(EscapeJson, EnvironmentTree(e))
  {
    StringMember(SEED, e.seed);
    BoundsMember(e.bounds);
    StringMember(TOOL, e.tool);
    StringMember(PROFILE, e.profile);
    StringMember(CONTRACT, e.contract);
    StringMember(ADAPTER, e.adapter);
    StringMember(IMPLEMENTATION, e.implementation);
    SevenArePrints(
      Member(SEED, EscapeJson(e.seed)), (SEED, JString(e.seed)),
      Member(BOUNDS, Braces(BoundTexts(SortPairs(e.bounds)))), (BOUNDS, BoundsTree(e.bounds)),
      Member(TOOL, EscapeJson(e.tool)), (TOOL, JString(e.tool)),
      Member(PROFILE, EscapeJson(e.profile)), (PROFILE, JString(e.profile)),
      Member(CONTRACT, EscapeJson(e.contract)), (CONTRACT, JString(e.contract)),
      Member(ADAPTER, EscapeJson(e.adapter)), (ADAPTER, JString(e.adapter)),
      Member(IMPLEMENTATION, EscapeJson(e.implementation)), (IMPLEMENTATION, JString(e.implementation)));
  }

  ghost predicate Encodes(state: State) {
    Encode(Record(state.bindings)).Some?
  }

  lemma StateIsPrint(state: State)
    requires Encodes(state)
    ensures Encodable(state.bindings) && StateText(state.bindings) == Print(EscapeJson, StateTree(state))
  {
    ContentValid(state);
    EncodeIsPrint(Record(state.bindings));
  }

  lemma SourceMember(s: Source)
    ensures Written(Member(SOURCE, SourceText(s)), (SOURCE, SourceTree(s)))
  {
    SourceIsPrint(s);
    MemberIsPrint(SOURCE, SourceTree(s));
  }

  lemma StateMember(name: Text, state: State)
    requires Plain(name) && Encodes(state)
    ensures Encodable(state.bindings) && Written(Member(name, StateText(state.bindings)), (name, StateTree(state)))
  {
    StateIsPrint(state);
    MemberIsPrint(name, StateTree(state));
  }

  lemma StepIsPrint(step: Step)
    requires Encodes(step.expected)
    ensures Encodable(step.expected.bindings) && StepText(step) == Print(EscapeJson, StepTree(step))
  {
    NumberMember(INDEX, step.index);
    StringMember(ACTION, step.action);
    SourceMember(step.source);
    StateMember(EXPECTED, step.expected);
    FourArePrints(
      Member(INDEX, IntText(step.index)), (INDEX, NumberTree(step.index)),
      Member(ACTION, EscapeJson(step.action)), (ACTION, JString(step.action)),
      Member(SOURCE, SourceText(step.source)), (SOURCE, SourceTree(step.source)),
      Member(EXPECTED, StateText(step.expected.bindings)), (EXPECTED, StateTree(step.expected)));
  }

  ghost predicate TraceEncodes(trace: Trace) {
    Encodes(trace.initial) && forall i | 0 <= i < |trace.steps| :: Encodes(trace.steps[i].expected)
  }

  lemma StepsArePrint(steps: seq<Step>)
    requires forall i | 0 <= i < |steps| :: Encodes(steps[i].expected)
    ensures forall i | 0 <= i < |steps| :: Encodable(steps[i].expected.bindings)
    ensures Join(StepTexts(steps)) == PrintItems(EscapeJson, StepTrees(steps))
  {
    forall i | 0 <= i < |steps|
      ensures Encodable(steps[i].expected.bindings)
      ensures StepText(steps[i]) == Print(EscapeJson, StepTrees(steps)[i])
    {
      StepIsPrint(steps[i]);
    }
    JoinIsItems(EscapeJson, StepTexts(steps), StepTrees(steps));
  }

  lemma StepsMember(steps: seq<Step>)
    requires forall i | 0 <= i < |steps| :: Encodes(steps[i].expected)
    ensures forall i | 0 <= i < |steps| :: Encodable(steps[i].expected.bindings)
    ensures Written(Member(STEPS, [0x5b] + Join(StepTexts(steps)) + [0x5d]), (STEPS, JArray(StepTrees(steps))))
  {
    StepsArePrint(steps);
    MemberIsPrint(STEPS, JArray(StepTrees(steps)));
  }

  lemma EnvironmentMember(e: Environment)
    ensures Written(Member(ENVIRONMENT, EnvironmentText(e)), (ENVIRONMENT, EnvironmentTree(e)))
  {
    EnvironmentIsPrint(e);
    MemberIsPrint(ENVIRONMENT, EnvironmentTree(e));
  }

  lemma TraceIsPrint(trace: Trace)
    requires TraceEncodes(trace)
    ensures TraceEncodable(trace) && TraceText(trace) == Print(EscapeJson, TraceTree(trace))
  {
    NumberMember(SCHEMA, trace.schemaVersion);
    EnvironmentMember(trace.environment);
    StateMember(INITIAL, trace.initial);
    StepsMember(trace.steps);
    FourArePrints(
      Member(SCHEMA, IntText(trace.schemaVersion)), (SCHEMA, NumberTree(trace.schemaVersion)),
      Member(ENVIRONMENT, EnvironmentText(trace.environment)), (ENVIRONMENT, EnvironmentTree(trace.environment)),
      Member(INITIAL, StateText(trace.initial.bindings)), (INITIAL, StateTree(trace.initial)),
      Member(STEPS, [0x5b] + Join(StepTexts(trace.steps)) + [0x5d]), (STEPS, JArray(StepTrees(trace.steps))));
  }

  // ---------------------------------------------------------------- what validation guarantees

  ghost predicate GoodSource(s: Source) {
    ValidUnicode(s.path)
  }

  ghost predicate GoodStep(step: Step) {
    ValidUnicode(step.action) && GoodSource(step.source) && Encodes(step.expected)
  }

  ghost predicate GoodEnvironment(e: Environment) {
    && ValidUnicode(e.seed) && ValidUnicode(e.tool) && ValidUnicode(e.profile) && ValidUnicode(e.contract)
    && ValidUnicode(e.adapter) && ValidUnicode(e.implementation)
    && Distinct(Names(e.bounds)) && forall b | b in e.bounds :: ValidUnicode(b.0)
  }

  ghost predicate GoodTrace(trace: Trace) {
    && GoodEnvironment(trace.environment) && Encodes(trace.initial)
    && forall i | 0 <= i < |trace.steps| :: GoodStep(trace.steps[i])
  }

  lemma DigestValid(t: Text)
    requires IsLowerSha256(t)
    ensures ValidUnicode(t)
  {
    AsciiValid(t);
  }

  lemma ValidatedEnvironment(e: Environment)
    requires ValidateEnvironment(e) == {}
    ensures GoodEnvironment(e)
  {
    DigestValid(e.tool);
    DigestValid(e.profile);
    DigestValid(e.contract);
    DigestValid(e.adapter);
    DigestValid(e.implementation);
    GoodNames(e.bounds);
  }

  lemma ValidatedStep(hash: Hash, ordinal: nat, step: Step)
    requires ValidateStep(hash, ordinal, step) == {}
    ensures GoodStep(step) && step.index == ordinal + 1 && step.source.line >= 1 && step.source.column >= 1
  {
    assert ValidateSource(step.source) == {};
    assert ValidateState(hash, step.expected) == {};
    ContentValid(step.expected);
  }

  lemma Validated(hash: Hash, trace: Trace)
    requires ValidateContents(hash, trace) == {}
    ensures GoodTrace(trace) && trace.schemaVersion == 1
    ensures forall i | 0 <= i < |trace.steps| :: trace.steps[i].index == i + 1
  {
    ValidatedEnvironment(trace.environment);
    assert ValidateState(hash, trace.initial) == {};
    ContentValid(trace.initial);
    StepsValid(hash, trace.steps);
    forall i | 0 <= i < |trace.steps|
      ensures GoodStep(trace.steps[i]) && trace.steps[i].index == i + 1
    {
      ValidatedStep(hash, i, trace.steps[i]);
    }
  }

  // ---------------------------------------------------------------- the tree is printable

  lemma PrintableMembers(members: seq<(Text, Json)>)
    requires forall i | 0 <= i < |members| ::
        (Plain(members[i].0) || ValidUnicode(members[i].0)) && Printable(members[i].1)
    ensures Printable(JObject(members))
  {
    forall m | m in members
      ensures ValidUnicode(m.0) && Printable(m.1)
    {
      var i :| 0 <= i < |members| && members[i] == m;
      if Plain(m.0) {
        AsciiValid(m.0);
      }
    }
  }

  lemma SourcePrintable(s: Source)
    requires GoodSource(s)
    ensures Printable(SourceTree(s))
  {
    IntegerText(s.line);
    IntegerText(s.column);
    PrintableMembers(SourceTree(s).members);
  }

  lemma EnvironmentPrintable(e: Environment)
    requires GoodEnvironment(e)
    ensures Printable(EnvironmentTree(e))
  {
    BoundsPrintable(e);
    SevenPrintable(
      (SEED, JString(e.seed)), (BOUNDS, BoundsTree(e.bounds)), (TOOL, JString(e.tool)), (PROFILE, JString(e.profile)),
      (CONTRACT, JString(e.contract)), (ADAPTER, JString(e.adapter)), (IMPLEMENTATION, JString(e.implementation)));
  }

  lemma SevenPrintable(
      a: (Text, Json), b: (Text, Json), c: (Text, Json), d: (Text, Json), e: (Text, Json), f: (Text, Json),
      g: (Text, Json))
    requires Plain(a.0) && Plain(b.0) && Plain(c.0) && Plain(d.0) && Plain(e.0) && Plain(f.0) && Plain(g.0)
    requires Printable(a.1) && Printable(b.1) && Printable(c.1) && Printable(d.1) && Printable(e.1)
    requires Printable(f.1) && Printable(g.1)
    ensures Printable(JObject([a, b, c, d, e, f, g]))
  {
    PrintableMembers([a, b, c, d, e, f, g]);
  }

  lemma BoundsPrintable(e: Environment)
    requires GoodEnvironment(e)
    ensures Printable(JObject(BoundTrees(SortPairs(e.bounds))))
  {
    var sorted := SortPairs(e.bounds);
    forall i | 0 <= i < |sorted|
      ensures ValidUnicode(BoundTrees(sorted)[i].0) && Printable(BoundTrees(sorted)[i].1)
    {
      SortMember(e.bounds, i);
      IntegerText(sorted[i].1);
    }
    PrintableMembers(BoundTrees(sorted));
  }

  lemma FourPrintable(a: (Text, Json), b: (Text, Json), c: (Text, Json), d: (Text, Json))
    requires Plain(a.0) && Plain(b.0) && Plain(c.0) && Plain(d.0)
    requires Printable(a.1) && Printable(b.1) && Printable(c.1) && Printable(d.1)
    ensures Printable(JObject([a, b, c, d]))
  {
    PrintableMembers([a, b, c, d]);
  }

  lemma StatePrintable(state: State)
    requires Encodes(state)
    ensures Printable(StateTree(state))
  {
    EncodeIsPrint(Record(state.bindings));
  }

  lemma StepPrintable(step: Step)
    requires GoodStep(step)
    ensures Printable(StepTree(step))
  {
    IntegerText(step.index);
    SourcePrintable(step.source);
    StatePrintable(step.expected);
    FourPrintable((INDEX, NumberTree(step.index)), (ACTION, JString(step.action)), (SOURCE, SourceTree(step.source)),
                  (EXPECTED, StateTree(step.expected)));
  }

  lemma StepsPrintable(steps: seq<Step>)
    requires forall i | 0 <= i < |steps| :: GoodStep(steps[i])
    ensures Printable(JArray(StepTrees(steps)))
  {
    forall i | 0 <= i < |steps|
      ensures Printable(StepTrees(steps)[i])
    {
      StepPrintable(steps[i]);
    }
  }

  lemma TracePrintable(trace: Trace)
    requires GoodTrace(trace)
    ensures Printable(TraceTree(trace))
  {
    IntegerText(trace.schemaVersion);
    EnvironmentPrintable(trace.environment);
    StatePrintable(trace.initial);
    StepsPrintable(trace.steps);
    FourPrintable((SCHEMA, NumberTree(trace.schemaVersion)), (ENVIRONMENT, EnvironmentTree(trace.environment)),
                  (INITIAL, StateTree(trace.initial)), (STEPS, JArray(StepTrees(trace.steps))));
  }

  // ---------------------------------------------------------------- what the text determines

  ghost predicate SameState(a: State, b: State) {
    Same(Record(a.bindings), Record(b.bindings))
  }

  ghost predicate SameStep(a: Step, b: Step) {
    a.index == b.index && a.action == b.action && a.source == b.source && SameState(a.expected, b.expected)
  }

  /** Equal but for the order of the bounds. */
  ghost predicate SameEnvironment(a: Environment, b: Environment) {
    a.(bounds := []) == b.(bounds := []) && forall p :: p in a.bounds <==> p in b.bounds
  }

  /** Equal but for the identity fields, the order of bounds and bindings, and what `Same` ignores in values. */
  ghost predicate SameTrace(a: Trace, b: Trace) {
    && a.schemaVersion == b.schemaVersion && SameEnvironment(a.environment, b.environment)
    && SameState(a.initial, b.initial) && |a.steps| == |b.steps|
    && forall i | 0 <= i < |a.steps| :: SameStep(a.steps[i], b.steps[i])
  }

  ghost predicate TagFreeState(state: State) {
    forall b | b in state.bindings :: TagFree(b.1)
  }

  ghost predicate TagFreeTrace(trace: Trace) {
    TagFreeState(trace.initial) && forall i | 0 <= i < |trace.steps| :: TagFreeState(trace.steps[i].expected)
  }

  lemma SourceTreeIdentity(a: Source, b: Source)
    ensures SourceTree(a) == SourceTree(b) <==> a == b
  {
    if SourceTree(a) == SourceTree(b) {
      var m, n := SourceTree(a).members, SourceTree(b).members;
      assert m[0] == n[0] && m[1] == n[1] && m[2] == n[2];
      IntTextInjective(a.line, b.line);
      IntTextInjective(a.column, b.column);
    }
  }

  lemma BoundsTreeIdentity(a: seq<(Text, int)>, b: seq<(Text, int)>)
    requires Distinct(Names(a)) && Distinct(Names(b))
    ensures BoundsTree(a) == BoundsTree(b) <==> forall p :: p in a <==> p in b
  {
    SortPermutes(a);
    SortPermutes(b);
    if BoundsTree(a) == BoundsTree(b) {
      var m, n := BoundTrees(SortPairs(a)), BoundTrees(SortPairs(b));
      assert |SortPairs(a)| == |m| == |n| == |SortPairs(b)|;
      forall i | 0 <= i < |m|
        ensures SortPairs(a)[i] == SortPairs(b)[i]
      {
        assert m[i] == n[i];
        IntTextInjective(SortPairs(a)[i].1, SortPairs(b)[i].1);
      }
      assert SortPairs(a) == SortPairs(b);
    }
    if forall p :: p in a <==> p in b {
      SortUnique(a, b);
    }
  }

  lemma EnvironmentTreeIdentity(a: Environment, b: Environment)
    requires Distinct(Names(a.bounds)) && Distinct(Names(b.bounds))
    ensures EnvironmentTree(a) == EnvironmentTree(b) <==> SameEnvironment(a, b)
  {
    BoundsTreeIdentity(a.bounds, b.bounds);
    if EnvironmentTree(a) == EnvironmentTree(b) {
      var m, n := EnvironmentTree(a).members, EnvironmentTree(b).members;
      assert m[0] == n[0] && m[1] == n[1] && m[2] == n[2] && m[3] == n[3];
      assert m[4] == n[4] && m[5] == n[5] && m[6] == n[6];
    }
  }

  lemma StepTreeIdentity(a: Step, b: Step)
    requires Encodes(a.expected) && Encodes(b.expected) && TagFreeState(a.expected) && TagFreeState(b.expected)
    ensures StepTree(a) == StepTree(b) <==> SameStep(a, b)
  {
    RecordTextIsIdentity(a.expected.bindings, b.expected.bindings);
    SourceTreeIdentity(a.source, b.source);
    if StepTree(a) == StepTree(b) {
      var m, n := StepTree(a).members, StepTree(b).members;
      assert m[0] == n[0] && m[1] == n[1] && m[2] == n[2] && m[3] == n[3];
      IntTextInjective(a.index, b.index);
    }
  }

  lemma StepTreesIdentity(a: seq<Step>, b: seq<Step>)
    requires |a| == |b|
    requires forall i | 0 <= i < |a| :: Encodes(a[i].expected) && TagFreeState(a[i].expected)
    requires forall i | 0 <= i < |b| :: Encodes(b[i].expected) && TagFreeState(b[i].expected)
    ensures StepTrees(a) == StepTrees(b) <==> forall i | 0 <= i < |a| :: SameStep(a[i], b[i])
  {
    forall i | 0 <= i < |a|
      ensures StepTrees(a)[i] == StepTrees(b)[i] <==> SameStep(a[i], b[i])
    {
      StepTreeIdentity(a[i], b[i]);
    }
    if forall i | 0 <= i < |a| :: SameStep(a[i], b[i]) {
      assert StepTrees(a) == StepTrees(b);
    }
  }

  lemma TraceTreeIdentity(a: Trace, b: Trace)
    requires GoodTrace(a) && GoodTrace(b) && TagFreeTrace(a) && TagFreeTrace(b)
    ensures TraceTree(a) == TraceTree(b) <==> SameTrace(a, b)
  {
    EnvironmentTreeIdentity(a.environment, b.environment);
    RecordTextIsIdentity(a.initial.bindings, b.initial.bindings);
    assert |StepTrees(a.steps)| == |a.steps| && |StepTrees(b.steps)| == |b.steps|;
    if |a.steps| == |b.steps| {
      StepTreesIdentity(a.steps, b.steps);
    }
    if TraceTree(a) == TraceTree(b) {
      var m, n := TraceTree(a).members, TraceTree(b).members;
      assert m[0] == n[0] && m[1] == n[1] && m[2] == n[2] && m[3] == n[3];
      IntTextInjective(a.schemaVersion, b.schemaVersion);
    }
  }

  /** The trace text is an identity: two traces whose contents validate print alike exactly when they are the same
      trace, and an RFC 8259 parser recovers the whole tree from the text. */
  lemma TraceTextIsIdentity(hash: Hash, a: Trace, b: Trace)
    requires ValidateContents(hash, a) == {} && ValidateContents(hash, b) == {}
    requires TagFreeTrace(a) && TagFreeTrace(b)
    ensures TraceEncodable(a) && TraceEncodable(b)
    ensures TraceText(a) == TraceText(b) <==> SameTrace(a, b)
    ensures ParseValue(TraceText(a)) == Some((TraceTree(a), []))
  {
    Validated(hash, a);
    Validated(hash, b);
    TraceIsPrint(a);
    TraceIsPrint(b);
    TracePrintable(a);
    TracePrintable(b);
    EscapeJsonQuotes();
    TraceTreeIdentity(a, b);
    if TraceText(a) == TraceText(b) {
      PrintInjective(EscapeJson, TraceTree(a), TraceTree(b));
    }
    ParsePrintValue(EscapeJson, TraceTree(a), []);
    assert TraceText(a) + [] == TraceText(a);
  }
}
