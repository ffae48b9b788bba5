/** Which traces validation accepts, and what each finding says. */
module TraceAcceptance {
  import opened Text
  import opened Sorting
  import opened Canonical
  import opened Trace

  predicate GoodSource(s: Source) {
    !Blank(s.path) && ValidUnicode(s.path) && s.line >= 1 && s.column >= 1
  }

  predicate GoodBounds(bounds: seq<(Text, int)>) {
    Distinct(Names(bounds)) && forall b | b in bounds :: !Blank(b.0) && ValidUnicode(b.0) && b.1 >= 0
  }

  predicate GoodEnvironment(e: Environment) {
    && !Blank(e.seed) && ValidUnicode(e.seed) && GoodBounds(e.bounds)
    && IsLowerSha256(e.tool) && IsLowerSha256(e.profile) && IsLowerSha256(e.contract) && IsLowerSha256(e.adapter)
    && IsLowerSha256(e.implementation)
  }

  /** The state encodes as a record, and its identity is the digest of that text. */
  predicate GoodState(hash: Hash, s: State) {
    Encode(Record(s.bindings)).Some? && s.identity == hash(Encode(Record(s.bindings)).value)
  }

  predicate GoodStep(hash: Hash, step: Step, index: int) {
    && step.index == index && !Blank(step.action) && ValidUnicode(step.action) && GoodSource(step.source)
    && GoodState(hash, step.expected)
  }

  predicate GoodContents(hash: Hash, t: Trace) {
    && t.schemaVersion == 1 && GoodEnvironment(t.environment) && GoodState(hash, t.initial)
    && forall i | 0 <= i < |t.steps| :: GoodStep(hash, t.steps[i], i + 1)
  }

  // ---------------------------------------------------------------- acceptance

  lemma SourceAccepted(s: Source)
    ensures ValidateSource(s) == {} <==> GoodSource(s)
  {
  }

  lemma BoundsAccepted(bounds: seq<(Text, int)>)
    ensures ValidateBounds(bounds) == {} <==> GoodBounds(bounds)
  {
    GoodNames(bounds);
  }

  lemma EnvironmentAccepted(e: Environment)
    ensures ValidateEnvironment(e) == {} <==> GoodEnvironment(e)
  {
    BoundsAccepted(e.bounds);
  }

  lemma StepAccepted(hash: Hash, step: Step, i: nat)
    requires Digests(hash)
    ensures ValidateStep(hash, i, step) == {} <==> GoodStep(hash, step, i + 1)
  {
    SourceAccepted(step.source);
    ValidStateSpec(hash, step.expected);
  }

  lemma ContentsAccepted(hash: Hash, t: Trace)
    requires Digests(hash)
    ensures ValidateContents(hash, t) == {} <==> GoodContents(hash, t)
  {
    EnvironmentAccepted(t.environment);
    ValidStateSpec(hash, t.initial);
    StepsValid(hash, t.steps);
    forall i | 0 <= i < |t.steps|
      ensures ValidateStep(hash, i, t.steps[i]) == {} <==> GoodStep(hash, t.steps[i], i + 1)
    {
      StepAccepted(hash, t.steps[i], i);
    }
  }

  /** A trace is accepted exactly when it is of version 1, its environment, states and steps are in order, and its
      identity is the digest of its text. */
  lemma TraceAccepted(hash: Hash, t: Trace)
    requires Digests(hash)
    ensures ValidateTrace(hash, t) == {} <==>
      GoodContents(hash, t) && TraceEncodable(t) && t.identity == hash(TraceText(t))
  {
    ContentsAccepted(hash, t);
    ZerosIsDigest();
    PlaceholderStructural(hash, t, ZEROS);
    if Structural(hash, t) == {} {
      StructuralEncodes(hash, t);
    }
  }

  // ---------------------------------------------------------------- what each finding says

  /** The name of some pair is blank, or is not well-formed. */
  predicate SomeBlankName<T(==)>(pairs: seq<(Text, T)>) {
    exists p | p in pairs :: Blank(p.0)
  }

  predicate SomeMalformedName<T(==)>(pairs: seq<(Text, T)>) {
    exists p | p in pairs :: !ValidUnicode(p.0)
  }

  lemma NamesFound<T>(pairs: seq<(Text, T)>)
    ensures AnyBlank(Names(pairs)) <==> SomeBlankName(pairs)
    ensures AnyMalformed(Names(pairs)) <==> SomeMalformedName(pairs)
  {
    forall p | p in pairs
      ensures p.0 in Names(pairs)
    {
      NamesMember(pairs, p.0);
    }
    forall n | n in Names(pairs)
      ensures exists p | p in pairs :: p.0 == n
    {
      NamesMember(pairs, n);
    }
  }

  lemma UnencodableFound(bindings: seq<(Text, Value)>)
    ensures Encodable(bindings) <==> forall b | b in bindings :: Encode(b.1).Some?
  {
    if Encodable(bindings) {
      forall b | b in bindings
        ensures Encode(b.1).Some?
      {
        var i :| 0 <= i < |bindings| && bindings[i] == b;
        assert EncodeField(bindings[i]).Some?;
      }
    } else {
      var i :| 0 <= i < |bindings| && EncodeField(bindings[i]).None?;
      assert bindings[i] in bindings && Encode(bindings[i].1).None?;
    }
  }

  /** What is wrong with a source, an environment, a state and a step when a code is found. */
  predicate SourceFault(s: Source, c: Code) {
    match c
    case SourcePath => Blank(s.path)
    case StringUnicode => !ValidUnicode(s.path)
    case SourceLine => s.line < 1
    case SourceColumn => s.column < 1
    case _ => false
  }

  predicate BoundsFault(bounds: seq<(Text, int)>, c: Code) {
    || (SomeBlankName(bounds) && c == BoundName) || (SomeMalformedName(bounds) && c == StringUnicode)
    || (!Distinct(Names(bounds)) && c == BoundDuplicate)
    || ((exists b | b in bounds :: b.1 < 0) && c == BoundValue)
  }

  predicate EnvironmentFault(e: Environment, c: Code) {
    match c
    case Seed => Blank(e.seed)
    case StringUnicode => !ValidUnicode(e.seed) || BoundsFault(e.bounds, c)
    case EnvFingerprint =>
      !(IsLowerSha256(e.tool) && IsLowerSha256(e.profile) && IsLowerSha256(e.contract)
        && IsLowerSha256(e.adapter) && IsLowerSha256(e.implementation))
    case _ => BoundsFault(e.bounds, c)
  }

  predicate ContentFault(s: State, c: Code) {
    || (SomeBlankName(s.bindings) && c == StateBinding) || (SomeMalformedName(s.bindings) && c == StringUnicode)
    || (!Distinct(Names(s.bindings)) && c == StateBindingDuplicate)
    || ((exists b | b in s.bindings :: Encode(b.1).None?) && c == StateValue)
  }

  predicate StateFault(hash: Hash, s: State, c: Code) {
    match c
    case StateIdentity => !IsLowerSha256(s.identity)
    case StateFingerprint =>
      IsLowerSha256(s.identity) && Encode(Record(s.bindings)).Some?
      && s.identity != hash(Encode(Record(s.bindings)).value)
    case _ => ContentFault(s, c)
  }

  predicate StepFault(hash: Hash, step: Step, index: int, c: Code) {
    match c
    case StepOrder => step.index != index
    case StepAction => Blank(step.action)
    case StringUnicode =>
      !ValidUnicode(step.action) || SourceFault(step.source, c) || StateFault(hash, step.expected, c)
    case _ => SourceFault(step.source, c) || StateFault(hash, step.expected, c)
  }

  lemma SourceFound(s: Source, c: Code)
    ensures c in ValidateSource(s) <==> SourceFault(s, c)
  {
  }

  lemma NameCodeFound(
      blank: bool, name: Code, unicode: bool, duplicate: bool, twice: Code, refused: bool, other: Code, c: Code)
    requires NotTraceLevel({name, twice, other})
    ensures c in NameCodes(blank, name, unicode, duplicate, twice, refused, other) <==>
      || (blank && c == name) || (unicode && c == StringUnicode) || (duplicate && c == twice)
      || (refused && c == other)
  {
  }

  lemma BoundsFound(bounds: seq<(Text, int)>, c: Code)
    ensures c in ValidateBounds(bounds) <==> BoundsFault(bounds, c)
  {
    NamesFound(bounds);
    NameCodeFound(SomeBlankName(bounds), BoundName, SomeMalformedName(bounds), !Distinct(Names(bounds)), BoundDuplicate,
                  exists b | b in bounds :: b.1 < 0, BoundValue, c);
  }

  lemma EnvironmentFound(e: Environment, c: Code)
    ensures c in ValidateEnvironment(e) <==> EnvironmentFault(e, c)
  {
    BoundsFound(e.bounds, c);
  }

  lemma ContentFound(s: State, c: Code)
    ensures c in ValidateStateContent(s) <==> ContentFault(s, c)
  {
    NamesFound(s.bindings);
    UnencodableFound(s.bindings);
    NameCodeFound(SomeBlankName(s.bindings), StateBinding, SomeMalformedName(s.bindings),
                  !Distinct(Names(s.bindings)), StateBindingDuplicate, !Encodable(s.bindings), StateValue, c);
  }

  lemma StateFound(hash: Hash, s: State, c: Code)
    ensures c in ValidateState(hash, s) <==> StateFault(hash, s, c)
  {
    ContentFound(s, c);
    ContentValid(s);
  }

  lemma IdentityFound(step: Step, i: nat, c: Code)
    ensures c in ValidateIdentity(step, i) <==>
      || (c == StepOrder && step.index != i + 1) || (c == StepAction && Blank(step.action))
      || (c == StringUnicode && !ValidUnicode(step.action))
  {
  }

  lemma StepFound(hash: Hash, step: Step, i: nat, c: Code)
    ensures c in ValidateStep(hash, i, step) <==> StepFault(hash, step, i + 1, c)
  {
    IdentityFound(step, i, c);
    SourceFound(step.source, c);
    StateFound(hash, step.expected, c);
  }

  /** What is wrong with a trace, apart from its own digest. */
  predicate ContentsFault(hash: Hash, t: Trace, c: Code) {
    || (c == SchemaVersion && t.schemaVersion != 1) || (c == TraceIdentity && !IsLowerSha256(t.identity))
    || EnvironmentFault(t.environment, c) || StateFault(hash, t.initial, c)
    || exists i | 0 <= i < |t.steps| :: StepFault(hash, t.steps[i], i + 1, c)
  }

  lemma StepsFound(hash: Hash, steps: seq<Step>, c: Code)
    ensures c in ValidateSteps(hash, steps) <==> exists i | 0 <= i < |steps| :: StepFault(hash, steps[i], i + 1, c)
  {
    forall i | 0 <= i < |steps|
      ensures c in ValidateStep(hash, i, steps[i]) <==> StepFault(hash, steps[i], i + 1, c)
    {
      StepFound(hash, steps[i], i, c);
    }
  }

  lemma StructuralFound(hash: Hash, t: Trace, c: Code)
    ensures c in Structural(hash, t) <==> ContentsFault(hash, t, c)
  {
    EnvironmentFound(t.environment, c);
    StateFound(hash, t.initial, c);
    StepsFound(hash, t.steps, c);
  }

  /** Each finding, and when it is reported: whatever is wrong with the contents is; and the trace's own digest is
      looked at only when nothing else is wrong, and is then the one finding. */
  lemma FindingsExactly(hash: Hash, t: Trace, c: Code)
    requires Digests(hash)
    ensures c != TraceFingerprint ==> (c in ValidateTrace(hash, t) <==> ContentsFault(hash, t, c))
    ensures TraceFingerprint in ValidateTrace(hash, t) ==> ValidateTrace(hash, t) == {TraceFingerprint}
    ensures TraceFingerprint in ValidateTrace(hash, t) <==>
      IsLowerSha256(t.identity) && GoodContents(hash, t) && TraceEncodable(t) && t.identity != hash(TraceText(t))
  {
    StructuralFound(hash, t, c);
    DigestLooked(hash, t);
  }

  lemma DigestLooked(hash: Hash, t: Trace)
    requires Digests(hash)
    ensures Structural(hash, t) == {} <==> IsLowerSha256(t.identity) && GoodContents(hash, t)
    ensures Structural(hash, t) == {} ==>
      TraceEncodable(t) && ValidateTrace(hash, t) == When(t.identity != hash(TraceText(t)), TraceFingerprint)
    ensures Structural(hash, t) != {} ==> ValidateTrace(hash, t) == Structural(hash, t)
  {
    ZerosIsDigest();
    PlaceholderStructural(hash, t, ZEROS);
    ContentsAccepted(hash, t);
    if Structural(hash, t) == {} {
      StructuralEncodes(hash, t);
    }
  }
}
