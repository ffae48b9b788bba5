/** Which documents decode into a trace: of those `Itf.read` accepts, exactly the complete ones. */
module ItfAcceptance {
  import opened Text
  import opened Sorting
  import opened Json
  import opened Canonical
  import opened Decoder
  import opened Itf
  import opened ItfDocument
  import opened Reading
  import opened TraceAcceptance
  import T = Trace

  /** The object has these fields and no others. */
  predicate HasFields(members: seq<(Text, Json)>, fields: seq<Text>) {
    (forall m | m in members :: m.0 in fields) && forall f | f in fields :: f in Names(members)
  }

  /** The document's metadata: there, complete, and of a run that went well. */
  predicate CompleteRoot(members: seq<(Text, Json)>) {
    var meta := Property(members, META);
    && meta.Some? && meta.value.JObject?
    && HasFields(meta.value.members, [FORMAT, DESCRIPTION, SOURCE_FIELD, STATUS])
    && Property(meta.value.members, STATUS) == Some(JString(OK))
  }

  /** A state's metadata is its index alone, and every variable has a value the schema-v1 dialect carries. */
  predicate CompleteState(variables: seq<Text>, members: seq<(Text, Json)>) {
    var meta := Property(members, META);
    && meta.Some? && meta.value.JObject? && HasFields(meta.value.members, [INDEX_FIELD])
    && forall n | n in variables :: Property(members, n).Some? && Carried(Property(members, n).value)
  }

  /** The consumer's bindings: one for each transition, in order. */
  predicate CompleteContext(context: Context, states: nat) {
    && GoodEnvironment(context.environment) && |context.steps| + 1 == states
    && forall k | 0 <= k < |context.steps| :: GoodBinding(context.steps[k], k + 1)
  }

  predicate GoodBinding(b: StepBinding, index: int) {
    b.index == index && !Blank(b.action) && ValidUnicode(b.action) && GoodSource(b.source)
  }

  // ---------------------------------------------------------------- what the reader accepts and gives

  /** The state at the position binds exactly the variables, each to a tree the ITF dialect can carry, and its
      metadata, if there, has its index. */
  predicate ReadableState(q: Quote, variables: seq<Text>, i: nat, state: Json) {
    && state.JObject?
    && (forall m | m in state.members && m.0 != META :: m.0 in variables)
    && (forall n | n in variables :: n != META && Property(state.members, n).Some?
                                     && Legible(q, Property(state.members, n).value))
    && (var meta := Property(state.members, META);
        meta.Some? ==>
          && meta.value.JObject?
          && (var index := Property(meta.value.members, INDEX_FIELD); index.Some? && IsIndex(index.value, i)))
  }

  lemma NamedMember(members: seq<(Text, Json)>, variables: seq<Text>)
    ensures (forall n | n in Names(members) && n != META :: n in variables) <==>
      forall m | m in members && m.0 != META :: m.0 in variables
  {
    forall m | m in members
      ensures m.0 in Names(members)
    {
      NamesMember(members, m.0);
    }
    forall n | n in Names(members)
      ensures exists m | m in members :: m.0 == n
    {
      NamesMember(members, n);
    }
  }

  /** The variables' values, in the declared order. */
  predicate BoundAsDeclared(
      q: Quote, variables: seq<Text>, members: seq<(Text, Json)>, bindings: seq<(Text, ItfValue)>) {
    |bindings| == |variables| && forall k | 0 <= k < |variables| ::
      && bindings[k].0 == variables[k] && Property(members, variables[k]).Some?
      && ReadValue(q, Property(members, variables[k]).value) == Some(bindings[k].1)
  }

  lemma {:induction false} BindingsRead(q: Quote, variables: seq<Text>, state: Json)
    requires state.JObject? && forall n | n in variables :: n in Names(state.members)
    ensures ReadBindings(q, variables, state).Some? <==>
      forall n | n in variables :: Legible(q, Property(state.members, n).value)
    ensures ReadBindings(q, variables, state).Some? ==>
      BoundAsDeclared(q, variables, state.members, ReadBindings(q, variables, state).value)
  {
    if |variables| > 0 {
      var before, last := variables[..|variables| - 1], variables[|variables| - 1];
      assert variables == before + [last];
      assert forall n | n in before :: n in variables;
      assert last in variables;
      BindingsRead(q, before, state);
      LegibleExactly(q, Property(state.members, last).value);
    }
  }

  lemma StateRead(q: Quote, variables: seq<Text>, i: nat, state: Json)
    ensures ReadState(q, variables, i, state).Some? <==> ReadableState(q, variables, i, state)
    ensures ReadState(q, variables, i, state).Some? ==>
      BoundAsDeclared(q, variables, state.members, ReadState(q, variables, i, state).value)
  {
    if state.JObject? {
      NamedMember(state.members, variables);
      if Binds(variables, state) {
        BindingsRead(q, variables, state);
      }
    }
  }

  predicate ReadableAt(q: Quote, variables: seq<Text>, states: seq<Json>, i: nat)
    requires i < |states|
  {
    ReadableState(q, variables, i, states[i])
  }

  predicate AllReadable(q: Quote, variables: seq<Text>, states: seq<Json>) {
    forall i | 0 <= i < |states| :: ReadableAt(q, variables, states, i)
  }

  predicate DeclaredAt(
      q: Quote, variables: seq<Text>, states: seq<Json>, read: seq<seq<(Text, ItfValue)>>, i: nat)
    requires i < |states| == |read|
  {
    states[i].JObject? && BoundAsDeclared(q, variables, states[i].members, read[i])
  }

  /** Each state read as declared. */
  predicate StatesAsDeclared(
      q: Quote, variables: seq<Text>, states: seq<Json>, read: seq<seq<(Text, ItfValue)>>) {
    |read| == |states| && forall i | 0 <= i < |states| :: DeclaredAt(q, variables, states, read, i)
  }

  lemma ReadableStep(q: Quote, variables: seq<Text>, states: seq<Json>)
    requires |states| > 0
    ensures
      var last := |states| - 1;
      AllReadable(q, variables, states) <==>
      AllReadable(q, variables, states[..last]) && ReadableAt(q, variables, states, last)
  {
    var last := |states| - 1;
    forall i | 0 <= i < last
      ensures ReadableAt(q, variables, states[..last], i) <==> ReadableAt(q, variables, states, i)
    {
      assert states[..last][i] == states[i];
    }
  }

  lemma DeclaredStep(
      q: Quote, variables: seq<Text>, states: seq<Json>, read: seq<seq<(Text, ItfValue)>>, one: seq<(Text, ItfValue)>)
    requires |states| > 0 && StatesAsDeclared(q, variables, states[..|states| - 1], read)
    requires states[|states| - 1].JObject?
    requires BoundAsDeclared(q, variables, states[|states| - 1].members, one)
    ensures StatesAsDeclared(q, variables, states, read + [one])
  {
    var last := |states| - 1;
    forall i | 0 <= i < |states|
      ensures DeclaredAt(q, variables, states, read + [one], i)
    {
      if i < last {
        assert DeclaredAt(q, variables, states[..last], read, i) && states[..last][i] == states[i];
      }
    }
  }

  lemma {:induction false} StatesRead(q: Quote, variables: seq<Text>, states: seq<Json>)
    ensures ReadStates(q, variables, states).Some? <==> AllReadable(q, variables, states)
    ensures ReadStates(q, variables, states).Some? ==>
      StatesAsDeclared(q, variables, states, ReadStates(q, variables, states).value)
  {
    if |states| > 0 {
      var last := |states| - 1;
      StatesRead(q, variables, states[..last]);
      StateRead(q, variables, last, states[last]);
      ReadableStep(q, variables, states);
      if ReadStates(q, variables, states).Some? {
        DeclaredStep(q, variables, states, ReadStates(q, variables, states[..last]).value,
                     ReadState(q, variables, last, states[last]).value);
      }
    }
  }

  /** A name for a variable: well-formed, neither blank nor a tag. */
  predicate VariableName(j: Json) {
    j.JString? && ValidUnicode(j.text) && !Blank(j.text) && !Hashed(j.text)
  }

  /** The root: no other fields than the three, ITF metadata if any, some distinct variables, and some states, not too
      many. */
  predicate ReadableRoot(limits: Limits, members: seq<(Text, Json)>) {
    && (forall m | m in members :: m.0 in [META, VARS, STATES_FIELD])
    && (var meta := Property(members, META);
        meta.Some? ==> meta.value.JObject? && Property(meta.value.members, FORMAT) == Some(JString(ITF)))
    && (var vars := Property(members, VARS);
        && vars.Some? && vars.value.JArray? && |vars.value.items| > 0
        && (forall v | v in vars.value.items :: VariableName(v))
        && forall i, k | 0 <= i < k < |vars.value.items| :: vars.value.items[i] != vars.value.items[k])
    && (var states := Property(members, STATES_FIELD);
        states.Some? && states.value.JArray? && 1 <= |states.value.items| <= limits.maxStates)
  }

  lemma VariablesRead(items: seq<Json>)
    ensures AreVariables(items) <==>
      && |items| > 0 && (forall v | v in items :: VariableName(v))
      && forall i, k | 0 <= i < k < |items| :: items[i] != items[k]
  {
    if forall i | 0 <= i < |items| :: IsVariable(items[i]) {
      var names := VariableNames(items);
      forall i, k | 0 <= i < k < |items|
        ensures names[i] != names[k] <==> items[i] != items[k]
      {
        assert items[i] == JString(names[i]) && items[k] == JString(names[k]);
      }
      forall v | v in items
        ensures VariableName(v)
      {
        var i :| 0 <= i < |items| && items[i] == v;
        assert IsVariable(items[i]);
      }
    } else {
      var i :| 0 <= i < |items| && !IsVariable(items[i]);
      assert items[i] in items && !VariableName(items[i]);
    }
  }

  lemma RootRead(limits: Limits, j: Json)
    ensures GoodRoot(limits, j) <==> j.JObject? && ReadableRoot(limits, j.members)
  {
    if j.JObject? {
      var vars := Property(j.members, VARS);
      if vars.Some? && vars.value.JArray? {
        VariablesRead(vars.value.items);
      }
    }
  }

  /** `Itf.read` accepts exactly the documents whose collections and names are in order, whose root is, and whose
      states bind exactly the variables to trees the dialect can carry; and it gives those variables and, state by
      state, their values in the declared order. */
  lemma ReadsExactly(q: Quote, limits: Limits, j: Json)
    ensures ReadDocument(q, limits, j).Some? <==>
      && Checked(limits.maxCollection, j) && j.JObject? && ReadableRoot(limits, j.members)
      && AllReadable(q, VariablesIn(j), StatesIn(j))
    ensures ReadDocument(q, limits, j).Some? ==>
      var document := ReadDocument(q, limits, j).value;
      document.variables == VariablesIn(j)
      && StatesAsDeclared(q, VariablesIn(j), StatesIn(j), document.states)
  {
    RootRead(limits, j);
    if GoodRoot(limits, j) {
      SameVariables(limits, j);
      StatesRead(q, Variables(j), States(j));
    }
  }

  /** The variables and states a document lists, if it does. */
  function VariablesIn(j: Json): (r: seq<Text>) {
    var vars := if j.JObject? then Property(j.members, VARS) else None;
    if vars.None? || !vars.value.JArray? then []
    else
      var items := vars.value.items;
      seq(|items|, i requires 0 <= i < |items| => if items[i].JString? then items[i].text else [])
  }

  function StatesIn(j: Json): seq<Json> {
    var states := if j.JObject? then Property(j.members, STATES_FIELD) else None;
    if states.None? || !states.value.JArray? then [] else states.value.items
  }

  lemma SameVariables(limits: Limits, j: Json)
    requires GoodRoot(limits, j)
    ensures VariablesIn(j) == Variables(j) && StatesIn(j) == States(j)
  {
    var items := Property(j.members, VARS).value.items;
    assert forall i | 0 <= i < |items| :: IsVariable(items[i]);
  }

  // ---------------------------------------------------------------- the findings

  lemma FieldsFound(fields: seq<Text>, members: seq<(Text, Json)>)
    ensures CheckFields(fields, members) == {} <==> HasFields(members, fields)
  {
    var a := Found(exists m | m in members :: m.0 !in fields, UnsupportedField);
    var b := Found(exists f | f in fields :: f !in Names(members), Required);
    assert a <= a + b && b <= a + b;
  }

  lemma RootFound(limits: Limits, j: Json)
    requires GoodRoot(limits, j)
    ensures RootFindings(j.members) == {} <==> CompleteRoot(j.members)
  {
    var members := j.members;
    FieldsFound([META, VARS, STATES_FIELD], members);
    var meta := Property(members, META);
    if meta.Some? {
      FieldsFound([FORMAT, DESCRIPTION, SOURCE_FIELD, STATUS], meta.value.members);
    }
  }

  /** An accepted state's own findings and refusals. */
  lemma StateFound(variables: seq<Text>, i: nat, state: Json)
    requires state.JObject? && Binds(variables, state) && IndexedAs(state, i)
    ensures
      StateFindings(variables, i, state.members) + Found(SomeRefused(variables, state.members), ValueRefused) == {} <==>
      CompleteState(variables, state.members)
  {
    var members := state.members;
    FieldsFound(variables + [META], members);
    BoundFields(variables, state);
    var meta := Property(members, META);
    if meta.Some? {
      FieldsFound([INDEX_FIELD], meta.value.members);
    }
    RefusedFound(variables, members);
  }

  lemma BoundFields(variables: seq<Text>, state: Json)
    requires state.JObject? && Binds(variables, state)
    ensures HasFields(state.members, variables + [META]) <==> Property(state.members, META).Some?
    ensures forall n | n in variables :: Property(state.members, n).Some?
  {
    forall m | m in state.members
      ensures m.0 in Names(state.members)
    {
      NamesMember(state.members, m.0);
    }
  }

  lemma RefusedFound(variables: seq<Text>, members: seq<(Text, Json)>)
    requires forall n | n in variables :: Property(members, n).Some?
    ensures SomeRefused(variables, members) <==>
      !forall n | n in variables :: Carried(Property(members, n).value)
  {
    forall n | n in variables
      ensures DecodeValue(Property(members, n).value).Some? <==> Carried(Property(members, n).value)
    {
      CarriedExactly(Property(members, n).value);
    }
  }

  /** What `Itf.read` has seen to of a state. */
  predicate FitsAt(variables: seq<Text>, states: seq<Json>, i: nat)
    requires i < |states|
  {
    states[i].JObject? && Binds(variables, states[i]) && IndexedAs(states[i], i)
  }

  predicate AllFit(variables: seq<Text>, states: seq<Json>) {
    forall i | 0 <= i < |states| :: FitsAt(variables, states, i)
  }

  predicate CompleteAt(variables: seq<Text>, states: seq<Json>, i: nat)
    requires i < |states|
  {
    CompleteState(variables, MembersOf(states[i]))
  }

  predicate AllComplete(variables: seq<Text>, states: seq<Json>) {
    forall i | 0 <= i < |states| :: CompleteAt(variables, states, i)
  }

  lemma AllStep(variables: seq<Text>, states: seq<Json>)
    requires |states| > 0 && AllFit(variables, states)
    ensures
      var last := |states| - 1;
      && AllFit(variables, states[..last]) && FitsAt(variables, states, last)
      && (AllComplete(variables, states) <==>
            AllComplete(variables, states[..last]) && CompleteAt(variables, states, last))
  {
    var last := |states| - 1;
    forall i | 0 <= i < last
      ensures FitsAt(variables, states[..last], i)
      ensures CompleteAt(variables, states[..last], i) <==> CompleteAt(variables, states, i)
    {
      assert FitsAt(variables, states, i) && states[..last][i] == states[i];
    }
  }

  /** Nothing is found in the states exactly when each is complete. */
  lemma {:induction false} StatesFound(hash: T.Hash, variables: seq<Text>, states: seq<Json>)
    requires DecodeStates(hash, variables, states).Some? && AllFit(variables, states)
    ensures DecodeStates(hash, variables, states).value.1 == {} <==> AllComplete(variables, states)
  {
    if |states| > 0 {
      var last := |states| - 1;
      LastFound(hash, variables, states);
      AllStep(variables, states);
      StatesFound(hash, variables, states[..last]);
      StateFound(variables, last, states[last]);
    }
  }

  lemma LastFound(hash: T.Hash, variables: seq<Text>, states: seq<Json>)
    requires |states| > 0 && DecodeStates(hash, variables, states).Some?
    ensures
      var last := |states| - 1;
      var before, members := DecodeStates(hash, variables, states[..last]), MembersOf(states[last]);
      before.Some? &&
      (DecodeStates(hash, variables, states).value.1 == {} <==>
       before.value.1 == {} &&
       StateFindings(variables, last, members) + Found(SomeRefused(variables, members), ValueRefused) == {})
  {
    var last := |states| - 1;
    var members := MembersOf(states[last]);
    var before := DecodeStates(hash, variables, states[..last]).value.1;
    var a, b := StateFindings(variables, last, members), Found(SomeRefused(variables, members), ValueRefused);
    assert before + a + b == before + (a + b);
    assert before <= before + (a + b) && a + b <= before + (a + b);
  }

  // ---------------------------------------------------------------- the trace

  lemma {:induction false} DecodedIdentity(hash: T.Hash, variables: seq<Text>, states: seq<Json>, i: nat)
    requires DecodeStates(hash, variables, states).Some? && i < |states|
    ensures
      var s := DecodeStates(hash, variables, states).value.0[i];
      T.Encodable(s.bindings) && s.identity == hash(T.StateText(s.bindings))
  {
    if i < |states| - 1 {
      DecodedIdentity(hash, variables, states[..|states| - 1], i);
    }
  }

  /** A state bound to declared variables that encodes, with the digest of its text, is a good one. */
  lemma BoundIsGood(hash: T.Hash, variables: seq<Text>, s: T.State)
    requires Distinct(variables) && forall n | n in variables :: GoodName(n)
    requires Names(s.bindings) == variables && T.Encodable(s.bindings) && s.identity == hash(T.StateText(s.bindings))
    ensures GoodState(hash, s)
  {
    forall b | b in s.bindings
      ensures GoodName(b.0)
    {
      NamesMember(s.bindings, b.0);
    }
    T.ContentValid(s);
  }

  lemma VariablesGood(items: seq<Json>)
    requires AreVariables(items)
    ensures Distinct(VariableNames(items)) && forall n | n in VariableNames(items) :: GoodName(n)
  {
    forall n | n in VariableNames(items)
      ensures GoodName(n)
    {
      var i :| 0 <= i < |items| && VariableNames(items)[i] == n;
      assert IsVariable(items[i]);
    }
  }

  lemma CompleteIsGood(hash: T.Hash, q: Quote, limits: Limits, j: Json, i: nat, s: T.State)
    requires Accepts(q, limits, j) && i < |States(j)| && CompleteAt(Variables(j), States(j), i)
    requires s.bindings == DecodeBindings(Variables(j), MembersOf(States(j)[i]))
    requires T.Encodable(s.bindings) && s.identity == hash(T.StateText(s.bindings))
    ensures GoodState(hash, s)
  {
    CompleteBinds(Variables(j), MembersOf(States(j)[i]));
    AcceptedVariables(q, limits, j);
    BoundIsGood(hash, Variables(j), s);
  }

  lemma CompleteBinds(variables: seq<Text>, members: seq<(Text, Json)>)
    requires CompleteState(variables, members)
    ensures Names(DecodeBindings(variables, members)) == variables
  {
    RefusedFound(variables, members);
    AllBound(variables, members);
  }

  lemma AcceptedVariables(q: Quote, limits: Limits, j: Json)
    requires Accepts(q, limits, j)
    ensures Distinct(Variables(j)) && forall n | n in Variables(j) :: GoodName(n)
  {
    VariablesGood(Property(j.members, VARS).value.items);
  }

  lemma AcceptedStateGood(hash: T.Hash, q: Quote, limits: Limits, j: Json, i: nat)
    requires Accepts(q, limits, j) && i < |States(j)| && DecodeStates(hash, Variables(j), States(j)).Some?
    requires CompleteAt(Variables(j), States(j), i)
    ensures GoodState(hash, DecodeStates(hash, Variables(j), States(j)).value.0[i])
  {
    DecodedIdentity(hash, Variables(j), States(j), i);
    StatesDecoded(hash, Variables(j), States(j), i);
    CompleteIsGood(hash, q, limits, j, i, DecodeStates(hash, Variables(j), States(j)).value.0[i]);
  }

  predicate AllGood(hash: T.Hash, states: seq<T.State>) {
    forall i | 0 <= i < |states| :: GoodAt(hash, states, i)
  }

  predicate GoodAt(hash: T.Hash, states: seq<T.State>, i: nat)
    requires i < |states|
  {
    GoodState(hash, states[i])
  }

  lemma AssembledGood(hash: T.Hash, context: Context, states: seq<T.State>, identity: Text)
    requires |states| > 0 && |context.steps| == |states| - 1 && AllGood(hash, states)
    ensures
      GoodContents(hash, Draft(context, states).(identity := identity)) <==> CompleteContext(context, |states|)
  {
    var steps := Draft(context, states).steps;
    assert GoodAt(hash, states, 0);
    forall k | 0 <= k < |steps|
      ensures GoodStep(hash, steps[k], k + 1) <==> GoodBinding(context.steps[k], k + 1)
    {
      assert GoodAt(hash, states, k + 1);
      assert states[1..][k] == states[k + 1];
    }
  }

  lemma DraftEncodes(context: Context, states: seq<T.State>)
    requires |states| > 0 && AllEncodable(states) && |context.steps| == |states| - 1
    ensures T.TraceEncodable(Draft(context, states))
  {
    var steps := Draft(context, states).steps;
    forall k | 0 <= k < |steps|
      ensures T.Encodable(steps[k].expected.bindings)
    {
      assert states[1..][k] == states[k + 1];
    }
  }

  /** The assembled trace is valid exactly when the consumer's environment and bindings are in order. */
  lemma AssembledValid(hash: T.Hash, context: Context, states: seq<T.State>)
    requires T.Digests(hash) && |states| > 0 && AllEncodable(states) && |context.steps| == |states| - 1
    requires AllGood(hash, states)
    ensures
      var draft := Draft(context, states);
      T.TraceEncodable(draft) &&
      (T.ValidateTrace(hash, draft.(identity := hash(T.TraceText(draft)))) == {} <==>
       CompleteContext(context, |states|))
  {
    DraftEncodes(context, states);
    var draft := Draft(context, states);
    var identity := hash(T.TraceText(draft));
    AssembledGood(hash, context, states, identity);
    SignedValid(hash, draft);
  }

  /** A trace signed with the digest of its text is valid exactly when its contents are in order. */
  lemma SignedValid(hash: T.Hash, draft: T.Trace)
    requires T.Digests(hash) && T.TraceEncodable(draft)
    ensures
      var trace := draft.(identity := hash(T.TraceText(draft)));
      T.ValidateTrace(hash, trace) == {} <==> GoodContents(hash, trace)
  {
    var trace := draft.(identity := hash(T.TraceText(draft)));
    assert T.TraceText(trace) == T.TraceText(draft);
    TraceAccepted(hash, trace);
  }

  lemma FinishExactly(hash: T.Hash, context: Context, states: seq<T.State>, findings: Findings)
    requires |states| > 0 && AllEncodable(states)
    ensures
      var draft := Draft(context, states);
      Finish(hash, context, states, findings).Decoded? <==>
      && findings == {} && |context.steps| == |states| - 1
      && T.ValidateTrace(hash, draft.(identity := hash(T.TraceText(draft)))) == {}
  {
    if Finish(hash, context, states, findings).Decoded? {
      FinishClean(hash, context, states, findings);
    }
  }

  // ---------------------------------------------------------------- the document

  /** The document is complete: its metadata, its states and the consumer's bindings, and no record has a blank name. */
  predicate Complete(context: Context, j: Json, variables: seq<Text>, states: seq<Json>)
    requires j.JObject?
  {
    && CompleteRoot(j.members) && CompleteContext(context, |states|) && AllComplete(variables, states)
    && (forall s | s in states :: !HasBlank(variables, s))
  }

  /** Of the documents `Itf.read` accepts, exactly the complete ones decode into a trace. */
  lemma DecodesExactly(hash: T.Hash, context: Context, q: Quote, limits: Limits, j: Json)
    requires Accepts(q, limits, j) && T.Digests(hash)
    ensures DecodeSpec(hash, context, q, limits, j).Decoded? <==> Complete(context, j, Variables(j), States(j))
  {
    RaisesExactly(hash, context, q, limits, j);
    if DecodeSpec(hash, context, q, limits, j) == Raised {
      RaisedIncomplete(j, Variables(j), States(j));
    } else {
      FinishDecides(hash, context, q, limits, j);
    }
  }

  /** An unreadable status is not the one a complete document has. */
  lemma RaisedIncomplete(j: Json, variables: seq<Text>, states: seq<Json>)
    requires j.JObject?
    requires StatusUnreadable(j.members) || exists s | s in states :: HasBlank(variables, s)
    ensures !(CompleteRoot(j.members) && forall s | s in states :: !HasBlank(variables, s))
  {
    AsciiValid(OK);
  }

  lemma AcceptedFit(q: Quote, limits: Limits, j: Json)
    requires Accepts(q, limits, j)
    ensures AllFit(Variables(j), States(j))
  {
    forall i | 0 <= i < |States(j)|
      ensures FitsAt(Variables(j), States(j), i)
    {
      AcceptedState(q, limits, j, i);
    }
  }

  lemma FinishDecides(hash: T.Hash, context: Context, q: Quote, limits: Limits, j: Json)
    requires Accepts(q, limits, j) && T.Digests(hash) && DecodeSpec(hash, context, q, limits, j) != Raised
    ensures DecodeSpec(hash, context, q, limits, j).Decoded? <==>
      CompleteRoot(j.members) && AllComplete(Variables(j), States(j)) && CompleteContext(context, |States(j)|)
  {
    var decoded := DecodeStates(hash, Variables(j), States(j)).value;
    var findings := RootFindings(j.members) + decoded.1;
    AcceptedShape(q, limits, j);
    AcceptedFit(q, limits, j);
    RootFound(limits, j);
    StatesFound(hash, Variables(j), States(j));
    FinishExactly(hash, context, decoded.0, findings);
    assert RootFindings(j.members) <= findings && decoded.1 <= findings;
    if decoded.1 == {} && |context.steps| == |States(j)| - 1 {
      StatesGood(hash, q, limits, j);
      AssembledValid(hash, context, decoded.0);
    }
  }

  lemma StatesGood(hash: T.Hash, q: Quote, limits: Limits, j: Json)
    requires Accepts(q, limits, j) && DecodeStates(hash, Variables(j), States(j)).Some?
    requires AllComplete(Variables(j), States(j))
    ensures AllGood(hash, DecodeStates(hash, Variables(j), States(j)).value.0)
  {
    forall i | 0 <= i < |States(j)|
      ensures GoodAt(hash, DecodeStates(hash, Variables(j), States(j)).value.0, i)
    {
      assert CompleteAt(Variables(j), States(j), i);
      AcceptedStateGood(hash, q, limits, j, i);
    }
  }
}
