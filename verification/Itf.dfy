/** The raw ITF codec: `Itf.canonical` and the value part of `Itf.read` (Apalache ADR 015). Quoting is the runtime
    library's; all that is used of it is that it prints JSON strings. */
module Itf {
  import opened Text
  import opened Sorting
  import opened Json
  import opened Canonical
  import opened Decoder

  datatype ItfValue =
    | INull
    | IBoolean(value: bool)
    | IInteger(number: int)
    | IText(text: Text)
    | ISequence(items: seq<ItfValue>)
    | ITuple(items: seq<ItfValue>)
    | ISet(items: seq<ItfValue>)
    | IMap(pairs: seq<(ItfValue, ItfValue)>)
    | IRecord(fields: seq<(Text, ItfValue)>)

  const HASH_TUP: Text := [0x23, 0x74, 0x75, 0x70]
  const HASH_MAP: Text := [0x23, 0x6d, 0x61, 0x70]

  // ---------------------------------------------------------------- canonical

  function Bracket(texts: seq<Text>): Text {
    [0x5b] + Join(texts) + [0x5d]
  }

  function TaggedText(q: Quote, tag: Text, texts: seq<Text>): Text {
    [0x7b] + q(tag) + [0x3a] + Bracket(texts) + [0x7d]
  }

  function RawCanonical(q: Quote, v: ItfValue): Text
    decreases v, 0
  {
    match v
    case INull => [0x6e, 0x75, 0x6c, 0x6c]
    case IBoolean(b) => if b then [0x74, 0x72, 0x75, 0x65] else [0x66, 0x61, 0x6c, 0x73, 0x65]
    case IInteger(n) => [0x7b] + q(HASH_BIGINT) + [0x3a] + q(IntText(n)) + [0x7d]
    case IText(t) => q(t)
    case ISequence(items) => Bracket(RawAll(q, items))
    case ITuple(items) => TaggedText(q, HASH_TUP, RawAll(q, items))
    case ISet(items) => TaggedText(q, HASH_SET, SortTexts(RawAll(q, items)))
    case IMap(pairs) => TaggedText(q, HASH_MAP, SortTexts(RawPairs(q, pairs)))
    case IRecord(fields) => [0x7b] + Join(RawMembers(q, SortPairs(RawFields(q, fields)))) + [0x7d]
  }

  function RawAll(q: Quote, items: seq<ItfValue>): (r: seq<Text>)
    ensures |r| == |items|
    ensures forall i | 0 <= i < |items| :: r[i] == RawCanonical(q, items[i])
    decreases items, 1
  {
    if |items| == 0 then [] else [RawCanonical(q, items[0])] + RawAll(q, items[1..])
  }

  function RawPair(q: Quote, pair: (ItfValue, ItfValue)): Text
    decreases pair, 1
  {
    Bracket([RawCanonical(q, pair.0), RawCanonical(q, pair.1)])
  }

  function RawPairs(q: Quote, pairs: seq<(ItfValue, ItfValue)>): (r: seq<Text>)
    ensures |r| == |pairs|
    ensures forall i | 0 <= i < |pairs| :: r[i] == RawPair(q, pairs[i])
    decreases pairs, 1
  {
    if |pairs| == 0 then [] else [RawPair(q, pairs[0])] + RawPairs(q, pairs[1..])
  }

  function RawField(q: Quote, field: (Text, ItfValue)): (Text, Text)
    decreases field, 1
  {
    (field.0, RawCanonical(q, field.1))
  }

  function RawFields(q: Quote, fields: seq<(Text, ItfValue)>): (r: seq<(Text, Text)>)
    ensures |r| == |fields|
    ensures forall i | 0 <= i < |fields| :: r[i] == RawField(q, fields[i])
    decreases fields, 1
  {
    if |fields| == 0 then [] else [RawField(q, fields[0])] + RawFields(q, fields[1..])
  }

  function RawMembers(q: Quote, pairs: seq<(Text, Text)>): (r: seq<Text>)
    ensures |r| == |pairs|
    ensures forall i | 0 <= i < |pairs| :: r[i] == q(pairs[i].0) + [0x3a] + pairs[i].1
  {
    seq(|pairs|, i requires 0 <= i < |pairs| => q(pairs[i].0) + [0x3a] + pairs[i].1)
  }

  // ---------------------------------------------------------------- read

  /** `check`: at every level at most `limit` members, and in every object names that are well-formed, as the library
      requires of a name it reads, and pairwise different. String values are not read. */
  predicate Checked(limit: nat, j: Json)
    decreases j
  {
    match j
    case JArray(items) => |items| <= limit && forall i | i in items :: Checked(limit, i)
    case JObject(members) =>
      && |members| <= limit && Distinct(Names(members))
      && forall m | m in members :: ValidUnicode(m.0) && Checked(limit, m.1)
    case _ => true
  }

  /** The inner `value` of `read`. Reading a string with an unpaired surrogate raises, and so refuses the document. */
  function ReadValue(q: Quote, j: Json): Option<ItfValue>
    decreases j, 0
  {
    match j
    case JNull => Some(INull)
    case JBool(b) => Some(IBoolean(b))
    case JString(t) => if ValidUnicode(t) then Some(IText(t)) else None
    case JNumber(lexeme) => if IntSyntax(lexeme) then Some(IInteger(IntValue(lexeme))) else None
    case JArray(items) =>
      (match ReadAll(q, items)
       case None => None
       case Some(values) => Some(ISequence(values)))
    case JObject(members) =>
      if |members| == 1 && members[0].0 == HASH_BIGINT && members[0].1.JString? then
        if IntSyntax(members[0].1.text) then Some(IInteger(IntValue(members[0].1.text))) else None
      else if |members| == 1 && members[0].0 in {HASH_SET, HASH_TUP, HASH_MAP} then
        if members[0].1.JArray? then ReadTagged(q, members[0]) else None
      else if exists m | m in members :: Hashed(m.0) then None
      else
        match ReadMembers(q, members)
        case None => None
        case Some(fields) => Some(IRecord(fields))
  }

  function ReadAll(q: Quote, items: seq<Json>): (r: Option<seq<ItfValue>>)
    ensures r.Some? ==> |r.value| == |items|
    ensures r.Some? ==> forall i | 0 <= i < |items| :: ReadValue(q, items[i]) == Some(r.value[i])
    ensures r.None? ==> exists i :: 0 <= i < |items| && ReadValue(q, items[i]).None?
    decreases items, 1
  {
    if |items| == 0 then Some([])
    else
      var first := ReadValue(q, items[0]);
      var rest := ReadAll(q, items[1..]);
      if first.None? then None
      else if rest.None? then
        var i :| 0 <= i < |items[1..]| && ReadValue(q, items[1..][i]).None?;
        assert ReadValue(q, items[i + 1]).None?;
        None
      else Some([first.value] + rest.value)
  }

  predicate IsPair(v: ItfValue) {
    v.ISequence? && |v.items| == 2
  }

  predicate AllPairs(values: seq<ItfValue>) {
    forall i {:trigger values[i]} | 0 <= i < |values| :: IsPair(values[i])
  }

  function ToPairs(values: seq<ItfValue>): (r: seq<(ItfValue, ItfValue)>)
    requires AllPairs(values)
    ensures |r| == |values|
    ensures forall i | 0 <= i < |values| :: r[i] == (values[i].items[0], values[i].items[1])
  {
    seq(|values|, i requires 0 <= i < |values| => (values[i].items[0], values[i].items[1]))
  }

  function PairKeys(pairs: seq<(ItfValue, ItfValue)>): (r: seq<ItfValue>)
    ensures |r| == |pairs|
    ensures forall i | 0 <= i < |pairs| :: r[i] == pairs[i].0
  {
    seq(|pairs|, i requires 0 <= i < |pairs| => pairs[i].0)
  }

  /** `unique`: no two members with one canonical text. */
  predicate Unique(q: Quote, values: seq<ItfValue>) {
    Distinct(RawAll(q, values))
  }

  function FromTag(q: Quote, tag: Text, values: seq<ItfValue>): Option<ItfValue> {
    if tag == HASH_TUP then Some(ITuple(values))
    else if tag == HASH_SET then if Unique(q, values) then Some(ISet(values)) else None
    else if AllPairs(values) then
      var pairs := ToPairs(values);
      if Unique(q, PairKeys(pairs)) then Some(IMap(pairs)) else None
    else None
  }

  function ReadTagged(q: Quote, member: (Text, Json)): Option<ItfValue>
    requires member.1.JArray?
    decreases member, 1
  {
    match ReadAll(q, member.1.items)
    case None => None
    case Some(values) => FromTag(q, member.0, values)
  }

  function ReadMember(q: Quote, member: (Text, Json)): Option<(Text, ItfValue)>
    decreases member, 1
  {
    match ReadValue(q, member.1)
    case None => None
    case Some(v) => Some((member.0, v))
  }

  function ReadMembers(q: Quote, members: seq<(Text, Json)>): (r: Option<seq<(Text, ItfValue)>>)
    ensures r.Some? ==> |r.value| == |members|
    ensures r.Some? ==> forall i | 0 <= i < |members| :: ReadMember(q, members[i]) == Some(r.value[i])
    ensures r.None? ==> exists i :: 0 <= i < |members| && ReadMember(q, members[i]).None?
    decreases members, 1
  {
    if |members| == 0 then Some([])
    else
      var first := ReadMember(q, members[0]);
      var rest := ReadMembers(q, members[1..]);
      if first.None? then None
      else if rest.None? then
        var i :| 0 <= i < |members[1..]| && ReadMember(q, members[1..][i]).None?;
        assert ReadMember(q, members[i + 1]).None?;
        None
      else Some([first.value] + rest.value)
  }

  // ---------------------------------------------------------------- what the reader produces

  ghost predicate Readable(q: Quote, v: ItfValue)
    decreases v
  {
    match v
    case IText(t) => ValidUnicode(t)
    case ISequence(items) => forall x | x in items :: Readable(q, x)
    case ITuple(items) => forall x | x in items :: Readable(q, x)
    case ISet(items) => Unique(q, items) && forall x | x in items :: Readable(q, x)
    case IMap(pairs) => Unique(q, PairKeys(pairs)) && forall p | p in pairs :: Readable(q, p.0) && Readable(q, p.1)
    case IRecord(fields) =>
      Distinct(Names(fields)) && forall f | f in fields :: ValidUnicode(f.0) && !Hashed(f.0) && Readable(q, f.1)
    case _ => true
  }

  lemma {:induction false} ReadIsReadable(q: Quote, limit: nat, j: Json)
    requires Checked(limit, j) && ReadValue(q, j).Some?
    ensures Readable(q, ReadValue(q, j).value)
    decreases j, 0
  {
    match j
    case JArray(items) => ReadAllReadable(q, limit, items);
    case JObject(members) =>
      if |members| == 1 && members[0].0 in {HASH_SET, HASH_TUP, HASH_MAP} {
        assert members[0] in members;
        ReadTaggedReadable(q, limit, members[0]);
      } else if ReadValue(q, j).value.IRecord? {
        ReadMembersReadable(q, limit, members);
      }
    case _ =>
  }

  lemma {:induction false} ReadAllReadable(q: Quote, limit: nat, items: seq<Json>)
    requires ReadAll(q, items).Some? && forall i | i in items :: Checked(limit, i)
    ensures forall x | x in ReadAll(q, items).value :: Readable(q, x)
    decreases items, 1
  {
    forall i | 0 <= i < |items|
      ensures Readable(q, ReadAll(q, items).value[i])
    {
      ReadIsReadable(q, limit, items[i]);
    }
  }

  lemma {:induction false} ReadTaggedReadable(q: Quote, limit: nat, member: (Text, Json))
    requires member.1.JArray? && Checked(limit, member.1) && ReadTagged(q, member).Some?
    ensures Readable(q, ReadTagged(q, member).value)
    decreases member, 1
  {
    ReadAllReadable(q, limit, member.1.items);
    FromTagReadable(q, member.0, ReadAll(q, member.1.items).value);
  }

  lemma FromTagReadable(q: Quote, tag: Text, values: seq<ItfValue>)
    requires FromTag(q, tag, values).Some? && forall x | x in values :: Readable(q, x)
    ensures Readable(q, FromTag(q, tag, values).value)
  {
    if FromTag(q, tag, values).value.IMap? {
      var pairs := ToPairs(values);
      forall p | p in pairs
        ensures Readable(q, p.0) && Readable(q, p.1)
      {
        var i :| 0 <= i < |pairs| && pairs[i] == p;
        assert values[i] in values;
        PairReadable(q, values[i]);
      }
    }
  }

  lemma PairReadable(q: Quote, v: ItfValue)
    requires IsPair(v) && Readable(q, v)
    ensures Readable(q, v.items[0]) && Readable(q, v.items[1])
  {
    assert v.items[0] in v.items && v.items[1] in v.items;
  }

  lemma {:induction false} ReadMemberReadable(q: Quote, limit: nat, member: (Text, Json))
    requires Checked(limit, member.1) && ReadMember(q, member).Some?
    ensures Readable(q, ReadMember(q, member).value.1)
    decreases member, 1
  {
    ReadIsReadable(q, limit, member.1);
  }

  lemma {:induction false} ReadMembersReadable(q: Quote, limit: nat, members: seq<(Text, Json)>)
    requires ReadMembers(q, members).Some? && Checked(limit, JObject(members))
    requires forall m | m in members :: !Hashed(m.0)
    ensures Readable(q, IRecord(ReadMembers(q, members).value))
    decreases members, 2
  {
    var fields := ReadMembers(q, members).value;
    forall i | 0 <= i < |members|
      ensures fields[i].0 == members[i].0
      ensures ValidUnicode(fields[i].0) && !Hashed(fields[i].0) && Readable(q, fields[i].1)
    {
      assert ReadMember(q, members[i]) == Some(fields[i]);
      assert members[i] in members;
      ReadMemberReadable(q, limit, members[i]);
    }
    assert Names(fields) == Names(members);
  }

  // ---------------------------------------------------------------- the tree of the canonical text

  function RawTree(q: Quote, v: ItfValue): Json
    decreases v, 0
  {
    match v
    case INull => JNull
    case IBoolean(b) => JBool(b)
    case IInteger(n) => JObject([(HASH_BIGINT, JString(IntText(n)))])
    case IText(t) => JString(t)
    case ISequence(items) => JArray(RawTrees(q, items))
    case ITuple(items) => TagTree(HASH_TUP, RawTrees(q, items))
    case ISet(items) => TagTree(HASH_SET, InTextOrder(q, RawTrees(q, items)))
    case IMap(pairs) => TagTree(HASH_MAP, InTextOrder(q, PairTrees(q, pairs)))
    case IRecord(fields) => JObject(SortPairs(RawFieldTrees(q, fields)))
  }

  function TagTree(tag: Text, trees: seq<Json>): Json {
    JObject([(tag, JArray(trees))])
  }

  function RawTrees(q: Quote, items: seq<ItfValue>): (r: seq<Json>)
    ensures |r| == |items|
    ensures forall i | 0 <= i < |items| :: r[i] == RawTree(q, items[i])
    decreases items, 1
  {
    if |items| == 0 then [] else [RawTree(q, items[0])] + RawTrees(q, items[1..])
  }

  function PairTree(q: Quote, pair: (ItfValue, ItfValue)): Json
    decreases pair, 1
  {
    JArray([RawTree(q, pair.0), RawTree(q, pair.1)])
  }

  function PairTrees(q: Quote, pairs: seq<(ItfValue, ItfValue)>): (r: seq<Json>)
    ensures |r| == |pairs|
    ensures forall i | 0 <= i < |pairs| :: r[i] == PairTree(q, pairs[i])
    decreases pairs, 1
  {
    if |pairs| == 0 then [] else [PairTree(q, pairs[0])] + PairTrees(q, pairs[1..])
  }

  function RawFieldTree(q: Quote, field: (Text, ItfValue)): (Text, Json)
    decreases field, 1
  {
    (field.0, RawTree(q, field.1))
  }

  function RawFieldTrees(q: Quote, fields: seq<(Text, ItfValue)>): (r: seq<(Text, Json)>)
    ensures |r| == |fields|
    ensures forall i | 0 <= i < |fields| :: r[i] == RawFieldTree(q, fields[i])
    decreases fields, 1
  {
    if |fields| == 0 then [] else [RawFieldTree(q, fields[0])] + RawFieldTrees(q, fields[1..])
  }

  // The canonical text is the printed tree.

  lemma PrintTag(q: Quote, tag: Text, texts: seq<Text>, trees: seq<Json>)
    requires Join(texts) == PrintItems(q, trees)
    ensures TaggedText(q, tag, texts) == Print(q, TagTree(tag, trees))
  {
    OneMember(q, tag, trees);
  }

  lemma PrintBigint(q: Quote, n: int)
    ensures RawCanonical(q, IInteger(n)) == Print(q, RawTree(q, IInteger(n)))
  {
    var member := (HASH_BIGINT, JString(IntText(n)));
    assert PrintMembers(q, [member]) == PrintMember(q, member);
    assert PrintMember(q, member) == q(HASH_BIGINT) + [0x3a] + q(IntText(n));
  }

  lemma {:induction false} RawIsPrint(q: Quote, v: ItfValue)
    ensures RawCanonical(q, v) == Print(q, RawTree(q, v))
    decreases v, 0
  {
    match v
    case IInteger(n) => PrintBigint(q, n);
    case ISequence(items) => RawAllPrint(q, items);
    case ITuple(items) =>
      RawAllPrint(q, items);
      PrintTag(q, HASH_TUP, RawAll(q, items), RawTrees(q, items));
    case ISet(items) =>
      RawAllPrint(q, items);
      JoinInTextOrder(q, RawAll(q, items), RawTrees(q, items));
      PrintTag(q, HASH_SET, SortTexts(RawAll(q, items)), InTextOrder(q, RawTrees(q, items)));
    case IMap(pairs) =>
      RawPairsPrint(q, pairs);
      JoinInTextOrder(q, RawPairs(q, pairs), PairTrees(q, pairs));
      PrintTag(q, HASH_MAP, SortTexts(RawPairs(q, pairs)), InTextOrder(q, PairTrees(q, pairs)));
    case IRecord(fields) => RawFieldsPrint(q, fields);
    case _ =>
  }

  lemma {:induction false} RawAllPrint(q: Quote, items: seq<ItfValue>)
    ensures forall i | 0 <= i < |items| :: RawAll(q, items)[i] == Print(q, RawTrees(q, items)[i])
    ensures Join(RawAll(q, items)) == PrintItems(q, RawTrees(q, items))
    decreases items, 1
  {
    forall i | 0 <= i < |items|
      ensures RawAll(q, items)[i] == Print(q, RawTrees(q, items)[i])
    {
      RawIsPrint(q, items[i]);
    }
    JoinIsItems(q, RawAll(q, items), RawTrees(q, items));
  }

  lemma {:induction false} RawPairPrint(q: Quote, pair: (ItfValue, ItfValue))
    ensures RawPair(q, pair) == Print(q, PairTree(q, pair))
    decreases pair, 1
  {
    RawIsPrint(q, pair.0);
    RawIsPrint(q, pair.1);
    JoinIsItems(q, [RawCanonical(q, pair.0), RawCanonical(q, pair.1)], [RawTree(q, pair.0), RawTree(q, pair.1)]);
  }

  lemma {:induction false} RawPairsPrint(q: Quote, pairs: seq<(ItfValue, ItfValue)>)
    ensures forall i | 0 <= i < |pairs| :: RawPairs(q, pairs)[i] == Print(q, PairTrees(q, pairs)[i])
    decreases pairs, 1
  {
    forall i | 0 <= i < |pairs|
      ensures RawPairs(q, pairs)[i] == Print(q, PairTrees(q, pairs)[i])
    {
      RawPairPrint(q, pairs[i]);
    }
  }

  lemma {:induction false} RawFieldPrint(q: Quote, field: (Text, ItfValue))
    ensures RawField(q, field).1 == Print(q, RawFieldTree(q, field).1)
    decreases field, 1
  {
    RawIsPrint(q, field.1);
  }

  lemma {:induction false} RawFieldsPrint(q: Quote, fields: seq<(Text, ItfValue)>)
    ensures Join(RawMembers(q, SortPairs(RawFields(q, fields)))) == PrintMembers(q, SortPairs(RawFieldTrees(q, fields)))
    decreases fields, 2
  {
    var texts, trees := RawFields(q, fields), RawFieldTrees(q, fields);
    forall i | 0 <= i < |fields|
      ensures texts[i].1 == Print(q, trees[i].1)
    {
      assert texts[i] == RawField(q, fields[i]) && trees[i] == RawFieldTree(q, fields[i]);
      RawFieldPrint(q, fields[i]);
    }
    SortRelated(texts, trees, (text: Text, tree: Json) => text == Print(q, tree));
    JoinIsMembers(q, RawMembers(q, SortPairs(texts)), SortPairs(trees));
  }

  // ---------------------------------------------------------------- reading the canonical tree back

  /** The value with every set, map and record in ordinal order. */
  function Ordered(q: Quote, v: ItfValue): ItfValue
    decreases v, 0
  {
    match v
    case ISequence(items) => ISequence(OrderedAll(q, items))
    case ITuple(items) => ITuple(OrderedAll(q, items))
    case ISet(items) => ISet(Payloads(SortPairs(Zip(RawAll(q, items), OrderedAll(q, items)))))
    case IMap(pairs) => IMap(Payloads(SortPairs(Zip(RawPairs(q, pairs), OrderedPairs(q, pairs)))))
    case IRecord(fields) => IRecord(SortPairs(OrderedFields(q, fields)))
    case _ => v
  }

  function Zip<T>(names: seq<Text>, payloads: seq<T>): (r: seq<(Text, T)>)
    requires |names| == |payloads|
    ensures |r| == |names|
    ensures forall i | 0 <= i < |names| :: r[i] == (names[i], payloads[i])
  {
    seq(|names|, i requires 0 <= i < |names| => (names[i], payloads[i]))
  }

  function OrderedAll(q: Quote, items: seq<ItfValue>): (r: seq<ItfValue>)
    ensures |r| == |items|
    ensures forall i | 0 <= i < |items| :: r[i] == Ordered(q, items[i])
    decreases items, 1
  {
    if |items| == 0 then [] else [Ordered(q, items[0])] + OrderedAll(q, items[1..])
  }

  function OrderedPair(q: Quote, pair: (ItfValue, ItfValue)): (ItfValue, ItfValue)
    decreases pair, 1
  {
    (Ordered(q, pair.0), Ordered(q, pair.1))
  }

  function OrderedPairs(q: Quote, pairs: seq<(ItfValue, ItfValue)>): (r: seq<(ItfValue, ItfValue)>)
    ensures |r| == |pairs|
    ensures forall i | 0 <= i < |pairs| :: r[i] == OrderedPair(q, pairs[i])
    decreases pairs, 1
  {
    if |pairs| == 0 then [] else [OrderedPair(q, pairs[0])] + OrderedPairs(q, pairs[1..])
  }

  function OrderedField(q: Quote, field: (Text, ItfValue)): (Text, ItfValue)
    decreases field, 1
  {
    (field.0, Ordered(q, field.1))
  }

  function OrderedFields(q: Quote, fields: seq<(Text, ItfValue)>): (r: seq<(Text, ItfValue)>)
    ensures |r| == |fields|
    ensures forall i | 0 <= i < |fields| :: r[i] == OrderedField(q, fields[i])
    decreases fields, 1
  {
    if |fields| == 0 then [] else [OrderedField(q, fields[0])] + OrderedFields(q, fields[1..])
  }

  lemma SortedTextsFixed<T>(ps: seq<(Text, T)>)
    ensures SortTexts(Names(SortPairs(ps))) == Names(SortPairs(ps))
  {
    SortSorted(ps);
    SortedFixed(Untagged(Names(SortPairs(ps)))) by {
      assert Names(Untagged(Names(SortPairs(ps)))) == Names(SortPairs(ps));
    }
  }

  /** Ordering a value does not change its canonical text. */
  lemma {:induction false} OrderedCanonical(q: Quote, v: ItfValue)
    ensures RawCanonical(q, Ordered(q, v)) == RawCanonical(q, v)
    decreases v, 0
  {
    match v
    case ISequence(items) => OrderedAllCanonical(q, items);
    case ITuple(items) => OrderedAllCanonical(q, items);
    case ISet(items) => OrderedSetCanonical(q, items);
    case IMap(pairs) => OrderedMapCanonical(q, pairs);
    case IRecord(fields) => OrderedRecordCanonical(q, fields);
    case _ =>
  }

  lemma {:induction false} OrderedAllCanonical(q: Quote, items: seq<ItfValue>)
    ensures RawAll(q, OrderedAll(q, items)) == RawAll(q, items)
    decreases items, 1
  {
    forall i | 0 <= i < |items|
      ensures RawAll(q, OrderedAll(q, items))[i] == RawAll(q, items)[i]
    {
      OrderedCanonical(q, items[i]);
    }
  }

  lemma {:induction false} OrderedSetCanonical(q: Quote, items: seq<ItfValue>)
    ensures var sorted := SortPairs(Zip(RawAll(q, items), OrderedAll(q, items)));
      RawAll(q, Payloads(sorted)) == Names(sorted) == SortTexts(RawAll(q, items))
    ensures SortTexts(Names(SortPairs(Zip(RawAll(q, items), OrderedAll(q, items))))) == SortTexts(RawAll(q, items))
    decreases items, 2
  {
    var zipped := Zip(RawAll(q, items), OrderedAll(q, items));
    var sorted := SortPairs(zipped);
    SortPermutes(zipped);
    OrderedAllCanonical(q, items);
    forall i | 0 <= i < |sorted|
      ensures RawAll(q, Payloads(sorted))[i] == Names(sorted)[i]
    {
      SortMember(zipped, i);
      var k :| 0 <= k < |items| && zipped[k] == sorted[i];
      assert RawAll(q, OrderedAll(q, items))[k] == RawAll(q, items)[k];
    }
    SortTextsOfPairs(RawAll(q, items), zipped);
    SortedTextsFixed(zipped);
  }

  lemma {:induction false} OrderedPairCanonical(q: Quote, pair: (ItfValue, ItfValue))
    ensures RawCanonical(q, OrderedPair(q, pair).0) == RawCanonical(q, pair.0)
    ensures RawPair(q, OrderedPair(q, pair)) == RawPair(q, pair)
    decreases pair, 1
  {
    OrderedCanonical(q, pair.0);
    OrderedCanonical(q, pair.1);
  }

  lemma {:induction false} OrderedMapCanonical(q: Quote, pairs: seq<(ItfValue, ItfValue)>)
    ensures var sorted := SortPairs(Zip(RawPairs(q, pairs), OrderedPairs(q, pairs)));
      RawPairs(q, Payloads(sorted)) == Names(sorted) == SortTexts(RawPairs(q, pairs))
    ensures SortTexts(Names(SortPairs(Zip(RawPairs(q, pairs), OrderedPairs(q, pairs))))) ==
        SortTexts(RawPairs(q, pairs))
    decreases pairs, 2
  {
    var zipped := Zip(RawPairs(q, pairs), OrderedPairs(q, pairs));
    var sorted := SortPairs(zipped);
    SortPermutes(zipped);
    forall i | 0 <= i < |sorted|
      ensures RawPairs(q, Payloads(sorted))[i] == Names(sorted)[i]
    {
      SortMember(zipped, i);
      var k :| 0 <= k < |pairs| && zipped[k] == sorted[i];
      OrderedPairCanonical(q, pairs[k]);
    }
    SortTextsOfPairs(RawPairs(q, pairs), zipped);
    SortedTextsFixed(zipped);
  }

  lemma {:induction false} OrderedFieldCanonical(q: Quote, field: (Text, ItfValue))
    ensures RawField(q, OrderedField(q, field)) == RawField(q, field)
    decreases field, 1
  {
    OrderedCanonical(q, field.1);
  }

  lemma {:induction false} OrderedRecordCanonical(q: Quote, fields: seq<(Text, ItfValue)>)
    ensures SortPairs(RawFields(q, SortPairs(OrderedFields(q, fields)))) == SortPairs(RawFields(q, fields))
    decreases fields, 2
  {
    var ordered, texts := OrderedFields(q, fields), RawFields(q, fields);
    forall i | 0 <= i < |fields|
      ensures ordered[i].0 == texts[i].0 && RawCanonical(q, ordered[i].1) == texts[i].1
    {
      OrderedFieldCanonical(q, fields[i]);
      assert ordered[i] == OrderedField(q, fields[i]) && texts[i] == RawField(q, fields[i]);
    }
    SortRelated(ordered, texts, (v: ItfValue, text: Text) => RawCanonical(q, v) == text);
    assert RawFields(q, SortPairs(ordered)) == SortPairs(texts);
    SortSorted(texts);
    SortedFixed(SortPairs(texts));
  }

  // Reading the tree gives the ordered value.

  lemma {:induction false} RawRoundTrip(q: Quote, v: ItfValue)
    requires Readable(q, v)
    ensures ReadValue(q, RawTree(q, v)) == Some(Ordered(q, v))
    decreases v, 0
  {
    match v
    case IInteger(n) => IntTextValue(n);
    case ISequence(items) => RawRoundTripAll(q, items);
    case ITuple(items) =>
      RawRoundTripAll(q, items);
      ReadTag(q, HASH_TUP, RawTrees(q, items));
    case ISet(items) =>
      RawRoundTripSet(q, items);
      ReadTag(q, HASH_SET, InTextOrder(q, RawTrees(q, items)));
    case IMap(pairs) =>
      RawRoundTripMap(q, pairs);
      ReadTag(q, HASH_MAP, InTextOrder(q, PairTrees(q, pairs)));
    case IRecord(fields) => RawRoundTripRecord(q, fields);
    case _ =>
  }

  lemma ReadTag(q: Quote, tag: Text, trees: seq<Json>)
    requires tag in {HASH_SET, HASH_TUP, HASH_MAP}
    ensures ReadValue(q, TagTree(tag, trees)) ==
      match ReadAll(q, trees) case None => None case Some(values) => FromTag(q, tag, values)
  {
    var member := (tag, JArray(trees));
    assert tag != HASH_BIGINT by {
      assert HASH_BIGINT[1] == 0x62 && HASH_SET[1] == 0x73 && HASH_TUP[1] == 0x74 && HASH_MAP[1] == 0x6d;
    }
    assert ReadValue(q, TagTree(tag, trees)) == ReadTagged(q, member);
  }

  lemma {:induction false} RawRoundTripAll(q: Quote, items: seq<ItfValue>)
    requires forall x | x in items :: Readable(q, x)
    ensures forall i | 0 <= i < |items| :: ReadValue(q, RawTrees(q, items)[i]) == Some(OrderedAll(q, items)[i])
    ensures ReadAll(q, RawTrees(q, items)) == Some(OrderedAll(q, items))
    decreases items, 1
  {
    forall i | 0 <= i < |items|
      ensures ReadValue(q, RawTrees(q, items)[i]) == Some(OrderedAll(q, items)[i])
    {
      RawRoundTrip(q, items[i]);
    }
    AllRead(q, RawTrees(q, items), OrderedAll(q, items));
  }

  lemma AllRead(q: Quote, trees: seq<Json>, values: seq<ItfValue>)
    requires |trees| == |values| && forall i | 0 <= i < |trees| :: ReadValue(q, trees[i]) == Some(values[i])
    ensures ReadAll(q, trees) == Some(values)
  {
    if ReadAll(q, trees).Some? {
      assert ReadAll(q, trees).value == values;
    }
  }

  lemma {:induction false} RawRoundTripSet(q: Quote, items: seq<ItfValue>)
    requires Unique(q, items) && forall x | x in items :: Readable(q, x)
    ensures var values := Payloads(SortPairs(Zip(RawAll(q, items), OrderedAll(q, items))));
      ReadAll(q, InTextOrder(q, RawTrees(q, items))) == Some(values) && Unique(q, values)
    decreases items, 2
  {
    var zipped := Zip(RawAll(q, items), OrderedAll(q, items));
    RawRoundTripAll(q, items);
    RawAllPrint(q, items);
    SortRelated(ByText(q, RawTrees(q, items)), zipped, (tree: Json, v: ItfValue) => ReadValue(q, tree) == Some(v));
    AllRead(q, InTextOrder(q, RawTrees(q, items)), Payloads(SortPairs(zipped)));
    OrderedSetCanonical(q, items);
    SortTextsSpec(RawAll(q, items));
  }

  lemma {:induction false} RawRoundTripPair(q: Quote, pair: (ItfValue, ItfValue))
    requires Readable(q, pair.0) && Readable(q, pair.1)
    ensures ReadValue(q, PairTree(q, pair)) == Some(ISequence([OrderedPair(q, pair).0, OrderedPair(q, pair).1]))
    decreases pair, 1
  {
    RawRoundTrip(q, pair.0);
    RawRoundTrip(q, pair.1);
    AllRead(q, [RawTree(q, pair.0), RawTree(q, pair.1)], [Ordered(q, pair.0), Ordered(q, pair.1)]);
  }

  function FromPair(pair: (ItfValue, ItfValue)): ItfValue {
    ISequence([pair.0, pair.1])
  }

  function FromPairs(pairs: seq<(ItfValue, ItfValue)>): (r: seq<ItfValue>)
    ensures |r| == |pairs|
    ensures forall i | 0 <= i < |pairs| :: r[i] == FromPair(pairs[i])
  {
    seq(|pairs|, i requires 0 <= i < |pairs| => FromPair(pairs[i]))
  }

  lemma PairsBack(pairs: seq<(ItfValue, ItfValue)>)
    ensures AllPairs(FromPairs(pairs)) && ToPairs(FromPairs(pairs)) == pairs
  {
  }

  lemma {:induction false} RawRoundTripMap(q: Quote, pairs: seq<(ItfValue, ItfValue)>)
    requires Unique(q, PairKeys(pairs)) && forall p | p in pairs :: Readable(q, p.0) && Readable(q, p.1)
    ensures var values := Payloads(SortPairs(Zip(RawPairs(q, pairs), OrderedPairs(q, pairs))));
      ReadAll(q, InTextOrder(q, PairTrees(q, pairs))) == Some(FromPairs(values))
      && FromTag(q, HASH_MAP, FromPairs(values)) == Some(IMap(values))
    decreases pairs, 2
  {
    var zipped := Zip(RawPairs(q, pairs), OrderedPairs(q, pairs));
    var values := Payloads(SortPairs(zipped));
    forall i | 0 <= i < |pairs|
      ensures ReadValue(q, PairTrees(q, pairs)[i]) == Some(FromPair(OrderedPairs(q, pairs)[i]))
    {
      assert pairs[i] in pairs;
      RawRoundTripPair(q, pairs[i]);
    }
    RawPairsPrint(q, pairs);
    SortRelated(ByText(q, PairTrees(q, pairs)), zipped,
                (tree: Json, p: (ItfValue, ItfValue)) => ReadValue(q, tree) == Some(FromPair(p)));
    AllRead(q, InTextOrder(q, PairTrees(q, pairs)), FromPairs(values));
    PairsBack(values);
    UniqueKeys(q, pairs);
    assert HASH_MAP[1] == 0x6d && HASH_TUP[1] == 0x74 && HASH_SET[1] == 0x73;
  }

  lemma UniqueKeys(q: Quote, pairs: seq<(ItfValue, ItfValue)>)
    requires Unique(q, PairKeys(pairs))
    ensures Unique(q, PairKeys(Payloads(SortPairs(Zip(RawPairs(q, pairs), OrderedPairs(q, pairs))))))
  {
    var zipped := Zip(RawPairs(q, pairs), OrderedPairs(q, pairs));
    var key := (p: (Text, (ItfValue, ItfValue))) => RawCanonical(q, p.1.0);
    forall i | 0 <= i < |pairs|
      ensures Keys(key, zipped)[i] == RawAll(q, PairKeys(pairs))[i]
    {
      OrderedPairCanonical(q, pairs[i]);
    }
    assert Keys(key, zipped) == RawAll(q, PairKeys(pairs));
    SortKeysDistinct(key, zipped);
    assert Keys(key, SortPairs(zipped)) == RawAll(q, PairKeys(Payloads(SortPairs(zipped))));
  }

  lemma {:induction false} RawRoundTripField(q: Quote, field: (Text, ItfValue))
    requires Readable(q, field.1)
    ensures ReadMember(q, RawFieldTree(q, field)) == Some(OrderedField(q, field))
    decreases field, 1
  {
    RawRoundTrip(q, field.1);
  }

  lemma AllMembersRead(q: Quote, members: seq<(Text, Json)>, fields: seq<(Text, ItfValue)>)
    requires |members| == |fields| && forall i | 0 <= i < |members| :: ReadMember(q, members[i]) == Some(fields[i])
    ensures ReadMembers(q, members) == Some(fields)
  {
    if ReadMembers(q, members).Some? {
      assert ReadMembers(q, members).value == fields;
    }
  }

  lemma {:induction false} RawRoundTripFields(q: Quote, fields: seq<(Text, ItfValue)>)
    requires forall f | f in fields :: Readable(q, f.1)
    ensures Related(RawFieldTrees(q, fields), OrderedFields(q, fields),
                    (tree: Json, v: ItfValue) => ReadValue(q, tree) == Some(v))
    decreases fields, 2
  {
    forall i | 0 <= i < |fields|
      ensures ReadMember(q, RawFieldTrees(q, fields)[i]) == Some(OrderedFields(q, fields)[i])
    {
      assert fields[i] in fields;
      RawRoundTripField(q, fields[i]);
    }
  }

  lemma {:induction false} PlainTrees(q: Quote, fields: seq<(Text, ItfValue)>)
    requires forall f | f in fields :: !Hashed(f.0)
    ensures forall m | m in RawFieldTrees(q, fields) :: !Hashed(m.0)
  {
    if |fields| > 0 {
      PlainTrees(q, fields[1..]);
    }
  }

  lemma {:induction false} PlainNames(q: Quote, fields: seq<(Text, ItfValue)>)
    requires forall f | f in fields :: !Hashed(f.0)
    ensures forall m | m in SortPairs(RawFieldTrees(q, fields)) :: !Hashed(m.0)
  {
    PlainTrees(q, fields);
    SortPermutes(RawFieldTrees(q, fields));
  }

  lemma {:induction false} RawRoundTripRecord(q: Quote, fields: seq<(Text, ItfValue)>)
    requires Readable(q, IRecord(fields))
    ensures ReadValue(q, JObject(SortPairs(RawFieldTrees(q, fields)))) ==
        Some(IRecord(SortPairs(OrderedFields(q, fields))))
    decreases fields, 3
  {
    var trees, ordered := RawFieldTrees(q, fields), OrderedFields(q, fields);
    RawRoundTripFields(q, fields);
    SortRelated(trees, ordered, (tree: Json, v: ItfValue) => ReadValue(q, tree) == Some(v));
    AllMembersRead(q, SortPairs(trees), SortPairs(ordered));
    PlainNames(q, fields);
    PlainRecord(q, SortPairs(trees));
  }

  lemma PlainRecord(q: Quote, members: seq<(Text, Json)>)
    requires forall m | m in members :: !Hashed(m.0)
    ensures ReadValue(q, JObject(members)) ==
      match ReadMembers(q, members) case None => None case Some(fields) => Some(IRecord(fields))
  {
    assert |members| == 1 ==> members[0] in members;
    assert Hashed(HASH_BIGINT) && Hashed(HASH_SET) && Hashed(HASH_TUP) && Hashed(HASH_MAP);
  }

  // ---------------------------------------------------------------- main results

  lemma {:induction false} RawPrintable(q: Quote, v: ItfValue)
    requires Readable(q, v)
    ensures Printable(RawTree(q, v))
    decreases v, 0
  {
    match v
    case IInteger(n) =>
      var member := (HASH_BIGINT, JString(IntText(n)));
      IntTextValid(n);
      assert ValidUnicode(HASH_BIGINT) by {
        AsciiValid(HASH_BIGINT);
      }
      assert forall m | m in [member] :: ValidUnicode(m.0) && Printable(m.1);
    case ISequence(items) => RawPrintableAll(q, items);
    case ITuple(items) =>
      RawPrintableAll(q, items);
      TagPrintable(HASH_TUP, RawTrees(q, items));
    case ISet(items) =>
      RawPrintableAll(q, items);
      OrderPrintable(q, RawTrees(q, items));
      TagPrintable(HASH_SET, InTextOrder(q, RawTrees(q, items)));
    case IMap(pairs) =>
      RawPrintablePairs(q, pairs);
      OrderPrintable(q, PairTrees(q, pairs));
      TagPrintable(HASH_MAP, InTextOrder(q, PairTrees(q, pairs)));
    case IRecord(fields) => RawPrintableFields(q, fields);
    case _ =>
  }

  lemma IntTextValid(n: int)
    ensures ValidUnicode(IntText(n))
  {
    AsciiValid(IntText(n));
  }

  lemma TagPrintable(tag: Text, trees: seq<Json>)
    requires tag in {HASH_SET, HASH_TUP, HASH_MAP} && forall t | t in trees :: Printable(t)
    ensures Printable(TagTree(tag, trees))
  {
    AsciiValid(tag);
    assert Printable(JArray(trees));
  }

  lemma OrderPrintable(q: Quote, trees: seq<Json>)
    requires forall t | t in trees :: Printable(t)
    ensures forall t | t in InTextOrder(q, trees) :: Printable(t)
  {
    forall t | t in InTextOrder(q, trees)
      ensures Printable(t)
    {
      InTextOrderMembers(q, trees, t);
    }
  }

  lemma {:induction false} RawPrintableAll(q: Quote, items: seq<ItfValue>)
    requires forall x | x in items :: Readable(q, x)
    ensures forall t | t in RawTrees(q, items) :: Printable(t)
    decreases items, 1
  {
    forall i | 0 <= i < |items|
      ensures Printable(RawTrees(q, items)[i])
    {
      RawPrintable(q, items[i]);
    }
  }

  lemma {:induction false} RawPrintablePair(q: Quote, pair: (ItfValue, ItfValue))
    requires Readable(q, pair.0) && Readable(q, pair.1)
    ensures Printable(PairTree(q, pair))
    decreases pair, 1
  {
    RawPrintable(q, pair.0);
    RawPrintable(q, pair.1);
  }

  lemma {:induction false} RawPrintablePairs(q: Quote, pairs: seq<(ItfValue, ItfValue)>)
    requires forall p | p in pairs :: Readable(q, p.0) && Readable(q, p.1)
    ensures forall t | t in PairTrees(q, pairs) :: Printable(t)
    decreases pairs, 1
  {
    forall i | 0 <= i < |pairs|
      ensures Printable(PairTrees(q, pairs)[i])
    {
      assert pairs[i] in pairs;
      RawPrintablePair(q, pairs[i]);
    }
  }

  lemma {:induction false} RawPrintableField(q: Quote, field: (Text, ItfValue))
    requires Readable(q, field.1)
    ensures Printable(RawFieldTree(q, field).1)
    decreases field, 1
  {
    RawPrintable(q, field.1);
  }

  lemma {:induction false} RawPrintableFields(q: Quote, fields: seq<(Text, ItfValue)>)
    requires forall f | f in fields :: ValidUnicode(f.0) && Readable(q, f.1)
    ensures Printable(JObject(SortPairs(RawFieldTrees(q, fields))))
    decreases fields, 2
  {
    var trees := RawFieldTrees(q, fields);
    forall i | 0 <= i < |fields|
      ensures ValidUnicode(trees[i].0) && Printable(trees[i].1)
    {
      assert fields[i] in fields && trees[i] == RawFieldTree(q, fields[i]);
      RawPrintableField(q, fields[i]);
    }
    SortPermutes(trees);
    forall m | m in SortPairs(trees)
      ensures ValidUnicode(m.0) && Printable(m.1)
    {
      var i :| 0 <= i < |trees| && trees[i] == m;
    }
  }

  /** Round trip: parsing the canonical text of a readable value and reading the tree gives the value in ordinal
      order, which has the same canonical text. */
  lemma RawReadBack(q: Quote, v: ItfValue)
    requires Quotes(q) && Readable(q, v)
    ensures ParseValue(RawCanonical(q, v)) == Some((RawTree(q, v), []))
    ensures ReadValue(q, RawTree(q, v)) == Some(Ordered(q, v))
    ensures RawCanonical(q, Ordered(q, v)) == RawCanonical(q, v)
  {
    RawIsPrint(q, v);
    RawPrintable(q, v);
    ParsePrintValue(q, RawTree(q, v), []);
    assert RawCanonical(q, v) + [] == RawCanonical(q, v);
    RawRoundTrip(q, v);
    OrderedCanonical(q, v);
  }

  /** Two readable values have one canonical text exactly when they are equal up to the order of sets, maps and
      record fields. */
  lemma RawIdentity(q: Quote, v: ItfValue, w: ItfValue)
    requires Quotes(q) && Readable(q, v) && Readable(q, w)
    ensures RawCanonical(q, v) == RawCanonical(q, w) <==> Ordered(q, v) == Ordered(q, w)
  {
    RawReadBack(q, v);
    RawReadBack(q, w);
  }
}
