/** Which JSON trees the two readers accept, exactly, and how what they give is related: decoding a tree is reading it
    and then keeping what the schema-v1 dialect has a value for. */
module Reading {
  import opened Text
  import opened Sorting
  import opened Json
  import opened Canonical
  import opened Decoder
  import opened Itf

  /** The object's one member has this name. */
  predicate Sole(members: seq<(Text, Json)>, name: Text) {
    |members| == 1 && members[0].0 == name
  }

  lemma SoleNames(members: seq<(Text, Json)>, name: Text)
    ensures Sole(members, name) <==> |members| == 1 && name in Names(members)
  {
    if |members| == 1 {
      assert Names(members) == [members[0].0];
    }
  }

  lemma TagsDiffer()
    ensures Hashed(HASH_BIGINT) && Hashed(HASH_SET) && Hashed(HASH_TUP) && Hashed(HASH_MAP)
    ensures HASH_BIGINT != HASH_SET && HASH_BIGINT != HASH_TUP && HASH_BIGINT != HASH_MAP
    ensures HASH_SET != HASH_TUP && HASH_SET != HASH_MAP && HASH_TUP != HASH_MAP
  {
    assert HASH_SET[1] == 0x73 && HASH_TUP[1] == 0x74 && HASH_MAP[1] == 0x6d && HASH_BIGINT[1] == 0x62;
  }

  // ---------------------------------------------------------------- what the schema-v1 decoder accepts

  /** What the schema-v1 dialect can carry: bare integers of 64 bits, any integer under `#bigint`, sets, and records
      without other `#` names. */
  predicate Carried(j: Json)
    decreases j, 0
  {
    match j
    case JNumber(lexeme) => IntSyntax(lexeme) && InInt64(IntValue(lexeme))
    case JArray(items) => forall i | i in items :: Carried(i)
    case JObject(members) =>
      if Sole(members, HASH_BIGINT) then members[0].1.JString? && IntSyntax(members[0].1.text)
      else if Sole(members, HASH_SET) then CarriedSet(members[0])
      else forall m | m in members :: !Hashed(m.0) && Carried(m.1)
    case _ => true
  }

  predicate CarriedSet(member: (Text, Json))
    decreases member, 1
  {
    member.1.JArray? && Carried(member.1)
  }

  lemma {:induction false} AllCarried(items: seq<Json>)
    ensures DecodeAll(items).Some? <==> forall i | i in items :: Carried(i)
    decreases items, 1
  {
    forall i | 0 <= i < |items|
      ensures DecodeValue(items[i]).Some? <==> Carried(items[i])
    {
      CarriedExactly(items[i]);
    }
    if DecodeAll(items).None? {
      var i :| 0 <= i < |items| && DecodeValue(items[i]).None?;
      assert items[i] in items && !Carried(items[i]);
    }
  }

  lemma {:induction false} SetCarried(member: (Text, Json))
    requires member.1.JArray?
    ensures DecodeSet(member).Some? <==> CarriedSet(member)
    decreases member, 1
  {
    AllCarried(member.1.items);
  }

  lemma {:induction false} MemberCarried(member: (Text, Json))
    ensures DecodeMember(member).Some? <==> Carried(member.1)
    decreases member, 1
  {
    CarriedExactly(member.1);
  }

  lemma {:induction false} MembersCarried(members: seq<(Text, Json)>)
    ensures DecodeMembers(members).Some? <==> forall m | m in members :: Carried(m.1)
    decreases members, 2
  {
    forall i | 0 <= i < |members|
      ensures DecodeMember(members[i]).Some? <==> Carried(members[i].1)
    {
      MemberCarried(members[i]);
    }
    if DecodeMembers(members).None? {
      var i :| 0 <= i < |members| && DecodeMember(members[i]).None?;
      assert members[i] in members && !Carried(members[i].1);
    }
  }

  lemma NoTags(members: seq<(Text, Json)>)
    requires forall m | m in members :: !Hashed(m.0)
    ensures HASH_BIGINT !in Names(members) && HASH_SET !in Names(members)
  {
    TagsDiffer();
    forall n | n in Names(members)
      ensures !Hashed(n)
    {
      var i :| 0 <= i < |members| && Names(members)[i] == n;
      assert members[i] in members;
    }
  }

  /** The schema-v1 decoder accepts exactly the trees its dialect can carry. */
  lemma {:induction false} CarriedExactly(j: Json)
    ensures DecodeValue(j).Some? <==> Carried(j)
    decreases j, 0
  {
    match j
    case JArray(items) => AllCarried(items);
    case JObject(members) =>
      TagsDiffer();
      SoleNames(members, HASH_BIGINT);
      SoleNames(members, HASH_SET);
      if Sole(members, HASH_BIGINT) {
        if members[0].1.JString? {
          CanonicalIntegerSpec(members[0].1.text);
        }
      } else if Sole(members, HASH_SET) {
        if members[0].1.JArray? {
          SetCarried(members[0]);
        }
      } else if forall m | m in members :: !Hashed(m.0) {
        NoTags(members);
        MembersCarried(members);
      }
    case _ =>
  }

  // ---------------------------------------------------------------- collections and names

  /** The tree itself or one somewhere inside it. */
  ghost predicate Inside(inner: Json, j: Json)
    decreases j
  {
    inner == j ||
    match j
    case JArray(items) => exists i | i in items :: Inside(inner, i)
    case JObject(members) => exists m | m in members :: Inside(inner, m.1)
    case _ => false
  }

  /** A collection that is not too large, and if an object then with distinct, well-formed names. */
  predicate InOrder(limit: nat, j: Json) {
    && (j.JArray? ==> |j.items| <= limit)
    && (j.JObject? ==>
          && |j.members| <= limit && (forall m | m in j.members :: ValidUnicode(m.0))
          && forall i, k | 0 <= i < k < |j.members| :: j.members[i].0 != j.members[k].0)
  }

  /** The check passes exactly when everything inside the tree is in order. */
  lemma {:induction false} CheckedMeans(limit: nat, j: Json)
    ensures Checked(limit, j) <==> forall inner | Inside(inner, j) :: InOrder(limit, inner)
    decreases j
  {
    match j
    case JArray(items) =>
      forall i | i in items
        ensures Checked(limit, i) <==> forall inner | Inside(inner, i) :: InOrder(limit, inner)
      {
        CheckedMeans(limit, i);
      }
      assert Inside(j, j);
    case JObject(members) =>
      forall m | m in members
        ensures Checked(limit, m.1) <==> forall inner | Inside(inner, m.1) :: InOrder(limit, inner)
      {
        CheckedMeans(limit, m.1);
      }
      assert Inside(j, j);
    case _ =>
  }

  // ---------------------------------------------------------------- what the ITF reader accepts

  /** The canonical text of what the tree is read as. */
  function ReadText(q: Quote, j: Json): Option<Text> {
    match ReadValue(q, j)
    case None => None
    case Some(v) => Some(RawCanonical(q, v))
  }

  /** What the ITF dialect can carry: any integer, bare or under `#bigint`, sets without repetition, tuples, maps of
      pairs without a repeated key, records without other `#` names, and well-formed text. */
  predicate Legible(q: Quote, j: Json)
    decreases j, 0
  {
    match j
    case JString(t) => ValidUnicode(t)
    case JNumber(lexeme) => IntSyntax(lexeme)
    case JArray(items) => forall i | i in items :: Legible(q, i)
    case JObject(members) =>
      if Sole(members, HASH_BIGINT) then members[0].1.JString? && IntSyntax(members[0].1.text)
      else if Sole(members, HASH_SET) || Sole(members, HASH_TUP) || Sole(members, HASH_MAP) then
        LegibleTag(q, members[0])
      else forall m | m in members :: !Hashed(m.0) && Legible(q, m.1)
    case _ => true
  }

  predicate LegibleTag(q: Quote, member: (Text, Json))
    decreases member, 1
  {
    && member.1.JArray? && Legible(q, member.1)
    && (member.0 == HASH_SET ==> Apart(q, member.1.items))
    && (member.0 == HASH_MAP ==>
          AllTwo(member.1.items) && Apart(q, Firsts(member.1.items)))
  }

  /** No two of the trees are read as values with one canonical text. */
  predicate Apart(q: Quote, items: seq<Json>) {
    forall i, k | 0 <= i < k < |items| :: ReadText(q, items[i]) != ReadText(q, items[k])
  }

  predicate TwoItems(j: Json) {
    j.JArray? && |j.items| == 2
  }

  predicate AllTwo(items: seq<Json>) {
    forall k | 0 <= k < |items| :: TwoItems(items[k])
  }

  function Firsts(items: seq<Json>): (r: seq<Json>)
    requires AllTwo(items)
    ensures |r| == |items| && forall k | 0 <= k < |items| :: r[k] == items[k].items[0]
  {
    seq(|items|, k requires 0 <= k < |items| => items[k].items[0])
  }

  lemma {:induction false} AllLegible(q: Quote, items: seq<Json>)
    ensures ReadAll(q, items).Some? <==> forall i | i in items :: Legible(q, i)
    decreases items, 1
  {
    forall i | 0 <= i < |items|
      ensures ReadValue(q, items[i]).Some? <==> Legible(q, items[i])
    {
      LegibleExactly(q, items[i]);
    }
    if ReadAll(q, items).None? {
      var i :| 0 <= i < |items| && ReadValue(q, items[i]).None?;
      assert items[i] in items && !Legible(q, items[i]);
    }
  }

  /** Reading without repetition is having no two trees with one text. */
  lemma UniqueIsApart(q: Quote, items: seq<Json>)
    requires ReadAll(q, items).Some?
    ensures Unique(q, ReadAll(q, items).value) <==> Apart(q, items)
  {
    var texts := RawAll(q, ReadAll(q, items).value);
    forall i | 0 <= i < |items|
      ensures ReadText(q, items[i]) == Some(texts[i])
    {
      assert ReadValue(q, items[i]) == Some(ReadAll(q, items).value[i]);
    }
  }

  lemma PairsRead(q: Quote, items: seq<Json>)
    requires ReadAll(q, items).Some?
    ensures AllPairs(ReadAll(q, items).value) <==> AllTwo(items)
  {
    var values := ReadAll(q, items).value;
    forall i | 0 <= i < |items|
      ensures IsPair(values[i]) <==> TwoItems(items[i])
    {
      ReadsAsSequence(q, items[i]);
    }
  }

  lemma ReadsAsSequence(q: Quote, j: Json)
    requires ReadValue(q, j).Some?
    ensures IsPair(ReadValue(q, j).value) <==> TwoItems(j)
  {
    if j.JObject? {
      TagsDiffer();
    }
  }

  /** The keys of a map are apart when the first items of its entries are. */
  lemma KeysApart(q: Quote, items: seq<Json>)
    requires ReadAll(q, items).Some? && AllPairs(ReadAll(q, items).value) && AllTwo(items)
    ensures Unique(q, PairKeys(ToPairs(ReadAll(q, items).value))) <==> Apart(q, Firsts(items))
  {
    var values := ReadAll(q, items).value;
    var texts := RawAll(q, PairKeys(ToPairs(values)));
    forall k | 0 <= k < |items|
      ensures ReadText(q, Firsts(items)[k]) == Some(texts[k])
    {
      assert IsPair(values[k]);
      FirstRead(q, items[k]);
    }
  }

  lemma FirstRead(q: Quote, j: Json)
    requires TwoItems(j) && ReadValue(q, j).Some? && IsPair(ReadValue(q, j).value)
    ensures ReadValue(q, j.items[0]) == Some(ReadValue(q, j).value.items[0])
  {
  }

  lemma {:induction false} TagLegible(q: Quote, member: (Text, Json))
    requires member.1.JArray? && member.0 in {HASH_SET, HASH_TUP, HASH_MAP}
    ensures ReadTagged(q, member).Some? <==> LegibleTag(q, member)
    decreases member, 1
  {
    AllLegible(q, member.1.items);
    if ReadAll(q, member.1.items).Some? {
      TagRead(q, member.0, member.1.items);
    }
  }

  /** What a tag asks of the items read under it. */
  lemma TagRead(q: Quote, tag: Text, items: seq<Json>)
    requires ReadAll(q, items).Some? && tag in {HASH_SET, HASH_TUP, HASH_MAP}
    ensures FromTag(q, tag, ReadAll(q, items).value).Some? <==>
      (tag == HASH_SET ==> Apart(q, items)) && (tag == HASH_MAP ==> AllTwo(items) && Apart(q, Firsts(items)))
  {
    TagsDiffer();
    if tag == HASH_SET {
      UniqueIsApart(q, items);
    } else if tag == HASH_MAP {
      PairsRead(q, items);
      if AllTwo(items) {
        KeysApart(q, items);
      }
    }
  }

  lemma {:induction false} MemberLegible(q: Quote, member: (Text, Json))
    ensures ReadMember(q, member).Some? <==> Legible(q, member.1)
    decreases member, 1
  {
    LegibleExactly(q, member.1);
  }

  lemma {:induction false} MembersLegible(q: Quote, members: seq<(Text, Json)>)
    ensures ReadMembers(q, members).Some? <==> forall m | m in members :: Legible(q, m.1)
    decreases members, 2
  {
    forall i | 0 <= i < |members|
      ensures ReadMember(q, members[i]).Some? <==> Legible(q, members[i].1)
    {
      MemberLegible(q, members[i]);
    }
    if ReadMembers(q, members).None? {
      var i :| 0 <= i < |members| && ReadMember(q, members[i]).None?;
      assert members[i] in members && !Legible(q, members[i].1);
    }
  }

  /** The ITF reader accepts exactly the trees its dialect can carry. */
  lemma {:induction false} LegibleExactly(q: Quote, j: Json)
    ensures ReadValue(q, j).Some? <==> Legible(q, j)
    decreases j, 0
  {
    match j
    case JArray(items) => AllLegible(q, items);
    case JObject(members) =>
      TagsDiffer();
      if |members| == 1 && members[0].0 in {HASH_SET, HASH_TUP, HASH_MAP} {
        if members[0].1.JArray? {
          TagLegible(q, members[0]);
        }
      } else if !Sole(members, HASH_BIGINT) {
        MembersLegible(q, members);
      } else {
        assert members[0] in members;
      }
    case _ =>
  }

  // ---------------------------------------------------------------- decoding is reading and keeping

  /** The replay value of an ITF value: tuples and maps have none. */
  function Replayed(v: ItfValue): Option<Value>
    decreases v, 0
  {
    match v
    case INull => Some(Null)
    case IBoolean(b) => Some(Boolean(b))
    case IInteger(n) => Some(Integer(IntText(n)))
    case IText(t) => Some(Str(t))
    case ISequence(items) => (match ReplayedAll(items) case None => None case Some(xs) => Some(Sequence(xs)))
    case ISet(items) => (match ReplayedAll(items) case None => None case Some(xs) => Some(Set(xs)))
    case IRecord(fields) => (match ReplayedFields(fields) case None => None case Some(fs) => Some(Record(fs)))
    case ITuple(_) => None
    case IMap(_) => None
  }

  function ReplayedAll(items: seq<ItfValue>): Option<seq<Value>>
    decreases items, 1
  {
    if |items| == 0 then Some([])
    else
      var first, rest := Replayed(items[0]), ReplayedAll(items[1..]);
      if first.None? || rest.None? then None else Some([first.value] + rest.value)
  }

  function ReplayedField(field: (Text, ItfValue)): Option<(Text, Value)>
    decreases field, 1
  {
    match Replayed(field.1)
    case None => None
    case Some(x) => Some((field.0, x))
  }

  function ReplayedFields(fields: seq<(Text, ItfValue)>): Option<seq<(Text, Value)>>
    decreases fields, 1
  {
    if |fields| == 0 then Some([])
    else
      var first, rest := ReplayedField(fields[0]), ReplayedFields(fields[1..]);
      if first.None? || rest.None? then None else Some([first.value] + rest.value)
  }

  /** Every bare number of the tree fits in 64 bits. */
  predicate BareInRange(j: Json)
    decreases j
  {
    match j
    case JNumber(lexeme) => IntSyntax(lexeme) ==> InInt64(IntValue(lexeme))
    case JArray(items) => forall i | i in items :: BareInRange(i)
    case JObject(members) => forall m | m in members :: BareInRange(m.1)
    case _ => true
  }

  function Kept<T>(ok: bool, x: Option<T>): Option<T> {
    if ok then x else None
  }

  lemma {:induction false} AllKept(q: Quote, items: seq<Json>)
    requires ReadAll(q, items).Some?
    ensures DecodeAll(items) == Kept(forall i | i in items :: BareInRange(i), ReplayedAll(ReadAll(q, items).value))
    decreases items, 1
  {
    if |items| > 0 {
      assert items == [items[0]] + items[1..];
      DecodesAsRead(q, items[0]);
      AllKept(q, items[1..]);
      assert ReadAll(q, items).value[1..] == ReadAll(q, items[1..]).value;
    }
  }

  lemma {:induction false} TagKept(q: Quote, member: (Text, Json))
    requires member.1.JArray? && ReadAll(q, member.1.items).Some?
    ensures DecodeAll(member.1.items) ==
      Kept(BareInRange(member.1), ReplayedAll(ReadAll(q, member.1.items).value))
    decreases member, 1
  {
    AllKept(q, member.1.items);
  }

  lemma {:induction false} MemberKept(q: Quote, member: (Text, Json))
    requires ReadMember(q, member).Some?
    ensures DecodeMember(member) == Kept(BareInRange(member.1), ReplayedField(ReadMember(q, member).value))
    decreases member, 1
  {
    DecodesAsRead(q, member.1);
  }

  lemma {:induction false} MembersKept(q: Quote, members: seq<(Text, Json)>)
    requires ReadMembers(q, members).Some?
    ensures DecodeMembers(members) ==
      Kept(forall m | m in members :: BareInRange(m.1), ReplayedFields(ReadMembers(q, members).value))
    decreases members, 2
  {
    if |members| > 0 {
      assert members == [members[0]] + members[1..];
      MemberKept(q, members[0]);
      MembersKept(q, members[1..]);
      assert ReadMembers(q, members).value[1..] == ReadMembers(q, members[1..]).value;
    }
  }

  /** Decoding a tree that `Itf.read` accepts is reading it and keeping the replay value of what is read, unless it
      has a bare number outside 64 bits: the two dialects agree on every value, and differ in tuples, maps and those
      numbers alone. */
  lemma {:induction false} DecodesAsRead(q: Quote, j: Json)
    requires ReadValue(q, j).Some?
    ensures DecodeValue(j) == Kept(BareInRange(j), Replayed(ReadValue(q, j).value))
    decreases j, 0
  {
    match j
    case JArray(items) => AllKept(q, items);
    case JObject(members) =>
      if Sole(members, HASH_BIGINT) {
        BigintKept(q, members);
      } else if |members| == 1 && members[0].0 in {HASH_SET, HASH_TUP, HASH_MAP} {
        assert members == [members[0]];
        TaggedKept(q, members[0]);
        assert BareInRange(j) <==> BareInRange(members[0].1);
      } else {
        RecordKept(q, members);
      }
    case _ =>
  }

  lemma BigintKept(q: Quote, members: seq<(Text, Json)>)
    requires Sole(members, HASH_BIGINT) && ReadValue(q, JObject(members)).Some?
    ensures DecodeValue(JObject(members)) ==
      Kept(BareInRange(JObject(members)), Replayed(ReadValue(q, JObject(members)).value))
  {
    TagsDiffer();
    SoleNames(members, HASH_BIGINT);
    SoleNames(members, HASH_SET);
    assert members[0] in members;
    CanonicalIntegerSpec(members[0].1.text);
  }

  lemma {:induction false} RecordKept(q: Quote, members: seq<(Text, Json)>)
    requires ReadValue(q, JObject(members)).Some? && !Sole(members, HASH_BIGINT)
    requires !(|members| == 1 && members[0].0 in {HASH_SET, HASH_TUP, HASH_MAP})
    ensures DecodeValue(JObject(members)) ==
      Kept(BareInRange(JObject(members)), Replayed(ReadValue(q, JObject(members)).value))
    decreases members, 3
  {
    NoTags(members);
    MembersKept(q, members);
  }

  lemma {:induction false} TaggedKept(q: Quote, member: (Text, Json))
    requires member.0 in {HASH_SET, HASH_TUP, HASH_MAP} && ReadValue(q, JObject([member])).Some?
    ensures DecodeValue(JObject([member])) ==
      Kept(BareInRange(member.1), Replayed(ReadValue(q, JObject([member])).value))
    decreases member, 3
  {
    TaggedShape(q, member);
    TagKept(q, member);
    assert BareInRange(member.1) <==> forall i | i in member.1.items :: BareInRange(i);
  }

  lemma TaggedShape(q: Quote, member: (Text, Json))
    requires member.0 in {HASH_SET, HASH_TUP, HASH_MAP} && ReadValue(q, JObject([member])).Some?
    ensures member.1.JArray? && ReadAll(q, member.1.items).Some?
    ensures
      var values := ReadAll(q, member.1.items).value;
      ReadValue(q, JObject([member])) == FromTag(q, member.0, values)
      && (member.0 == HASH_SET ==> ReadValue(q, JObject([member])) == Some(ISet(values)))
      && (member.0 != HASH_SET ==> Replayed(ReadValue(q, JObject([member])).value) == None)
    ensures DecodeValue(JObject([member])) == if member.0 == HASH_SET then DecodeSet(member) else None
  {
    var members := [member];
    TagsDiffer();
    SoleNames(members, HASH_BIGINT);
    SoleNames(members, HASH_SET);
    assert member in members;
  }
}
