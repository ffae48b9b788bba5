/** The two codecs agree: a JSON tree that `Itf.read` accepts and the schema-v1 decoder decodes has a canonical
    replay encoding, except for one thing `Itf.read` lets through: blank record names. */
module Agreement {
  import opened Text
  import opened Sorting
  import opened Json
  import opened Canonical
  import opened Meaning
  import opened Tagging
  import opened Decoder
  import opened Itf

  /** No record of the value has a blank name. */
  predicate NoBlanks(v: Value)
    decreases v
  {
    match v
    case Sequence(items) => forall x | x in items :: NoBlanks(x)
    case Set(items) => forall x | x in items :: NoBlanks(x)
    case Record(fields) => forall f | f in fields :: !Blank(f.0) && NoBlanks(f.1)
    case _ => true
  }

  /** Both readers accept the tree. */
  predicate Both(q: Quote, limit: nat, j: Json) {
    Checked(limit, j) && ReadValue(q, j).Some? && DecodeValue(j).Some?
  }

  function Decoded(j: Json): Value
    requires DecodeValue(j).Some?
  {
    DecodeValue(j).value
  }

  function RawText(q: Quote, j: Json): Text
    requires ReadValue(q, j).Some?
  {
    RawCanonical(q, ReadValue(q, j).value)
  }

  // ---------------------------------------------------------------- what each shape was read from

  predicate OneArray(j: Json) {
    j.JObject? && |j.members| == 1 && j.members[0].1.JArray?
  }

  predicate OneString(j: Json) {
    j.JObject? && |j.members| == 1 && j.members[0].1.JString?
  }

  lemma SingleName(members: seq<(Text, Json)>, n: Text)
    requires |members| == 1
    ensures n in Names(members) <==> n == members[0].0
  {
    assert Names(members) == [members[0].0];
  }

  lemma DecodeShape(j: Json)
    requires DecodeValue(j).Some?
    ensures match DecodeValue(j).value
      case Null => j == JNull
      case Boolean(b) => j == JBool(b)
      case Str(t) => j == JString(t)
      case Integer(digits) =>
        (j.JNumber? && IntSyntax(j.lexeme) && digits == IntText(IntValue(j.lexeme)))
        || (OneString(j) && j.members[0].0 == HASH_BIGINT && CanonicalInteger(j.members[0].1.text) == Some(digits))
      case Sequence(items) => j.JArray? && DecodeAll(j.items) == Some(items)
      case Set(items) => OneArray(j) && j.members[0].0 == HASH_SET && DecodeAll(j.members[0].1.items) == Some(items)
      case Record(fields) =>
        j.JObject? && (forall m | m in j.members :: !Hashed(m.0)) && DecodeMembers(j.members) == Some(fields)
  {
    if j.JObject? && |j.members| == 1 {
      SingleName(j.members, HASH_BIGINT);
      SingleName(j.members, HASH_SET);
    }
    match j
    case JObject(members) =>
    case _ =>
  }

  lemma IntegerShape(q: Quote, limit: nat, j: Json)
    requires Both(q, limit, j) && Decoded(j).Integer?
    ensures IntSyntax(Decoded(j).digits)
    ensures ReadValue(q, j) == Some(IInteger(IntValue(Decoded(j).digits)))
  {
    DecodeShape(j);
    if j.JNumber? {
      IntTextValue(IntValue(j.lexeme));
    } else {
      CanonicalIntegerSpec(j.members[0].1.text);
      IntTextValue(IntValue(j.members[0].1.text));
    }
  }

  lemma SetShape(q: Quote, limit: nat, j: Json)
    requires Both(q, limit, j) && Decoded(j).Set?
    ensures OneArray(j)
    ensures var items := j.members[0].1.items;
      && (forall i | i in items :: Checked(limit, i)) && DecodeAll(items) == Some(Decoded(j).items)
      && ReadAll(q, items).Some? && ReadValue(q, j) == Some(ISet(ReadAll(q, items).value))
      && Unique(q, ReadAll(q, items).value)
  {
    DecodeShape(j);
    var member := j.members[0];
    assert member in j.members;
    assert Checked(limit, member.1);
    ReadTag(q, HASH_SET, member.1.items);
    assert j == TagTree(HASH_SET, member.1.items);
    assert HASH_TUP[1] == 0x74 && HASH_SET[1] == 0x73;
  }

  lemma SequenceShape(q: Quote, limit: nat, j: Json)
    requires Both(q, limit, j) && Decoded(j).Sequence?
    ensures j.JArray? && BothAll(q, limit, j.items)
    ensures DecodeAll(j.items).value == Decoded(j).items
    ensures ReadValue(q, j) == Some(ISequence(ReadAll(q, j.items).value))
  {
    DecodeShape(j);
  }

  lemma RecordShape(q: Quote, limit: nat, j: Json)
    requires Both(q, limit, j) && Decoded(j).Record?
    ensures j.JObject? && DecodeMembers(j.members) == Some(Decoded(j).fields)
    ensures BothMembers(q, limit, j.members)
    ensures ReadValue(q, j) == Some(IRecord(ReadMembers(q, j.members).value))
  {
    DecodeShape(j);
    PlainRecord(q, j.members);
  }

  lemma RecordRawText(q: Quote, j: Json)
    requires j.JObject? && ReadMembers(q, j.members).Some?
    requires ReadValue(q, j) == Some(IRecord(ReadMembers(q, j.members).value))
    ensures RawText(q, j) ==
        [0x7b] + Join(RawMembers(q, SortPairs(RawFields(q, ReadMembers(q, j.members).value)))) + [0x7d]
  {
  }

  // ---------------------------------------------------------------- the same value has the same raw text

  /** Trees that decode to the same replay value have the same raw canonical text. */
  lemma {:induction false} SameRaw(q: Quote, limit: nat, j: Json, k: Json)
    requires Both(q, limit, j) && Both(q, limit, k)
    requires Same(Decoded(j), Decoded(k))
    ensures RawText(q, j) == RawText(q, k)
    decreases j, 4
  {
    match Decoded(j)
    case Sequence(_) => SameRawSequence(q, limit, j, k);
    case Set(_) => SameRawTagged(q, limit, j, k);
    case Record(_) => SameRawObject(q, limit, j, k);
    case _ => SameRawScalar(q, limit, j, k);
  }

  lemma SameRawScalar(q: Quote, limit: nat, j: Json, k: Json)
    requires Both(q, limit, j) && Both(q, limit, k)
    requires Same(Decoded(j), Decoded(k))
    requires !Decoded(j).Sequence? && !Decoded(j).Set? && !Decoded(j).Record?
    ensures RawText(q, j) == RawText(q, k)
  {
    if Decoded(j).Integer? {
      IntegerShape(q, limit, j);
      IntegerShape(q, limit, k);
    } else {
      DecodeShape(j);
      DecodeShape(k);
    }
  }

  lemma {:induction false} SameRawSequence(q: Quote, limit: nat, j: Json, k: Json)
    requires Both(q, limit, j) && Both(q, limit, k)
    requires Same(Decoded(j), Decoded(k)) && Decoded(j).Sequence?
    ensures RawText(q, j) == RawText(q, k)
    decreases j, 3
  {
    SequenceShape(q, limit, j);
    SequenceShape(q, limit, k);
    SameRawItems(q, limit, j.items, k.items);
  }

  lemma {:induction false} SameRawTagged(q: Quote, limit: nat, j: Json, k: Json)
    requires Both(q, limit, j) && Both(q, limit, k)
    requires Same(Decoded(j), Decoded(k)) && Decoded(j).Set?
    ensures RawText(q, j) == RawText(q, k)
    decreases j, 3
  {
    SetRawText(q, limit, j);
    SetRawText(q, limit, k);
    SameRawSet(q, limit, j.members[0].1.items, k.members[0].1.items);
  }

  lemma SetRawText(q: Quote, limit: nat, j: Json)
    requires Both(q, limit, j) && Decoded(j).Set?
    ensures OneArray(j) && BothAll(q, limit, j.members[0].1.items)
    ensures
      var items := j.members[0].1.items;
      && Unique(q, ReadAll(q, items).value) && Decoded(j) == Set(DecodeAll(items).value)
      && RawText(q, j) == TaggedText(q, HASH_SET, SortTexts(RawAll(q, ReadAll(q, items).value)))
  {
    SetShape(q, limit, j);
  }

  lemma {:induction false} SameRawObject(q: Quote, limit: nat, j: Json, k: Json)
    requires Both(q, limit, j) && Both(q, limit, k)
    requires Same(Decoded(j), Decoded(k)) && Decoded(j).Record?
    ensures RawText(q, j) == RawText(q, k)
    decreases j, 3
  {
    RecordShape(q, limit, j);
    RecordShape(q, limit, k);
    var fs, gs := DecodeMembers(j.members).value, DecodeMembers(k.members).value;
    assert Decoded(j) == Record(fs) && Decoded(k) == Record(gs);
    SameRawRecord(q, limit, j.members, k.members);
    RecordRawText(q, j);
    RecordRawText(q, k);
  }

  lemma {:induction false} SameRawItems(q: Quote, limit: nat, xs: seq<Json>, ys: seq<Json>)
    requires BothAll(q, limit, xs) && BothAll(q, limit, ys)
    requires |xs| == |ys| && forall i | 0 <= i < |xs| :: Same(DecodeAll(xs).value[i], DecodeAll(ys).value[i])
    ensures RawAll(q, ReadAll(q, xs).value) == RawAll(q, ReadAll(q, ys).value)
    decreases xs, 1
  {
    forall i | 0 <= i < |xs|
      ensures RawAll(q, ReadAll(q, xs).value)[i] == RawAll(q, ReadAll(q, ys).value)[i]
    {
      SameRaw(q, limit, xs[i], ys[i]);
    }
  }

  /** Both readers accept every item; the raw texts of the items are the canonical texts `unique` compares. */
  predicate BothAll(q: Quote, limit: nat, xs: seq<Json>) {
    (forall x | x in xs :: Checked(limit, x)) && ReadAll(q, xs).Some? && DecodeAll(xs).Some?
  }

  lemma ItemBoth(q: Quote, limit: nat, xs: seq<Json>, i: nat)
    requires BothAll(q, limit, xs) && i < |xs|
    ensures Both(q, limit, xs[i]) && Decoded(xs[i]) == DecodeAll(xs).value[i]
    ensures RawText(q, xs[i]) == RawAll(q, ReadAll(q, xs).value)[i]
  {
    assert xs[i] in xs;
  }

  lemma {:induction false} SameRawSet(q: Quote, limit: nat, xs: seq<Json>, ys: seq<Json>)
    requires BothAll(q, limit, xs) && BothAll(q, limit, ys)
    requires Unique(q, ReadAll(q, xs).value) && Unique(q, ReadAll(q, ys).value)
    requires Same(Set(DecodeAll(xs).value), Set(DecodeAll(ys).value))
    ensures SortTexts(RawAll(q, ReadAll(q, xs).value)) == SortTexts(RawAll(q, ReadAll(q, ys).value))
    decreases xs, 2
  {
    var ts, us := RawAll(q, ReadAll(q, xs).value), RawAll(q, ReadAll(q, ys).value);
    forall i, k | 0 <= i < |xs| && 0 <= k < |ys| && Same(DecodeAll(xs).value[i], DecodeAll(ys).value[k])
      ensures ts[i] == us[k]
    {
      ItemBoth(q, limit, xs, i);
      ItemBoth(q, limit, ys, k);
      SameRaw(q, limit, xs[i], ys[k]);
    }
    SameMembers(DecodeAll(xs).value, DecodeAll(ys).value, ts, us);
    SameSorted(ts, us);
  }

  lemma SameSorted(ts: seq<Text>, us: seq<Text>)
    requires Distinct(ts) && Distinct(us) && forall t :: t in ts <==> t in us
    ensures SortTexts(ts) == SortTexts(us)
  {
    SortTextsSpec(ts);
    SortTextsSpec(us);
    AscendingUnique(SortTexts(ts), SortTexts(us));
  }

  lemma SameMembers(xs: seq<Value>, ys: seq<Value>, ts: seq<Text>, us: seq<Text>)
    requires |xs| == |ts| && |ys| == |us| && Same(Set(xs), Set(ys))
    requires forall i, k | 0 <= i < |xs| && 0 <= k < |ys| && Same(xs[i], ys[k]) :: ts[i] == us[k]
    ensures forall t :: t in ts <==> t in us
  {
    forall t
      ensures t in ts <==> t in us
    {
      if t in ts {
        CoveredTexts(xs, ys, ts, us, t);
      }
      if t in us {
        CoveredTextsBack(xs, ys, ts, us, t);
      }
    }
  }

  lemma CoveredTexts(xs: seq<Value>, ys: seq<Value>, ts: seq<Text>, us: seq<Text>, t: Text)
    requires |xs| == |ts| && |ys| == |us|
    requires Same(Set(xs), Set(ys))
    requires forall i, k | 0 <= i < |xs| && 0 <= k < |ys| && Same(xs[i], ys[k]) :: ts[i] == us[k]
    requires t in ts
    ensures t in us
  {
    var i :| 0 <= i < |ts| && ts[i] == t;
    var k := FindSame(xs, ys, xs[i]);
  }

  lemma CoveredTextsBack(xs: seq<Value>, ys: seq<Value>, ts: seq<Text>, us: seq<Text>, t: Text)
    requires |xs| == |ts| && |ys| == |us|
    requires Same(Set(xs), Set(ys))
    requires forall i, k | 0 <= i < |xs| && 0 <= k < |ys| && Same(xs[i], ys[k]) :: ts[i] == us[k]
    requires t in us
    ensures t in ts
  {
    var k :| 0 <= k < |us| && us[k] == t;
    var i := FindSameBack(xs, ys, ys[k]);
  }

  predicate BothMembers(q: Quote, limit: nat, ms: seq<(Text, Json)>) {
    && Distinct(Names(ms)) && (forall m | m in ms :: Checked(limit, m.1))
    && ReadMembers(q, ms).Some? && DecodeMembers(ms).Some?
  }

  lemma MemberBoth(q: Quote, limit: nat, ms: seq<(Text, Json)>, i: nat)
    requires BothMembers(q, limit, ms) && i < |ms|
    ensures Both(q, limit, ms[i].1)
    ensures DecodeMembers(ms).value[i] == (ms[i].0, Decoded(ms[i].1))
    ensures RawFields(q, ReadMembers(q, ms).value)[i] == (ms[i].0, RawText(q, ms[i].1))
  {
    assert ms[i] in ms;
    assert DecodeMember(ms[i]) == Some(DecodeMembers(ms).value[i]);
    assert ReadMember(q, ms[i]) == Some(ReadMembers(q, ms).value[i]);
    assert RawFields(q, ReadMembers(q, ms).value)[i] == RawField(q, ReadMembers(q, ms).value[i]);
  }

  lemma {:induction false} SameRawMember(q: Quote, limit: nat, m: (Text, Json), n: (Text, Json))
    requires Both(q, limit, m.1) && Both(q, limit, n.1) && Same(Decoded(m.1), Decoded(n.1))
    ensures RawText(q, m.1) == RawText(q, n.1)
    decreases m, 1
  {
    SameRaw(q, limit, m.1, n.1);
  }

  lemma {:induction false} SameRawRecord(q: Quote, limit: nat, ms: seq<(Text, Json)>, ns: seq<(Text, Json)>)
    requires BothMembers(q, limit, ms) && BothMembers(q, limit, ns)
    requires Same(Record(DecodeMembers(ms).value), Record(DecodeMembers(ns).value))
    ensures SortPairs(RawFields(q, ReadMembers(q, ms).value)) == SortPairs(RawFields(q, ReadMembers(q, ns).value))
    decreases ms, 2
  {
    var ps, rs := RawFields(q, ReadMembers(q, ms).value), RawFields(q, ReadMembers(q, ns).value);
    RecordNamesAgree(q, limit, ms);
    RecordNamesAgree(q, limit, ns);
    forall i, k | 0 <= i < |ms| && 0 <= k < |ns| && ms[i].0 == ns[k].0
      ensures ps[i] == rs[k]
    {
      MemberBoth(q, limit, ms, i);
      MemberBoth(q, limit, ns, k);
      assert DecodeMembers(ms).value[i] in DecodeMembers(ms).value;
      assert DecodeMembers(ns).value[k] in DecodeMembers(ns).value;
      SameRawMember(q, limit, ms[i], ns[k]);
    }
    SamePairs(ps, rs);
    SortUnique(ps, rs);
  }

  lemma RecordNamesAgree(q: Quote, limit: nat, ms: seq<(Text, Json)>)
    requires BothMembers(q, limit, ms)
    ensures Names(DecodeMembers(ms).value) == Names(ms) == Names(RawFields(q, ReadMembers(q, ms).value))
  {
    forall i | 0 <= i < |ms|
      ensures DecodeMembers(ms).value[i].0 == ms[i].0 == RawFields(q, ReadMembers(q, ms).value)[i].0
    {
      MemberBoth(q, limit, ms, i);
    }
  }

  lemma SamePairs(ps: seq<(Text, Text)>, rs: seq<(Text, Text)>)
    requires forall n :: n in Names(ps) <==> n in Names(rs)
    requires forall i, k | 0 <= i < |ps| && 0 <= k < |rs| && ps[i].0 == rs[k].0 :: ps[i] == rs[k]
    ensures forall p :: p in ps <==> p in rs
  {
    forall p
      ensures p in ps <==> p in rs
    {
      if p in ps {
        var i :| 0 <= i < |ps| && ps[i] == p;
        assert Names(ps)[i] in Names(rs);
        var k :| 0 <= k < |rs| && Names(rs)[k] == p.0;
        assert rs[k] == p;
      }
      if p in rs {
        var k :| 0 <= k < |rs| && rs[k] == p;
        assert Names(rs)[k] in Names(ps);
        var i :| 0 <= i < |ps| && Names(ps)[i] == p.0;
        assert ps[i] == p;
      }
    }
  }

  // ---------------------------------------------------------------- what is decoded can be encoded

  lemma {:induction false} DecodedAccepted(q: Quote, limit: nat, j: Json)
    requires Both(q, limit, j)
    ensures Accepted(Decoded(j)) <==> NoBlanks(Decoded(j))
    decreases j, 0
  {
    match Decoded(j)
    case Integer(_) => IntegerShape(q, limit, j);
    case Sequence(_) =>
      SequenceShape(q, limit, j);
      DecodedAllAccepted(q, limit, j.items);
    case Set(_) =>
      SetShape(q, limit, j);
      DecodedAllAccepted(q, limit, j.members[0].1.items);
      UniqueDecoded(q, limit, j.members[0].1.items);
    case Record(_) =>
      RecordShape(q, limit, j);
      DecodedMembersAccepted(q, limit, j.members);
    case _ => DecodeShape(j);
  }

  lemma {:induction false} DecodedAllAccepted(q: Quote, limit: nat, items: seq<Json>)
    requires BothAll(q, limit, items)
    ensures (forall x | x in DecodeAll(items).value :: Accepted(x)) <==>
        forall x | x in DecodeAll(items).value :: NoBlanks(x)
    decreases items, 1
  {
    forall i | 0 <= i < |items|
      ensures Accepted(DecodeAll(items).value[i]) <==> NoBlanks(DecodeAll(items).value[i])
    {
      ItemBoth(q, limit, items, i);
      DecodedAccepted(q, limit, items[i]);
    }
  }

  /** No decoded value imitates a set. */
  lemma DecodedUntagged(j: Json)
    requires DecodeValue(j).Some?
    ensures Untag(Decoded(j)) == Decoded(j)
  {
    DecodedClean(j);
    CleanIsTagFree(Decoded(j));
    UntagIdentity(Decoded(j));
  }

  lemma UniqueDecoded(q: Quote, limit: nat, items: seq<Json>)
    requires BothAll(q, limit, items) && Unique(q, ReadAll(q, items).value)
    ensures
      var xs := DecodeAll(items).value;
      forall i, k | 0 <= i < k < |xs| :: !Same(Untag(xs[i]), Untag(xs[k]))
  {
    var xs := DecodeAll(items).value;
    forall i, k | 0 <= i < k < |xs|
      ensures !Same(Untag(xs[i]), Untag(xs[k]))
    {
      DecodedUntagged(items[i]);
      DecodedUntagged(items[k]);
      ItemBoth(q, limit, items, i);
      ItemBoth(q, limit, items, k);
      if Same(xs[i], xs[k]) {
        SameRaw(q, limit, items[i], items[k]);
      }
    }
  }

  lemma {:induction false} DecodedMemberAccepted(q: Quote, limit: nat, m: (Text, Json))
    requires Both(q, limit, m.1)
    ensures Accepted(Decoded(m.1)) <==> NoBlanks(Decoded(m.1))
    decreases m, 1
  {
    DecodedAccepted(q, limit, m.1);
  }

  lemma {:induction false} DecodedMembersAccepted(q: Quote, limit: nat, ms: seq<(Text, Json)>)
    requires BothMembers(q, limit, ms) && forall m | m in ms :: ValidUnicode(m.0)
    ensures Accepted(Record(DecodeMembers(ms).value)) <==> NoBlanks(Record(DecodeMembers(ms).value))
    decreases ms, 2
  {
    var fields := DecodeMembers(ms).value;
    forall i | 0 <= i < |ms|
      ensures ValidUnicode(fields[i].0)
      ensures Accepted(fields[i].1) <==> NoBlanks(fields[i].1)
    {
      MemberBoth(q, limit, ms, i);
      assert ms[i] in ms;
      DecodedMemberAccepted(q, limit, ms[i]);
    }
    RecordNamesAgree(q, limit, ms);
    AllFields(fields);
  }

  lemma AllFields(fields: seq<(Text, Value)>)
    requires Distinct(Names(fields))
    requires forall i | 0 <= i < |fields| ::
        ValidUnicode(fields[i].0) && (Accepted(fields[i].1) <==> NoBlanks(fields[i].1))
    ensures Accepted(Record(fields)) <==> NoBlanks(Record(fields))
  {
    forall f | f in fields
      ensures ValidUnicode(f.0) && (Accepted(f.1) <==> NoBlanks(f.1))
    {
      var i :| 0 <= i < |fields| && fields[i] == f;
    }
  }

  /** The two codecs agree. Raw uniqueness is enough for canonical uniqueness, and the one thing the raw reader lets
      through that the encoder refuses is a blank record name. */
  lemma TwoCodecsAgree(q: Quote, limit: nat, j: Json)
    requires Both(q, limit, j)
    ensures Encode(Decoded(j)).Some? <==> NoBlanks(Decoded(j))
  {
    DecodedAccepted(q, limit, j);
    EncoderAcceptsExactly(Decoded(j));
  }
}
