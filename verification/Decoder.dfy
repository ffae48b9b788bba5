/** `decodeItfValue`: the schema-v1 decoder of JSON trees, and exactly when it undoes the encoder. */
module Decoder {
  import opened Text
  import opened Sorting
  import opened Json
  import opened Canonical
  import opened Meaning

  const HASH_BIGINT: Text := [0x23, 0x62, 0x69, 0x67, 0x69, 0x6e, 0x74]

  predicate Hashed(name: Text) {
    |name| > 0 && name[0] == 0x23
  }

  predicate InInt64(n: int) {
    -0x8000_0000_0000_0000 <= n < 0x8000_0000_0000_0000
  }

  function DecodeValue(j: Json): Option<Value>
    decreases j, 0
  {
    match j
    case JNull => Some(Null)
    case JBool(b) => Some(Boolean(b))
    case JString(t) => Some(Str(t))
    case JNumber(lexeme) =>
      if IntSyntax(lexeme) && InInt64(IntValue(lexeme)) then Some(Integer(IntText(IntValue(lexeme)))) else None
    case JArray(items) =>
      (match DecodeAll(items)
       case None => None
       case Some(values) => Some(Sequence(values)))
    case JObject(members) =>
      var bigint, set_ := HASH_BIGINT in Names(members), HASH_SET in Names(members);
      if bigint && !set_ && |members| == 1 && members[0].1.JString? then
        match CanonicalInteger(members[0].1.text)
        case None => None
        case Some(digits) => Some(Integer(digits))
      else if !bigint && set_ && |members| == 1 && members[0].1.JArray? then DecodeSet(members[0])
      else if bigint || set_ || exists m | m in members :: Hashed(m.0) then None
      else
        match DecodeMembers(members)
        case None => None
        case Some(fields) => Some(Record(fields))
  }

  function DecodeAll(items: seq<Json>): (r: Option<seq<Value>>)
    ensures r.Some? ==> |r.value| == |items|
    ensures r.Some? ==> forall i | 0 <= i < |items| :: DecodeValue(items[i]) == Some(r.value[i])
    ensures r.None? ==> exists i :: 0 <= i < |items| && DecodeValue(items[i]).None?
    decreases items, 1
  {
    if |items| == 0 then Some([])
    else
      var first := DecodeValue(items[0]);
      var rest := DecodeAll(items[1..]);
      if first.None? then None
      else if rest.None? then
        var i :| 0 <= i < |items[1..]| && DecodeValue(items[1..][i]).None?;
        assert DecodeValue(items[i + 1]).None?;
        None
      else Some([first.value] + rest.value)
  }

  function DecodeSet(member: (Text, Json)): (r: Option<Value>)
    requires member.1.JArray?
    decreases member, 1
  {
    match DecodeAll(member.1.items)
    case None => None
    case Some(values) => Some(Set(values))
  }

  function DecodeMember(member: (Text, Json)): (r: Option<(Text, Value)>)
    decreases member, 1
  {
    match DecodeValue(member.1)
    case None => None
    case Some(v) => Some((member.0, v))
  }

  function DecodeMembers(members: seq<(Text, Json)>): (r: Option<seq<(Text, Value)>>)
    ensures r.Some? ==> |r.value| == |members|
    ensures r.Some? ==> forall i | 0 <= i < |members| :: DecodeMember(members[i]) == Some(r.value[i])
    ensures r.None? ==> exists i :: 0 <= i < |members| && DecodeMember(members[i]).None?
    decreases members, 1
  {
    if |members| == 0 then Some([])
    else
      var first := DecodeMember(members[0]);
      var rest := DecodeMembers(members[1..]);
      if first.None? then None
      else if rest.None? then
        var i :| 0 <= i < |members[1..]| && DecodeMember(members[1..][i]).None?;
        assert DecodeMember(members[i + 1]).None?;
        None
      else Some([first.value] + rest.value)
  }

  // ---------------------------------------------------------------- what the schema-v1 text can carry

  /** No record of the value has a name that starts with `#`. */
  predicate Clean(v: Value)
    decreases v
  {
    match v
    case Sequence(items) => forall x | x in items :: Clean(x)
    case Set(items) => forall x | x in items :: Clean(x)
    case Record(fields) => forall f | f in fields :: !Hashed(f.0) && Clean(f.1)
    case _ => true
  }

  /** Every integer of the value fits in 64 bits. */
  predicate InRange(v: Value)
    decreases v
  {
    match v
    case Integer(digits) => IntSyntax(digits) && InInt64(IntValue(digits))
    case Sequence(items) => forall x | x in items :: InRange(x)
    case Set(items) => forall x | x in items :: InRange(x)
    case Record(fields) => forall f | f in fields :: InRange(f.1)
    case _ => true
  }

  lemma {:induction false} CleanIsTagFree(v: Value)
    requires Clean(v)
    ensures TagFree(v)
    decreases v
  {
    match v
    case Sequence(items) =>
      forall x | x in items
        ensures TagFree(x)
      {
        CleanIsTagFree(x);
      }
    case Set(items) =>
      forall x | x in items
        ensures TagFree(x)
      {
        CleanIsTagFree(x);
      }
    case Record(fields) =>
      assert |fields| == 1 ==> fields[0] in fields;
      forall f | f in fields
        ensures TagFree(f.1)
      {
        CleanIsTagFree(f.1);
      }
    case _ =>
  }

  /** The decoder never produces a `#` name: those are tags it interprets or refuses. */
  lemma {:induction false} DecodedClean(j: Json)
    requires DecodeValue(j).Some?
    ensures Clean(DecodeValue(j).value)
    decreases j, 0
  {
    match j
    case JArray(items) => DecodedAllClean(items);
    case JObject(members) =>
      if DecodeValue(j).value.Set? {
        DecodedSetClean(members[0]);
      } else if DecodeValue(j).value.Record? {
        DecodedMembersClean(members);
      }
    case _ =>
  }

  lemma {:induction false} DecodedAllClean(items: seq<Json>)
    requires DecodeAll(items).Some?
    ensures forall x | x in DecodeAll(items).value :: Clean(x)
    decreases items, 1
  {
    forall i | 0 <= i < |items|
      ensures Clean(DecodeAll(items).value[i])
    {
      DecodedClean(items[i]);
    }
  }

  lemma {:induction false} DecodedSetClean(member: (Text, Json))
    requires member.1.JArray? && DecodeSet(member).Some?
    ensures Clean(DecodeSet(member).value)
    decreases member, 1
  {
    DecodedAllClean(member.1.items);
  }

  lemma {:induction false} DecodedMemberClean(member: (Text, Json))
    requires DecodeMember(member).Some?
    ensures Clean(DecodeMember(member).value.1)
    decreases member, 1
  {
    DecodedClean(member.1);
  }

  lemma {:induction false} DecodedMembersClean(members: seq<(Text, Json)>)
    requires DecodeMembers(members).Some? && forall m | m in members :: !Hashed(m.0)
    ensures forall f | f in DecodeMembers(members).value :: !Hashed(f.0) && Clean(f.1)
    decreases members, 2
  {
    var fields := DecodeMembers(members).value;
    forall i | 0 <= i < |members|
      ensures !Hashed(fields[i].0) && Clean(fields[i].1)
    {
      assert DecodeMember(members[i]) == Some(fields[i]);
      assert members[i] in members;
      DecodedMemberClean(members[i]);
    }
  }

  // ---------------------------------------------------------------- decode after encode

  lemma {:induction false} DecodedInRange(v: Value)
    requires Encode(v).Some? && DecodeValue(Tree(v)).Some?
    ensures InRange(v)
    decreases v, 0
  {
    match v
    case Integer(digits) =>
      CanonicalIntegerSpec(digits);
      IntTextValue(IntValue(digits));
    case Sequence(items) => DecodedAllInRange(items, Trees(items));
    case Set(items) => DecodedAllInRange(items, InTextOrder(EscapeJson, Trees(items)));
    case Record(fields) => DecodedFieldsInRange(fields);
    case _ =>
  }

  lemma {:induction false} DecodedAllInRange(items: seq<Value>, trees: seq<Json>)
    requires EncodeAll(items).Some? && DecodeAll(trees).Some?
    requires trees == Trees(items) || trees == InTextOrder(EscapeJson, Trees(items))
    ensures forall x | x in items :: InRange(x)
    decreases items, 1
  {
    forall x | x in items
      ensures InRange(x)
    {
      AllEncoded(items, x);
      TreesMember(items, Tree(x));
      InTextOrderMembers(EscapeJson, Trees(items), Tree(x));
      var k :| 0 <= k < |trees| && trees[k] == Tree(x);
      assert DecodeValue(trees[k]).Some?;
      DecodedInRange(x);
    }
  }

  lemma {:induction false} DecodedFieldInRange(f: (Text, Value))
    requires Encode(f.1).Some? && DecodeValue(Tree(f.1)).Some?
    ensures InRange(f.1)
    decreases f, 1
  {
    DecodedInRange(f.1);
  }

  lemma {:induction false} DecodedItemsInRange(f: (Text, Value))
    requires f.1.Sequence? && EncodeAll(f.1.items).Some? && DecodeAll(Trees(f.1.items)).Some?
    ensures InRange(f.1)
    decreases f, 1
  {
    DecodedAllInRange(f.1.items, Trees(f.1.items));
  }

  lemma SingleMember(fields: seq<(Text, Value)>)
    requires |fields| == 1
    ensures SortPairs(FieldTrees(fields)) == [FieldTree(fields[0])]
  {
    assert FieldTrees(fields) == [FieldTree(fields[0])];
    assert FieldTrees(fields)[1..] == [];
    assert SortPairs<Json>([]) == [];
  }

  lemma {:induction false} DecodedFieldsInRange(fields: seq<(Text, Value)>)
    requires Encode(Record(fields)).Some? && DecodeValue(JObject(SortPairs(FieldTrees(fields)))).Some?
    ensures forall f | f in fields :: InRange(f.1)
    decreases fields, 2
  {
    var members := SortPairs(FieldTrees(fields));
    SortPermutes(FieldTrees(fields));
    if DecodeMembers(members).Some? {
      forall f | f in fields
        ensures InRange(f.1)
      {
        FieldTreesMember(fields, FieldTree(f));
        var k :| 0 <= k < |members| && members[k] == FieldTree(f);
        assert DecodeMember(members[k]).Some?;
        FieldEncoded(fields, f);
        DecodedFieldInRange(f);
      }
    } else {
      SingleMember(fields);
      FieldEncoded(fields, fields[0]);
      if fields[0].1.Sequence? {
        DecodedItemsInRange(fields[0]);
      }
    }
  }

  lemma {:induction false} SameClean(a: Value, b: Value)
    requires Same(a, b) && Clean(b)
    ensures Clean(a)
    decreases a, 0
  {
    match a
    case Sequence(xs) => SameItemsClean(xs, b.items);
    case Set(xs) => SameSetClean(xs, b.items);
    case Record(fs) => SameFieldsClean(fs, b.fields);
    case _ =>
  }

  lemma {:induction false} SameItemsClean(xs: seq<Value>, ys: seq<Value>)
    requires |xs| == |ys| && forall i | 0 <= i < |xs| :: Same(xs[i], ys[i])
    requires forall y | y in ys :: Clean(y)
    ensures forall x | x in xs :: Clean(x)
    decreases xs, 1
  {
    forall i | 0 <= i < |xs|
      ensures Clean(xs[i])
    {
      SameClean(xs[i], ys[i]);
    }
  }

  lemma {:induction false} SameSetClean(xs: seq<Value>, ys: seq<Value>)
    requires Same(Set(xs), Set(ys)) && forall y | y in ys :: Clean(y)
    ensures forall x | x in xs :: Clean(x)
    decreases xs, 2
  {
    forall x | x in xs
      ensures Clean(x)
    {
      Covered(xs, ys, x);
      SameItemClean(ys, x);
    }
  }

  lemma {:induction false} SameItemClean(ys: seq<Value>, x: Value)
    requires HasSame(x, ys)
    requires forall y | y in ys :: Clean(y)
    ensures Clean(x)
    decreases x, 1
  {
    var y :| y in ys && Same(x, y);
    SameClean(x, y);
  }

  lemma {:induction false} SameFieldsClean(fs: seq<(Text, Value)>, gs: seq<(Text, Value)>)
    requires Same(Record(fs), Record(gs)) && Clean(Record(gs))
    ensures Clean(Record(fs))
    decreases fs, 2
  {
    forall f | f in fs
      ensures !Hashed(f.0) && Clean(f.1)
    {
      NamesMember(fs, f.0);
      NamesMember(gs, f.0);
      var g :| g in gs && g.0 == f.0;
      SameFieldClean(f, g);
    }
  }

  lemma {:induction false} SameFieldClean(f: (Text, Value), g: (Text, Value))
    requires Same(f.1, g.1) && Clean(g.1)
    ensures Clean(f.1)
    decreases f, 1
  {
    SameClean(f.1, g.1);
  }

  // Clean values in range come back.

  lemma {:induction false} RoundTrip(v: Value)
    requires Encode(v).Some? && Clean(v) && InRange(v)
    ensures DecodeValue(Tree(v)).Some? && Same(v, DecodeValue(Tree(v)).value)
    decreases v, 0
  {
    match v
    case Integer(digits) =>
      CanonicalIntegerSpec(digits);
      IntTextValue(IntValue(digits));
    case Sequence(items) => RoundTripAll(items);
    case Set(items) => RoundTripSet(items);
    case Record(fields) => RoundTripRecord(fields);
    case _ =>
  }

  lemma {:induction false} RoundTripAll(items: seq<Value>)
    requires EncodeAll(items).Some? && forall x | x in items :: Clean(x) && InRange(x)
    ensures DecodeAll(Trees(items)).Some?
    ensures forall i | 0 <= i < |items| :: Same(items[i], DecodeAll(Trees(items)).value[i])
    decreases items, 1
  {
    forall i | 0 <= i < |items|
      ensures DecodeValue(Trees(items)[i]).Some? && Same(items[i], DecodeValue(Trees(items)[i]).value)
    {
      AllEncoded(items, items[i]);
      RoundTrip(items[i]);
    }
  }

  lemma {:induction false} RoundTripSet(items: seq<Value>)
    requires EncodeAll(items).Some? && forall x | x in items :: Clean(x) && InRange(x)
    ensures var r := DecodeValue(SetTree(Trees(items))); r.Some? && Same(Set(items), r.value)
    decreases items, 2
  {
    RoundTripAll(items);
    var decoded := DecodeAll(Trees(items)).value;
    var values := SetDecodes(Trees(items), decoded);
    PermutedSame(items, decoded, values);
  }

  /** Set order changes nothing for decoding but the order. */
  lemma SetDecodes(trees: seq<Json>, decoded: seq<Value>) returns (values: seq<Value>)
    requires DecodeAll(trees) == Some(decoded)
    ensures DecodeValue(SetTree(trees)) == Some(Set(values))
    ensures forall v :: v in values <==> v in decoded
  {
    var ordered := InTextOrder(EscapeJson, trees);
    forall k | 0 <= k < |ordered|
      ensures DecodeValue(ordered[k]).Some?
    {
      InTextOrderMembers(EscapeJson, trees, ordered[k]);
      var i :| 0 <= i < |trees| && trees[i] == ordered[k];
    }
    values := DecodeAll(ordered).value;
    assert DecodeValue(SetTree(trees)) == DecodeSet((HASH_SET, JArray(ordered)));
    forall v
      ensures v in values <==> v in decoded
    {
      DecodedMember(ordered, values, v);
      DecodedMember(trees, decoded, v);
      if t :| t in ordered && DecodeValue(t) == Some(v) {
        InTextOrderMembers(EscapeJson, trees, t);
      }
      if t :| t in trees && DecodeValue(t) == Some(v) {
        InTextOrderMembers(EscapeJson, trees, t);
      }
    }
  }

  lemma DecodedMember(trees: seq<Json>, values: seq<Value>, v: Value)
    requires DecodeAll(trees) == Some(values)
    ensures v in values <==> exists t | t in trees :: DecodeValue(t) == Some(v)
  {
    if v in values {
      var i :| 0 <= i < |values| && values[i] == v;
      assert trees[i] in trees && DecodeValue(trees[i]) == Some(v);
    }
    if t :| t in trees && DecodeValue(t) == Some(v) {
      var i :| 0 <= i < |trees| && trees[i] == t;
      assert DecodeValue(trees[i]) == Some(values[i]);
    }
  }

  lemma PermutedSame(items: seq<Value>, decoded: seq<Value>, values: seq<Value>)
    requires |decoded| == |items| && forall i | 0 <= i < |items| :: Same(items[i], decoded[i])
    requires forall v :: v in values <==> v in decoded
    ensures Same(Set(items), Set(values))
  {
    forall x | x in items
      ensures HasSame(x, values)
    {
      var i :| 0 <= i < |items| && items[i] == x;
      assert decoded[i] in decoded && Same(x, decoded[i]);
    }
    forall y | y in values
      ensures SameIn(items, y)
    {
      var i :| 0 <= i < |decoded| && decoded[i] == y;
      assert items[i] in items && Same(items[i], y);
    }
    SetsSame(items, values);
  }

  lemma {:induction false} RoundTripField(f: (Text, Value))
    requires Encode(f.1).Some? && Clean(f.1) && InRange(f.1)
    ensures DecodeMember(FieldTree(f)).Some? && DecodeMember(FieldTree(f)).value.0 == f.0
    ensures Same(f.1, DecodeMember(FieldTree(f)).value.1)
    decreases f, 1
  {
    RoundTrip(f.1);
  }

  ghost predicate FieldsComeBack(fields: seq<(Text, Value)>) {
    && (forall f | f in fields :: DecodeMember(FieldTree(f)).Some? && DecodeMember(FieldTree(f)).value.0 == f.0)
    && (forall f | f in fields :: Same(f.1, DecodeMember(FieldTree(f)).value.1))
  }

  lemma {:induction false} RoundTripFields(fields: seq<(Text, Value)>)
    requires EncodeFields(fields).Some? && forall f | f in fields :: Clean(f.1) && InRange(f.1)
    ensures FieldsComeBack(fields)
    decreases fields, 2
  {
    forall f | f in fields
      ensures DecodeMember(FieldTree(f)).Some? && DecodeMember(FieldTree(f)).value.0 == f.0
      ensures Same(f.1, DecodeMember(FieldTree(f)).value.1)
    {
      FieldEncoded(fields, f);
      RoundTripField(f);
    }
  }

  lemma MembersDecode(fields: seq<(Text, Value)>)
    requires FieldsComeBack(fields) && forall f | f in fields :: !Hashed(f.0)
    ensures var members := SortPairs(FieldTrees(fields));
      && (forall m | m in members :: !Hashed(m.0)) && DecodeMembers(members).Some?
      && DecodeValue(JObject(members)) == Some(Record(DecodeMembers(members).value))
  {
    var members := SortPairs(FieldTrees(fields));
    forall m | m in members
      ensures DecodeMember(m).Some? && !Hashed(m.0)
    {
      FieldTreesMember(fields, m);
      var f :| f in fields && FieldTree(f) == m;
    }
    PlainDecodes(members);
  }

  lemma PlainDecodes(members: seq<(Text, Json)>)
    requires forall m | m in members :: DecodeMember(m).Some? && !Hashed(m.0)
    ensures DecodeMembers(members).Some?
    ensures DecodeValue(JObject(members)) == Some(Record(DecodeMembers(members).value))
  {
    NoTagName(members, HASH_BIGINT);
    NoTagName(members, HASH_SET);
    forall i | 0 <= i < |members|
      ensures DecodeMember(members[i]).Some?
    {
      assert members[i] in members;
    }
  }

  lemma {:induction false} RoundTripRecord(fields: seq<(Text, Value)>)
    requires Encode(Record(fields)).Some? && Clean(Record(fields)) && InRange(Record(fields))
    ensures var r := DecodeValue(JObject(SortPairs(FieldTrees(fields)))); r.Some? && Same(Record(fields), r.value)
    decreases fields, 3
  {
    RoundTripFields(fields);
    MembersDecode(fields);
    RecordCovers(fields);
  }

  lemma NoTagName(members: seq<(Text, Json)>, name: Text)
    requires Hashed(name) && forall m | m in members :: !Hashed(m.0)
    ensures name !in Names(members)
  {
    NamesMember(members, name);
  }

  lemma RecordCovers(fields: seq<(Text, Value)>)
    requires Distinct(Names(fields))
    requires DecodeMembers(SortPairs(FieldTrees(fields))).Some?
    requires FieldsComeBack(fields)
    ensures Same(Record(fields), Record(DecodeMembers(SortPairs(FieldTrees(fields))).value))
  {
    var members := SortPairs(FieldTrees(fields));
    var decoded := DecodeMembers(members).value;
    forall n
      ensures n in Names(fields) <==> n in Names(decoded)
    {
      DecodedName(fields, n);
    }
    forall f, g | f in fields && g in decoded && f.0 == g.0
      ensures Same(f.1, g.1)
    {
      DecodedFrom(fields, g);
      var h :| h in fields && DecodeMember(FieldTree(h)) == Some(g);
      SameField(fields, f, h);
    }
  }

  lemma DecodedFrom(fields: seq<(Text, Value)>, g: (Text, Value))
    requires DecodeMembers(SortPairs(FieldTrees(fields))).Some?
    ensures g in DecodeMembers(SortPairs(FieldTrees(fields))).value <==>
        exists h | h in fields :: DecodeMember(FieldTree(h)) == Some(g)
  {
    var members := SortPairs(FieldTrees(fields));
    var decoded := DecodeMembers(members).value;
    if g in decoded {
      var k :| 0 <= k < |decoded| && decoded[k] == g;
      FieldTreesMember(fields, members[k]);
    }
    if h :| h in fields && DecodeMember(FieldTree(h)) == Some(g) {
      FieldTreesMember(fields, FieldTree(h));
      var k :| 0 <= k < |members| && members[k] == FieldTree(h);
      assert DecodeMember(members[k]) == Some(decoded[k]);
    }
  }

  lemma DecodedName(fields: seq<(Text, Value)>, n: Text)
    requires DecodeMembers(SortPairs(FieldTrees(fields))).Some?
    requires forall f | f in fields :: DecodeMember(FieldTree(f)).Some? && DecodeMember(FieldTree(f)).value.0 == f.0
    ensures n in Names(fields) <==> n in Names(DecodeMembers(SortPairs(FieldTrees(fields))).value)
  {
    var decoded := DecodeMembers(SortPairs(FieldTrees(fields))).value;
    NamesMember(fields, n);
    NamesMember(decoded, n);
    if f :| f in fields && f.0 == n {
      DecodedFrom(fields, DecodeMember(FieldTree(f)).value);
    }
    if g :| g in decoded && g.0 == n {
      DecodedFrom(fields, g);
    }
  }

  /** Reading the canonical text back: an RFC 8259 parse, then `decodeItfValue`. */
  function DecodeText(t: Text): Option<Value> {
    match ParseValue(t)
    case None => None
    case Some((j, rest)) => if rest == [] then DecodeValue(j) else None
  }

  /** The schema-v1 decoder recovers an encoded value exactly when every integer fits in 64 bits and no record
      name starts with `#`: integers are printed bare, and `#` names are read as tags. */
  lemma DecodeUndoesEncode(v: Value)
    requires Encode(v).Some?
    ensures Clean(v) && InRange(v) <==> DecodeText(Encode(v).value).Some? && Same(v, DecodeText(Encode(v).value).value)
  {
    ParseEncoded(v, []);
    assert Encode(v).value + [] == Encode(v).value;
    assert DecodeText(Encode(v).value) == DecodeValue(Tree(v));
    if Clean(v) && InRange(v) {
      RoundTrip(v);
    } else if DecodeValue(Tree(v)).Some? && Same(v, DecodeValue(Tree(v)).value) {
      DecodedInRange(v);
      DecodedClean(Tree(v));
      SameClean(v, DecodeValue(Tree(v)).value);
    }
  }
}
