/** Where the canonical text is not an identity, exactly: a record whose only field is `#set` can share its text
    with a set. `Untag` turns every such record into the set it imitates. */
module Tagging {
  import opened Text
  import opened Sorting
  import opened Canonical
  import opened Meaning

  function Untag(v: Value): Value
    decreases v, 0
  {
    match v
    case Sequence(items) => Sequence(UntagAll(items))
    case Set(items) => Set(UntagAll(items))
    case Record(fields) =>
      if Tagged(fields) then Set(UntagItems(fields[0])) else Record(UntagFields(fields))
    case _ => v
  }

  function UntagAll(items: seq<Value>): (r: seq<Value>)
    ensures |r| == |items|
    ensures forall i | 0 <= i < |items| :: r[i] == Untag(items[i])
    decreases items, 1
  {
    if |items| == 0 then [] else [Untag(items[0])] + UntagAll(items[1..])
  }

  function UntagItems(field: (Text, Value)): seq<Value>
    requires field.1.Sequence?
    decreases field, 1
  {
    UntagAll(field.1.items)
  }

  function UntagField(field: (Text, Value)): (Text, Value)
    decreases field, 1
  {
    (field.0, Untag(field.1))
  }

  function UntagFields(fields: seq<(Text, Value)>): (r: seq<(Text, Value)>)
    ensures |r| == |fields|
    ensures forall i | 0 <= i < |fields| :: r[i] == UntagField(fields[i])
    decreases fields, 1
  {
    if |fields| == 0 then [] else [UntagField(fields[0])] + UntagFields(fields[1..])
  }

  // ---------------------------------------------------------------- untagging keeps the text

  lemma {:induction false} UntagAllText(items: seq<Value>)
    requires EncodeAll(items).Some?
    ensures EncodeAll(UntagAll(items)) == EncodeAll(items)
    decreases items, 1
  {
    if |items| > 0 {
      UntagText(items[0]);
      UntagAllText(items[1..]);
      assert UntagAll(items)[1..] == UntagAll(items[1..]);
    }
  }

  lemma {:induction false} UntagFieldText(field: (Text, Value))
    requires EncodeField(field).Some?
    ensures EncodeField(UntagField(field)) == EncodeField(field)
    decreases field, 1
  {
    UntagText(field.1);
  }

  lemma {:induction false} UntagItemsText(field: (Text, Value))
    requires field.1.Sequence? && EncodeAll(field.1.items).Some?
    ensures EncodeAll(UntagItems(field)) == EncodeAll(field.1.items)
    decreases field, 1
  {
    UntagAllText(field.1.items);
  }

  lemma {:induction false} UntagFieldsText(fields: seq<(Text, Value)>)
    requires EncodeFields(fields).Some?
    ensures EncodeFields(UntagFields(fields)) == EncodeFields(fields)
    ensures Names(UntagFields(fields)) == Names(fields)
    decreases fields, 1
  {
    if |fields| > 0 {
      UntagFieldText(fields[0]);
      UntagFieldsText(fields[1..]);
      assert UntagFields(fields)[1..] == UntagFields(fields[1..]);
    }
  }

  lemma OneFieldText(text: Text)
    ensures [0x7b] + Join(MemberTexts(SortPairs([(HASH_SET, text)]))) + [0x7d] ==
      [0x7b, 0x22, 0x23, 0x73, 0x65, 0x74, 0x22, 0x3a] + text + [0x7d]
  {
    var pair := (HASH_SET, text);
    assert [pair][1..] == [];
    assert SortPairs<Text>([]) == [];
    assert SortPairs([pair]) == [pair];
    EscapeHashSet();
    assert MemberTexts([pair]) == [EscapeJson(HASH_SET) + [0x3a] + text];
  }

  lemma ImitatedText(fields: seq<(Text, Value)>)
    requires Encode(Record(fields)).Some? && Tagged(fields)
    ensures Encode(Record(fields)).value == SET_OPEN + Join(EncodeAll(fields[0].1.items).value) + [0x5d, 0x7d]
  {
    var body := Join(EncodeAll(fields[0].1.items).value);
    var text := [0x5b] + body + [0x5d];
    assert EncodeField(fields[0]) == Some((HASH_SET, text));
    assert EncodeFields(fields).value == [(HASH_SET, text)];
    OneFieldText(text);
    assert [0x7b, 0x22, 0x23, 0x73, 0x65, 0x74, 0x22, 0x3a] + ([0x5b] + body + [0x5d]) + [0x7d] ==
      SET_OPEN + body + [0x5d, 0x7d];
  }

  lemma AscendingSorts(texts: seq<Text>)
    requires Ascending(texts)
    ensures SortTexts(texts) == texts && Distinct(texts)
  {
    forall i, j | 0 <= i < j < |texts|
      ensures texts[i] != texts[j]
    {
      LessIrreflexive(texts[i]);
    }
    SortTextsSpec(texts);
    AscendingUnique(SortTexts(texts), texts);
  }

  lemma {:induction false} UntagTaggedText(fields: seq<(Text, Value)>)
    requires Encode(Record(fields)).Some? && Tagged(fields)
    ensures Encode(Set(UntagItems(fields[0]))) == Encode(Record(fields))
    decreases fields, 1
  {
    ImitatedText(fields);
    UntagItemsText(fields[0]);
    AscendingSorts(EncodeAll(fields[0].1.items).value);
  }

  lemma {:induction false} UntagRecordText(fields: seq<(Text, Value)>)
    requires Encode(Record(fields)).Some?
    ensures Encode(Record(UntagFields(fields))) == Encode(Record(fields))
    decreases fields, 2
  {
    UntagFieldsText(fields);
    forall f | f in UntagFields(fields)
      ensures GoodName(f.0)
    {
      var i :| 0 <= i < |fields| && UntagFields(fields)[i] == f;
      assert fields[i] in fields;
    }
  }

  /** Untagging keeps the canonical text. */
  lemma {:induction false} UntagText(v: Value)
    requires Encode(v).Some?
    ensures Encode(Untag(v)) == Encode(v)
    decreases v, 0
  {
    match v
    case Sequence(items) => UntagAllText(items);
    case Set(items) => UntagAllText(items);
    case Record(fields) =>
      if Tagged(fields) {
        UntagTaggedText(fields);
      } else {
        UntagRecordText(fields);
      }
    case _ =>
  }

  // ---------------------------------------------------------------- untagging leaves no tag

  lemma {:induction false} UntagFree(v: Value)
    requires Encode(v).Some?
    ensures TagFree(Untag(v))
    decreases v, 0
  {
    match v
    case Sequence(items) => UntagAllFree(items);
    case Set(items) => UntagAllFree(items);
    case Record(fields) =>
      if Tagged(fields) {
        UntagItemsFree(fields[0]);
      } else {
        UntagFieldsFree(fields);
        NotTagged(fields);
      }
    case _ =>
  }

  lemma {:induction false} UntagAllFree(items: seq<Value>)
    requires EncodeAll(items).Some?
    ensures forall x | x in UntagAll(items) :: TagFree(x)
    decreases items, 1
  {
    forall i | 0 <= i < |items|
      ensures TagFree(UntagAll(items)[i])
    {
      AllEncoded(items, items[i]);
      UntagFree(items[i]);
    }
  }

  lemma {:induction false} UntagItemsFree(field: (Text, Value))
    requires field.1.Sequence? && EncodeAll(field.1.items).Some?
    ensures forall x | x in UntagItems(field) :: TagFree(x)
    decreases field, 1
  {
    UntagAllFree(field.1.items);
  }

  lemma {:induction false} UntagFieldFree(field: (Text, Value))
    requires Encode(field.1).Some?
    ensures TagFree(UntagField(field).1)
    decreases field, 1
  {
    UntagFree(field.1);
  }

  lemma {:induction false} UntagFieldsFree(fields: seq<(Text, Value)>)
    requires EncodeFields(fields).Some?
    ensures forall f | f in UntagFields(fields) :: TagFree(f.1)
    decreases fields, 2
  {
    forall i | 0 <= i < |fields|
      ensures TagFree(UntagFields(fields)[i].1)
    {
      assert fields[i] in fields;
      FieldEncoded(fields, fields[i]);
      UntagFieldFree(fields[i]);
    }
  }

  lemma NotTagged(fields: seq<(Text, Value)>)
    requires EncodeFields(fields).Some? && !Tagged(fields)
    ensures !Tagged(UntagFields(fields))
  {
    if |fields| == 1 {
      assert UntagFields(fields)[0] == UntagField(fields[0]);
      FieldEncoded(fields, fields[0]);
      if fields[0].1.Sequence? {
        UntagAllText(fields[0].1.items);
      }
    }
  }

  // ---------------------------------------------------------------- untagging changes the meaning of a tag

  /** A value that untagging leaves the same had no tag to remove. */
  lemma {:induction false} UntagSame(v: Value)
    requires Encode(v).Some? && Same(v, Untag(v))
    ensures TagFree(v)
    decreases v, 0
  {
    match v
    case Sequence(items) => UntagSameItems(items);
    case Set(items) => UntagSameSet(items);
    case Record(fields) => UntagSameFields(fields);
    case _ =>
  }

  lemma {:induction false} UntagSameItems(items: seq<Value>)
    requires EncodeAll(items).Some? && forall i | 0 <= i < |items| :: Same(items[i], Untag(items[i]))
    ensures forall x | x in items :: TagFree(x)
    decreases items, 1
  {
    forall i | 0 <= i < |items|
      ensures TagFree(items[i])
    {
      AllEncoded(items, items[i]);
      UntagSame(items[i]);
    }
  }

  lemma {:induction false} UntagSameSet(items: seq<Value>)
    requires Encode(Set(items)).Some? && Same(Set(items), Set(UntagAll(items)))
    ensures forall x | x in items :: TagFree(x)
    decreases items, 1
  {
    forall i | 0 <= i < |items|
      ensures TagFree(items[i])
    {
      Covered(items, UntagAll(items), items[i]);
      UntagSameItem(items, items[i]);
    }
  }

  lemma {:induction false} UntagSameFields(fields: seq<(Text, Value)>)
    requires EncodeFields(fields).Some? && Same(Record(fields), Record(UntagFields(fields)))
    ensures forall f | f in fields :: TagFree(f.1)
    decreases fields, 2
  {
    forall i | 0 <= i < |fields|
      ensures TagFree(fields[i].1)
    {
      assert UntagFields(fields)[i] in UntagFields(fields) && fields[i] in fields;
      FieldEncoded(fields, fields[i]);
      UntagSameField(fields[i]);
    }
  }

  lemma {:induction false} UntagSameField(f: (Text, Value))
    requires Encode(f.1).Some? && Same(f.1, Untag(f.1))
    ensures TagFree(f.1)
    decreases f, 1
  {
    UntagSame(f.1);
  }

  lemma {:induction false} UntagSameItem(items: seq<Value>, x: Value)
    requires Encode(Set(items)).Some? && x in items
    requires exists y | y in UntagAll(items) :: Same(x, y)
    ensures TagFree(x)
    decreases x, 1
  {
    var j := UntaggedIndex(items, x);
    UntaggedIsItself(items, j, x);
    UntagSame(x);
  }

  lemma UntaggedIsItself(items: seq<Value>, j: nat, x: Value)
    requires Encode(Set(items)).Some? && x in items && j < |items| && Same(x, Untag(items[j]))
    ensures items[j] == x && Encode(x).Some?
  {
    var i :| 0 <= i < |items| && items[i] == x;
    assert items[j] in items;
    AllEncoded(items, items[j]);
    AllEncoded(items, x);
    UntagText(items[j]);
    SameText(x, Untag(items[j]));
    SetTextsDiffer(items, i, j);
  }

  lemma UntaggedIndex(items: seq<Value>, x: Value) returns (j: nat)
    requires exists y | y in UntagAll(items) :: Same(x, y)
    ensures j < |items| && Same(x, Untag(items[j]))
  {
    var y :| y in UntagAll(items) && Same(x, y);
    j :| 0 <= j < |items| && UntagAll(items)[j] == y;
  }

  /** The members of a set that encodes have different texts. */
  lemma SetTextsDiffer(items: seq<Value>, i: nat, j: nat)
    requires Encode(Set(items)).Some? && i < |items| && j < |items| && Encode(items[i]) == Encode(items[j])
    ensures i == j
  {
    EncodedDistinct(items);
    var ts := EncodeAll(items).value;
    assert Encode(items[i]) == Some(ts[i]) && Encode(items[j]) == Some(ts[j]);
    DistinctIndex(ts, i, j);
  }

  lemma EncodedDistinct(items: seq<Value>)
    requires Encode(Set(items)).Some?
    ensures EncodeAll(items).Some? && Distinct(EncodeAll(items).value)
  {
    SortTextsSpec(EncodeAll(items).value);
  }

  lemma DistinctIndex(ts: seq<Text>, i: nat, j: nat)
    requires Distinct(ts) && i < |ts| && j < |ts| && ts[i] == ts[j]
    ensures i == j
  {
  }

  /** The exact condition: the text of an accepted value decides the value, among accepted tag-free values,
      if and only if it has no tagged record itself. */
  lemma TextDecides(v: Value)
    requires Encode(v).Some?
    ensures TagFree(v) <==> forall w | TagFree(w) && Encode(w) == Encode(v) :: Same(v, w)
  {
    if TagFree(v) {
      forall w | TagFree(w) && Encode(w) == Encode(v)
        ensures Same(v, w)
      {
        TextIsIdentity(v, w);
      }
    } else {
      UntagText(v);
      UntagFree(v);
      if Same(v, Untag(v)) {
        UntagSame(v);
      }
    }
  }

  /** The collision itself: an empty set and the record that imitates it. */
  lemma Collision()
    ensures var a, b := Set([]), Record([(HASH_SET, Sequence([]))]);
      Encode(a).Some? && Encode(a) == Encode(b) && !Same(a, b)
  {
    var b := Record([(HASH_SET, Sequence([]))]);
    assert EncodeAll([]) == Some([]);
    AscendingSorts([]);
    assert Tagged(b.fields);
    assert GoodName(HASH_SET) by {
      assert !IsWhite(HASH_SET[0]) && HASH_SET[0] in HASH_SET;
      assert ValidUnicode(HASH_SET[4..]);
      assert ValidUnicode(HASH_SET[3..]);
      assert ValidUnicode(HASH_SET[2..]);
      assert ValidUnicode(HASH_SET[1..]);
    }
    assert EncodeField(b.fields[0]).Some?;
    assert EncodeFields(b.fields).Some?;
    assert Encode(b).Some?;
    UntagText(b);
    assert UntagItems(b.fields[0]) == [];
  }

  // ---------------------------------------------------------------- every value, imitations and all

  /** The text of any accepted value is what it says once imitations are read as sets: two accepted values share a text
      exactly when they are then the same. */
  lemma TextMeans(a: Value, b: Value)
    requires Encode(a).Some? && Encode(b).Some?
    ensures Encode(a) == Encode(b) <==> Same(Untag(a), Untag(b))
  {
    UntagText(a);
    UntagText(b);
    UntagFree(a);
    UntagFree(b);
    TextIsIdentity(Untag(a), Untag(b));
  }

  /** The values the encoder accepts: no two members of a set are the same once imitations are read as sets. */
  ghost predicate Accepted(v: Value)
    decreases v
  {
    match v
    case Integer(digits) => IntSyntax(digits)
    case Str(t) => ValidUnicode(t)
    case Sequence(items) => forall x | x in items :: Accepted(x)
    case Set(items) =>
      && (forall x | x in items :: Accepted(x))
      && forall i, j | 0 <= i < j < |items| :: !Same(Untag(items[i]), Untag(items[j]))
    case Record(fields) =>
      Distinct(Names(fields)) && forall f | f in fields :: !Blank(f.0) && ValidUnicode(f.0) && Accepted(f.1)
    case _ => true
  }

  lemma {:induction false} AcceptedItems(items: seq<Value>)
    ensures EncodeAll(items).Some? <==> forall x | x in items :: Accepted(x)
    decreases items, 1
  {
    forall x | x in items
      ensures Encode(x).Some? <==> Accepted(x)
    {
      EncoderAcceptsExactly(x);
    }
    if EncodeAll(items).Some? {
      forall x | x in items
        ensures Accepted(x)
      {
        AllEncoded(items, x);
      }
    } else {
      var i :| 0 <= i < |items| && Encode(items[i]).None?;
      assert items[i] in items && !Accepted(items[i]);
    }
  }

  lemma {:induction false} AcceptedField(f: (Text, Value))
    ensures EncodeField(f).Some? <==> Accepted(f.1)
    decreases f, 1
  {
    EncoderAcceptsExactly(f.1);
  }

  lemma {:induction false} AcceptedFields(fields: seq<(Text, Value)>)
    ensures EncodeFields(fields).Some? <==> forall f | f in fields :: Accepted(f.1)
    decreases fields, 2
  {
    forall f | f in fields
      ensures EncodeField(f).Some? <==> Accepted(f.1)
    {
      AcceptedField(f);
    }
    if EncodeFields(fields).Some? {
      forall f | f in fields
        ensures Accepted(f.1)
      {
        FieldEncoded(fields, f);
      }
    } else {
      var i :| 0 <= i < |fields| && EncodeField(fields[i]).None?;
      assert fields[i] in fields && !Accepted(fields[i].1);
    }
  }

  /** A set whose members encode is accepted exactly when their texts differ. */
  lemma MembersDiffer(items: seq<Value>)
    requires EncodeAll(items).Some?
    ensures Distinct(SortTexts(EncodeAll(items).value)) <==>
      forall i, j | 0 <= i < j < |items| :: !Same(Untag(items[i]), Untag(items[j]))
  {
    var ts := EncodeAll(items).value;
    SortTextsSpec(ts);
    forall i, j | 0 <= i < j < |items|
      ensures ts[i] == ts[j] <==> Same(Untag(items[i]), Untag(items[j]))
    {
      assert Encode(items[i]) == Some(ts[i]) && Encode(items[j]) == Some(ts[j]);
      TextMeans(items[i], items[j]);
    }
  }

  /** What the encoder accepts, exactly: every value is covered, and a set is refused exactly when two
      of its members are the same once imitations are read as sets, however they are spelled. */
  lemma {:induction false} EncoderAcceptsExactly(v: Value)
    ensures Encode(v).Some? <==> Accepted(v)
    decreases v, 0
  {
    match v
    case Integer(digits) => CanonicalIntegerSpec(digits);
    case Sequence(items) => AcceptedItems(items);
    case Set(items) =>
      AcceptedItems(items);
      if EncodeAll(items).Some? {
        MembersDiffer(items);
      }
    case Record(fields) => AcceptedFields(fields);
    case _ =>
  }

  // ---------------------------------------------------------------- values without imitations

  lemma {:induction false} UntagAllIdentity(items: seq<Value>)
    requires forall x | x in items :: TagFree(x)
    ensures UntagAll(items) == items
    decreases items, 1
  {
    forall i | 0 <= i < |items|
      ensures UntagAll(items)[i] == items[i]
    {
      assert items[i] in items;
      UntagIdentity(items[i]);
    }
  }

  lemma {:induction false} UntagFieldIdentity(field: (Text, Value))
    requires TagFree(field.1)
    ensures UntagField(field) == field
    decreases field, 1
  {
    UntagIdentity(field.1);
  }

  lemma {:induction false} UntagFieldsIdentity(fields: seq<(Text, Value)>)
    requires forall f | f in fields :: TagFree(f.1)
    ensures UntagFields(fields) == fields
    decreases fields, 2
  {
    forall i | 0 <= i < |fields|
      ensures UntagFields(fields)[i] == fields[i]
    {
      assert fields[i] in fields;
      UntagFieldIdentity(fields[i]);
    }
  }

  /** Without imitations there is nothing to untag. */
  lemma {:induction false} UntagIdentity(v: Value)
    requires TagFree(v)
    ensures Untag(v) == v
    decreases v, 0
  {
    match v
    case Sequence(items) => UntagAllIdentity(items);
    case Set(items) => UntagAllIdentity(items);
    case Record(fields) => UntagFieldsIdentity(fields);
    case _ =>
  }

  /** A set without imitations is refused exactly when a member is or two of them are the same, however spelled. */
  lemma SetAccepted(items: seq<Value>)
    requires TagFree(Set(items))
    ensures Encode(Set(items)).Some? <==>
      && (forall x | x in items :: Encode(x).Some?)
      && (forall i, j | 0 <= i < j < |items| :: !Same(items[i], items[j]))
  {
    EncoderAcceptsExactly(Set(items));
    forall x | x in items
      ensures Encode(x).Some? <==> Accepted(x)
      ensures Untag(x) == x
    {
      EncoderAcceptsExactly(x);
      UntagIdentity(x);
    }
  }
}
