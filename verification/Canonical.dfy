/** The canonical replay encoding of `QuintReplay`: values, their text, and what the text means. */
module Canonical {
  import opened Text
  import opened Sorting
  import opened Json

  /** Null strings and null collections are not part of the model. */
  datatype Value =
    | Null
    | Boolean(value: bool)
    | Integer(digits: Text)
    | Str(text: Text)
    | Sequence(items: seq<Value>)
    | Set(items: seq<Value>)
    | Record(fields: seq<(Text, Value)>)

  // ---------------------------------------------------------------- escapeJson

  function HexUnit(n: nat): Unit
    requires n < 16
  {
    if n < 10 then (0x30 + n) as Unit else (0x61 + n - 10) as Unit
  }

  function EscapeUnit(u: Unit): Text {
    if u == 0x22 then [0x5c, 0x22]
    else if u == 0x5c then [0x5c, 0x5c]
    else if u == 0x08 then [0x5c, 0x62]
    else if u == 0x0c then [0x5c, 0x66]
    else if u == 0x0a then [0x5c, 0x6e]
    else if u == 0x0d then [0x5c, 0x72]
    else if u == 0x09 then [0x5c, 0x74]
    else if u < 0x20 then [0x5c, 0x75, 0x30, 0x30, HexUnit(u as int / 16), HexUnit(u as int % 16)]
    else [u]
  }

  function Escape(s: Text): Text {
    if |s| == 0 then [] else EscapeUnit(s[0]) + Escape(s[1..])
  }

  function EscapeJson(s: Text): Text {
    [0x22] + Escape(s) + [0x22]
  }

  lemma {:induction false} EscapeAppend(s: Text, u: Unit)
    ensures Escape(s + [u]) == Escape(s) + EscapeUnit(u)
  {
    if |s| == 0 {
      assert ([] + [u])[1..] == [];
    } else {
      EscapeAppend(s[1..], u);
      assert (s + [u])[1..] == s[1..] + [u];
      Associative(EscapeUnit(s[0]), Escape(s[1..]), EscapeUnit(u));
    }
  }

  lemma Associative(a: Text, b: Text, c: Text)
    ensures (a + b) + c == a + (b + c)
  {
  }

  /** One round of the loop: what is appended for a character. */
  method Append(builder: Text, character: Unit) returns (longer: Text)
    ensures longer == builder + EscapeUnit(character)
  {
    match character {
      case 0x22 => longer := builder + [0x5c, 0x22];
      case 0x5c => longer := builder + [0x5c, 0x5c];
      case 0x08 => longer := builder + [0x5c, 0x62];
      case 0x0c => longer := builder + [0x5c, 0x66];
      case 0x0a => longer := builder + [0x5c, 0x6e];
      case 0x0d => longer := builder + [0x5c, 0x72];
      case 0x09 => longer := builder + [0x5c, 0x74];
      case _ =>
        if character < 0x20 {
          longer := builder + [0x5c, 0x75, 0x30, 0x30, HexUnit(character as int / 16), HexUnit(character as int % 16)];
        } else {
          longer := builder + [character];
        }
    }
  }

  /** The loop over the string builder. */
  method EscapeJsonLoop(value: Text) returns (text: Text)
    ensures text == EscapeJson(value)
    ensures forall rest: Text :: ParseString(text + rest) == Some((value, rest))
  {
    var builder: Text := [0x22];
    for i := 0 to |value|
      invariant builder == [0x22] + Escape(value[..i])
    {
      EscapeAppend(value[..i], value[i]);
      assert value[..i] + [value[i]] == value[..i + 1];
      Associative([0x22], Escape(value[..i]), EscapeUnit(value[i]));
      builder := Append(builder, value[i]);
    }
    assert value[..|value|] == value;
    text := builder + [0x22];
    forall rest: Text
      ensures ParseString(text + rest) == Some((value, rest))
    {
      ParseEscapeJson(value, rest);
    }
  }

  // Each escape reads back as the unit it stands for.

  lemma HexRoundTrip(n: nat)
    requires n < 16
    ensures HexDigit(HexUnit(n)) == Some(n)
  {
  }

  lemma ParseEscapedUnit(u: Unit, tail: Text)
    ensures ParseChars(EscapeUnit(u) + tail) == Prepend(u, ParseChars(tail))
  {
    var e := EscapeUnit(u);
    var s := e + tail;
    if |e| == 2 {
      assert s[1..][1..] == tail;
    } else if |e| == 6 {
      HexRoundTrip(u as int / 16);
      HexRoundTrip(u as int % 16);
      assert s[1..][5..] == tail;
      assert ParseEscape(s[1..]) == Some((u, tail));
    } else {
      assert s[1..] == tail;
    }
  }

  lemma {:induction false} ParseEscapedText(s: Text, rest: Text)
    ensures ParseChars(Escape(s) + ([0x22] + rest)) == Some((s, rest))
  {
    var close := [0x22] + rest;
    if |s| == 0 {
      assert Escape(s) + close == close && close[1..] == rest;
    } else {
      ParseEscapedText(s[1..], rest);
      ParseEscapedUnit(s[0], Escape(s[1..]) + close);
      Associative(EscapeUnit(s[0]), Escape(s[1..]), close);
      assert s == [s[0]] + s[1..];
    }
  }

  /** `escapeJson` prints a JSON string that denotes its argument, for every string, whatever follows. */
  lemma ParseEscapeJson(s: Text, rest: Text)
    ensures ParseString(EscapeJson(s) + rest) == Some((s, rest))
  {
    ParseEscapedText(s, rest);
    assert (EscapeJson(s) + rest)[1..] == Escape(s) + ([0x22] + rest);
  }

  /** No JSON string that reads as the text is shorter than its escape. */
  lemma EscapeShortest(s: Text, t: Text)
    requires ParseString(t) == Some((s, []))
    ensures |EscapeJson(s)| <= |t|
  {
    EscapeCharsShortest(s, t[1..]);
  }

  lemma {:induction false} EscapeCharsShortest(s: Text, t: Text)
    requires ParseChars(t) == Some((s, []))
    ensures |Escape(s)| + 1 <= |t|
    decreases |t|
  {
    if t[0] == 0x5c {
      var (u, rest) := ParseEscape(t[1..]).value;
      EscapeCharsShortest(s[1..], rest);
    } else if t[0] != 0x22 {
      EscapeCharsShortest(s[1..], t[1..]);
    }
  }

  /** A control character's escape has no upper-case letter. */
  lemma EscapeLowerCase(u: Unit, x: Unit)
    requires u < 0x20 && x in EscapeUnit(u)
    ensures !(0x41 <= x <= 0x5a)
  {
  }

  lemma EscapeJsonQuotes()
    ensures Quotes(EscapeJson)
  {
    forall t: Text, rest: Text | ValidUnicode(t)
      ensures ParseString(EscapeJson(t) + rest) == Some((t, rest))
    {
      ParseEscapeJson(t, rest);
    }
  }

  // ---------------------------------------------------------------- encodeAt

  const HASH_SET: Text := [0x23, 0x73, 0x65, 0x74]

  const SET_OPEN: Text := [0x7b, 0x22, 0x23, 0x73, 0x65, 0x74, 0x22, 0x3a, 0x5b]

  predicate GoodName(name: Text) {
    !Blank(name) && ValidUnicode(name)
  }

  /** `encodeAt`; the diagnostics of a refused value are not modelled, only that it is refused. */
  function Encode(v: Value): Option<Text>
    decreases v, 0
  {
    match v
    case Null => Some([0x6e, 0x75, 0x6c, 0x6c])
    case Boolean(b) => Some(if b then [0x74, 0x72, 0x75, 0x65] else [0x66, 0x61, 0x6c, 0x73, 0x65])
    case Integer(digits) => CanonicalInteger(digits)
    case Str(t) => if ValidUnicode(t) then Some(EscapeJson(t)) else None
    case Sequence(items) =>
      (match EncodeAll(items)
       case None => None
       case Some(encoded) => Some([0x5b] + Join(encoded) + [0x5d]))
    case Set(items) =>
      (match EncodeAll(items)
       case None => None
       case Some(encoded) =>
         var canonical := SortTexts(encoded);
         if !Distinct(canonical) then None else Some(SET_OPEN + Join(canonical) + [0x5d, 0x7d]))
    case Record(fields) =>
      if !Distinct(Names(fields)) || exists f | f in fields :: !GoodName(f.0) then None
      else
        match EncodeFields(fields)
        case None => None
        case Some(encoded) => Some([0x7b] + Join(MemberTexts(SortPairs(encoded))) + [0x7d])
  }

  /** `collect` over the encodings of a list: every one of them, or nothing. */
  function EncodeAll(items: seq<Value>): (r: Option<seq<Text>>)
    ensures r.Some? ==> |r.value| == |items|
    ensures r.Some? ==> forall i | 0 <= i < |items| :: Encode(items[i]) == Some(r.value[i])
    ensures r.None? ==> exists i :: 0 <= i < |items| && Encode(items[i]).None?
    decreases items, 1
  {
    if |items| == 0 then Some([])
    else
      var first := Encode(items[0]);
      var rest := EncodeAll(items[1..]);
      if first.None? then None
      else if rest.None? then
        var i :| 0 <= i < |items[1..]| && Encode(items[1..][i]).None?;
        assert Encode(items[i + 1]).None?;
        None
      else Some([first.value] + rest.value)
  }

  function EncodeField(field: (Text, Value)): (r: Option<(Text, Text)>)
    ensures r == match Encode(field.1) case None => None case Some(t) => Some((field.0, t))
    decreases field, 1
  {
    match Encode(field.1)
    case None => None
    case Some(t) => Some((field.0, t))
  }

  /** The source sorts the fields first and encodes them in that order; both orders give the same text. */
  function EncodeFields(fields: seq<(Text, Value)>): (r: Option<seq<(Text, Text)>>)
    ensures r.Some? ==> |r.value| == |fields|
    ensures r.Some? ==> forall i | 0 <= i < |fields| :: EncodeField(fields[i]) == Some(r.value[i])
    ensures r.None? ==> exists i :: 0 <= i < |fields| && EncodeField(fields[i]).None?
    decreases fields, 1
  {
    if |fields| == 0 then Some([])
    else
      var first := EncodeField(fields[0]);
      var rest := EncodeFields(fields[1..]);
      if first.None? then None
      else if rest.None? then
        var i :| 0 <= i < |fields[1..]| && EncodeField(fields[1..][i]).None?;
        assert EncodeField(fields[i + 1]).None?;
        None
      else Some([first.value] + rest.value)
  }

  lemma EncodedNames(fields: seq<(Text, Value)>)
    requires EncodeFields(fields).Some?
    ensures Names(EncodeFields(fields).value) == Names(fields)
  {
    var ps := EncodeFields(fields).value;
    forall i | 0 <= i < |fields|
      ensures ps[i].0 == fields[i].0
    {
      assert EncodeField(fields[i]) == Some(ps[i]);
    }
  }

  function MemberTexts(pairs: seq<(Text, Text)>): (r: seq<Text>)
    ensures |r| == |pairs|
    ensures forall i | 0 <= i < |pairs| :: r[i] == EscapeJson(pairs[i].0) + [0x3a] + pairs[i].1
  {
    seq(|pairs|, i requires 0 <= i < |pairs| => EscapeJson(pairs[i].0) + [0x3a] + pairs[i].1)
  }

  // ---------------------------------------------------------------- the tree a value denotes

  /** The JSON tree the canonical text of a value denotes. */
  function Tree(v: Value): Json
    decreases v, 0
  {
    match v
    case Null => JNull
    case Boolean(b) => JBool(b)
    case Integer(digits) => JNumber(if IntSyntax(digits) then IntText(IntValue(digits)) else [])
    case Str(t) => JString(t)
    case Sequence(items) => JArray(Trees(items))
    case Set(items) => SetTree(Trees(items))
    case Record(fields) => JObject(SortPairs(FieldTrees(fields)))
  }

  function Trees(items: seq<Value>): (r: seq<Json>)
    ensures |r| == |items|
    ensures forall i | 0 <= i < |items| :: r[i] == Tree(items[i])
    decreases items, 1
  {
    if |items| == 0 then [] else [Tree(items[0])] + Trees(items[1..])
  }

  function FieldTree(field: (Text, Value)): (r: (Text, Json))
    ensures r == (field.0, Tree(field.1))
    decreases field, 1
  {
    (field.0, Tree(field.1))
  }

  function FieldTrees(fields: seq<(Text, Value)>): (r: seq<(Text, Json)>)
    ensures |r| == |fields|
    ensures forall i | 0 <= i < |fields| :: r[i] == FieldTree(fields[i])
    decreases fields, 1
  {
    if |fields| == 0 then [] else [FieldTree(fields[0])] + FieldTrees(fields[1..])
  }

  /** Trees paired with their printed text, so that they can be sorted by it. */
  function ByText(q: Quote, trees: seq<Json>): (r: seq<(Text, Json)>)
    ensures |r| == |trees|
    ensures forall i | 0 <= i < |trees| :: r[i] == (Print(q, trees[i]), trees[i])
  {
    seq(|trees|, i requires 0 <= i < |trees| => (Print(q, trees[i]), trees[i]))
  }

  function Payloads<T>(pairs: seq<(Text, T)>): (r: seq<T>)
    ensures |r| == |pairs|
    ensures forall i | 0 <= i < |pairs| :: r[i] == pairs[i].1
  {
    seq(|pairs|, i requires 0 <= i < |pairs| => pairs[i].1)
  }

  function InTextOrder(q: Quote, trees: seq<Json>): (r: seq<Json>) {
    Payloads(SortPairs(ByText(q, trees)))
  }

  function SetTree(trees: seq<Json>): Json {
    JObject([(HASH_SET, JArray(InTextOrder(EscapeJson, trees)))])
  }

  // ---------------------------------------------------------------- the text is the printed tree

  lemma {:induction false} JoinIsItems(q: Quote, texts: seq<Text>, trees: seq<Json>)
    requires |texts| == |trees| && forall i | 0 <= i < |texts| :: texts[i] == Print(q, trees[i])
    ensures Join(texts) == PrintItems(q, trees)
  {
    if |texts| > 1 {
      JoinIsItems(q, texts[1..], trees[1..]);
    }
  }

  lemma {:induction false} JoinIsMembers(q: Quote, texts: seq<Text>, members: seq<(Text, Json)>)
    requires |texts| == |members| && forall i | 0 <= i < |texts| :: texts[i] == PrintMember(q, members[i])
    ensures Join(texts) == PrintMembers(q, members)
  {
    if |texts| > 1 {
      JoinIsMembers(q, texts[1..], members[1..]);
    }
  }

  lemma OneMember(q: Quote, name: Text, items: seq<Json>)
    ensures Print(q, JObject([(name, JArray(items))])) ==
        ([0x7b] + q(name) + [0x3a, 0x5b]) + PrintItems(q, items) + [0x5d, 0x7d]
  {
    var member := (name, JArray(items));
    assert PrintMembers(q, [member]) == PrintMember(q, member);
    assert PrintMember(q, member) == q(name) + [0x3a] + ([0x5b] + PrintItems(q, items) + [0x5d]);
  }

  lemma SetFrame(items: seq<Json>)
    ensures Print(EscapeJson, JObject([(HASH_SET, JArray(items))])) ==
        SET_OPEN + PrintItems(EscapeJson, items) + [0x5d, 0x7d]
  {
    var open := [0x7b] + EscapeJson(HASH_SET) + [0x3a, 0x5b];
    assert Print(EscapeJson, JObject([(HASH_SET, JArray(items))])) ==
      open + PrintItems(EscapeJson, items) + [0x5d, 0x7d] by {
      OneMember(EscapeJson, HASH_SET, items);
    }
    assert open == SET_OPEN by {
      EscapeHashSet();
    }
  }

  lemma JoinInTextOrder(q: Quote, texts: seq<Text>, trees: seq<Json>)
    requires |texts| == |trees| && forall i | 0 <= i < |texts| :: texts[i] == Print(q, trees[i])
    ensures Join(SortTexts(texts)) == PrintItems(q, InTextOrder(q, trees))
  {
    var pairs := ByText(q, trees);
    SortTextsOfPairs(texts, pairs);
    SortPermutes(pairs);
    var sorted := SortPairs(pairs);
    forall i | 0 <= i < |sorted|
      ensures Names(sorted)[i] == Print(q, Payloads(sorted)[i])
    {
      SortMember(pairs, i);
    }
    JoinIsItems(q, SortTexts(texts), Payloads(sorted));
  }

  lemma SetText(texts: seq<Text>, trees: seq<Json>)
    requires |texts| == |trees| && forall i | 0 <= i < |texts| :: texts[i] == Print(EscapeJson, trees[i])
    ensures SET_OPEN + Join(SortTexts(texts)) + [0x5d, 0x7d] == Print(EscapeJson, SetTree(trees))
  {
    JoinInTextOrder(EscapeJson, texts, trees);
    SetFrame(InTextOrder(EscapeJson, trees));
  }

  lemma InTextOrderMembers(q: Quote, trees: seq<Json>, t: Json)
    ensures t in InTextOrder(q, trees) <==> t in trees
  {
    var pairs := ByText(q, trees);
    var sorted := SortPairs(pairs);
    SortPermutes(pairs);
    if t in trees {
      var i :| 0 <= i < |trees| && trees[i] == t;
      assert pairs[i] in sorted;
      var k :| 0 <= k < |sorted| && sorted[k] == pairs[i];
      assert Payloads(sorted)[k] == t;
    }
    if t in Payloads(sorted) {
      var k :| 0 <= k < |sorted| && Payloads(sorted)[k] == t;
      assert sorted[k] in pairs;
    }
  }

  lemma EscapeCons(u: Unit, rest: Text)
    requires 0x20 < u < 0x7f && u != 0x22 && u != 0x5c
    ensures Escape([u] + rest) == [u] + Escape(rest)
  {
    assert ([u] + rest)[1..] == rest;
  }

  lemma EscapeHashSet()
    ensures EscapeJson(HASH_SET) == [0x22, 0x23, 0x73, 0x65, 0x74, 0x22]
  {
    EscapeCons(0x23, [0x73] + ([0x65] + ([0x74] + [])));
    EscapeCons(0x73, [0x65] + ([0x74] + []));
    EscapeCons(0x65, [0x74] + []);
    EscapeCons(0x74, []);
    assert HASH_SET == [0x23] + ([0x73] + ([0x65] + ([0x74] + [])));
  }

  /** An accepted value's text is the compact print of its tree, and the tree is printable. */
  lemma {:induction false} EncodeIsPrint(v: Value)
    requires Encode(v).Some?
    ensures Encode(v).value == Print(EscapeJson, Tree(v))
    ensures Printable(Tree(v))
    decreases v, 0
  {
    match v
    case Integer(digits) =>
      CanonicalIntegerSpec(digits);
      IntegerText(IntValue(digits));
    case Sequence(items) =>
      EncodeAllIsPrint(items);
      JoinIsItems(EscapeJson, EncodeAll(items).value, Trees(items));
    case Set(items) =>
      EncodeAllIsPrint(items);
      SetText(EncodeAll(items).value, Trees(items));
      SetPrintable(Trees(items));
    case Record(fields) =>
      EncodeFieldsIsPrint(fields);
      RecordText(EncodeFields(fields).value, FieldTrees(fields));
    case _ =>
  }

  lemma IntegerText(n: int)
    ensures IntegerLexeme(IntText(n))
  {
    if n < 0 {
      NatTextValue(-n);
      assert IntText(n)[1..] == NatText(-n);
    } else {
      NatTextValue(n);
      assert NatText(n)[0] in NatText(n);
    }
  }

  lemma {:induction false} EncodeAllIsPrint(items: seq<Value>)
    requires EncodeAll(items).Some?
    ensures forall i | 0 <= i < |items| :: EncodeAll(items).value[i] == Print(EscapeJson, Trees(items)[i])
    ensures forall t | t in Trees(items) :: Printable(t)
    decreases items, 1
  {
    forall i | 0 <= i < |items|
      ensures EncodeAll(items).value[i] == Print(EscapeJson, Trees(items)[i]) && Printable(Trees(items)[i])
    {
      EncodeIsPrint(items[i]);
    }
  }

  lemma {:induction false} EncodeFieldIsPrint(field: (Text, Value))
    requires EncodeField(field).Some?
    ensures EncodeField(field).value == (field.0, Print(EscapeJson, FieldTree(field).1))
    ensures Printable(FieldTree(field).1)
    decreases field, 1
  {
    EncodeIsPrint(field.1);
  }

  lemma {:induction false} EncodeFieldsIsPrint(fields: seq<(Text, Value)>)
    requires EncodeFields(fields).Some? && forall f | f in fields :: GoodName(f.0)
    ensures forall i | 0 <= i < |fields| ::
      EncodeFields(fields).value[i] == (FieldTrees(fields)[i].0, Print(EscapeJson, FieldTrees(fields)[i].1))
    ensures forall t | t in FieldTrees(fields) :: ValidUnicode(t.0) && Printable(t.1)
    decreases fields, 2
  {
    forall i | 0 <= i < |fields|
      ensures EncodeFields(fields).value[i] == (FieldTrees(fields)[i].0, Print(EscapeJson, FieldTrees(fields)[i].1))
      ensures ValidUnicode(FieldTrees(fields)[i].0) && Printable(FieldTrees(fields)[i].1)
    {
      assert EncodeField(fields[i]) == Some(EncodeFields(fields).value[i]);
      assert FieldTree(fields[i]) == FieldTrees(fields)[i];
      assert fields[i] in fields;
      EncodeFieldIsPrint(fields[i]);
    }
  }

  lemma SetPrintable(trees: seq<Json>)
    requires forall t | t in trees :: Printable(t)
    ensures Printable(SetTree(trees))
  {
    forall t | t in InTextOrder(EscapeJson, trees)
      ensures Printable(t)
    {
      InTextOrderMembers(EscapeJson, trees, t);
    }
    assert Printable(JArray(InTextOrder(EscapeJson, trees)));
  }

  lemma RecordText(texts: seq<(Text, Text)>, members: seq<(Text, Json)>)
    requires |texts| == |members|
    requires forall i | 0 <= i < |texts| :: texts[i] == (members[i].0, Print(EscapeJson, members[i].1))
    requires forall m | m in members :: ValidUnicode(m.0) && Printable(m.1)
    ensures [0x7b] + Join(MemberTexts(SortPairs(texts))) + [0x7d] == Print(EscapeJson, JObject(SortPairs(members)))
    ensures Printable(JObject(SortPairs(members)))
  {
    SortRelated(texts, members, (text: Text, tree: Json) => text == Print(EscapeJson, tree));
    SortPermutes(members);
    JoinIsMembers(EscapeJson, MemberTexts(SortPairs(texts)), SortPairs(members));
  }
}
