/** JSON as RFC 8259 defines it (sections 2 to 7), on UTF-16 code units: a value parser written from the
    grammar, a compact printer, and the proof that the parser undoes the printer whatever text follows. */
module Json {
  import opened Text

  datatype Json =
    | JNull
    | JBool(value: bool)
    | JNumber(lexeme: Text)
    | JString(text: Text)
    | JArray(items: seq<Json>)
    | JObject(members: seq<(Text, Json)>)

  type Parsed<T> = Option<(T, Text)>

  // ---------------------------------------------------------------- the grammar (section 2)

  predicate IsSpace(u: Unit) {
    u == 0x20 || u == 0x09 || u == 0x0a || u == 0x0d
  }

  function SkipSpace(s: Text): (r: Text)
    ensures |r| <= |s|
  {
    if |s| > 0 && IsSpace(s[0]) then SkipSpace(s[1..]) else s
  }

  function Literal(word: Text, value: Json, s: Text): (r: Parsed<Json>)
    requires |word| > 0
    ensures r.Some? ==> |r.value.1| < |s|
  {
    if word <= s then Some((value, s[|word|..])) else None
  }

  // ---------------------------------------------------------------- numbers (section 6)

  function DigitsEnd(s: Text, i: nat): (r: nat)
    requires i <= |s|
    ensures i <= r <= |s|
    decreases |s| - i
  {
    if i < |s| && IsDigit(s[i]) then DigitsEnd(s, i + 1) else i
  }

  /** `int = zero / ( digit1-9 *DIGIT )`, starting at `i`. */
  function IntEnd(s: Text, i: nat): (r: Option<nat>)
    requires i <= |s|
    ensures r.Some? ==> i < r.value <= |s|
  {
    if i == |s| || !IsDigit(s[i]) then None
    else if s[i] == 0x30 then Some(i + 1)
    else Some(DigitsEnd(s, i + 1))
  }

  function FractionEnd(s: Text, i: nat): (r: Option<nat>)
    requires i <= |s|
    ensures r.Some? ==> i <= r.value <= |s|
  {
    if i == |s| || s[i] != 0x2e then Some(i)
    else
      var e := DigitsEnd(s, i + 1);
      if e == i + 1 then None else Some(e)
  }

  function ExponentEnd(s: Text, i: nat): (r: Option<nat>)
    requires i <= |s|
    ensures r.Some? ==> i <= r.value <= |s|
  {
    if i == |s| || (s[i] != 0x65 && s[i] != 0x45) then Some(i)
    else
      var k := if i + 1 < |s| && (s[i + 1] == 0x2b || s[i + 1] == 0x2d) then i + 2 else i + 1;
      var e := DigitsEnd(s, k);
      if e == k then None else Some(e)
  }

  function NumberEnd(s: Text): (r: Option<nat>)
    ensures r.Some? ==> 0 < r.value <= |s|
  {
    match IntEnd(s, if |s| > 0 && s[0] == 0x2d then 1 else 0)
    case None => None
    case Some(i) =>
      match FractionEnd(s, i)
      case None => None
      case Some(j) => ExponentEnd(s, j)
  }

  function ParseNumber(s: Text): (r: Parsed<Json>)
    ensures r.Some? ==> |r.value.1| < |s|
  {
    match NumberEnd(s)
    case None => None
    case Some(e) => Some((JNumber(s[..e]), s[e..]))
  }

  // ---------------------------------------------------------------- strings (section 7)

  function HexDigit(u: Unit): (r: Option<nat>)
    ensures r.Some? ==> r.value < 16
  {
    if 0x30 <= u <= 0x39 then Some(u as int - 0x30)
    else if 0x61 <= u <= 0x66 then Some(u as int - 0x61 + 10)
    else if 0x41 <= u <= 0x46 then Some(u as int - 0x41 + 10)
    else None
  }

  /** The unit an escape stands for, with what follows it; `s` starts after the reverse solidus. */
  function ParseEscape(s: Text): (r: Parsed<Unit>)
    ensures r.Some? ==> |r.value.1| < |s|
  {
    if |s| == 0 then None
    else if s[0] == 0x22 || s[0] == 0x5c || s[0] == 0x2f then Some((s[0], s[1..]))
    else if s[0] == 0x62 then Some((0x08, s[1..]))
    else if s[0] == 0x66 then Some((0x0c, s[1..]))
    else if s[0] == 0x6e then Some((0x0a, s[1..]))
    else if s[0] == 0x72 then Some((0x0d, s[1..]))
    else if s[0] == 0x74 then Some((0x09, s[1..]))
    else if s[0] == 0x75 && |s| >= 5 then
      match (HexDigit(s[1]), HexDigit(s[2]), HexDigit(s[3]), HexDigit(s[4]))
      case (Some(a), Some(b), Some(c), Some(d)) =>
        Some(((4096 * a + 256 * b + 16 * c + d) as Unit, s[5..]))
      case _ => None
    else None
  }

  /** The characters up to the closing quotation mark. */
  function ParseChars(s: Text): (r: Parsed<Text>)
    ensures r.Some? ==> |r.value.1| < |s|
    decreases |s|
  {
    if |s| == 0 then None
    else if s[0] == 0x22 then Some(([], s[1..]))
    else if s[0] == 0x5c then
      match ParseEscape(s[1..])
      case None => None
      case Some((u, rest)) => Prepend(u, ParseChars(rest))
    else if s[0] < 0x20 then None
    else Prepend(s[0], ParseChars(s[1..]))
  }

  function Prepend(u: Unit, r: Parsed<Text>): Parsed<Text> {
    match r
    case None => None
    case Some((t, rest)) => Some(([u] + t, rest))
  }

  function ParseString(s: Text): (r: Parsed<Text>)
    ensures r.Some? ==> |r.value.1| < |s|
  {
    if |s| == 0 || s[0] != 0x22 then None else ParseChars(s[1..])
  }

  // ---------------------------------------------------------------- values (sections 3 to 5)

  function ParseWord(s: Text): (r: Parsed<Json>)
    requires |s| > 0
    ensures r.Some? ==> |r.value.1| < |s|
  {
    if s[0] == 0x6e then Literal([0x6e, 0x75, 0x6c, 0x6c], JNull, s)
    else if s[0] == 0x74 then Literal([0x74, 0x72, 0x75, 0x65], JBool(true), s)
    else Literal([0x66, 0x61, 0x6c, 0x73, 0x65], JBool(false), s)
  }

  function ParseText(s: Text): (r: Parsed<Json>)
    ensures r.Some? ==> |r.value.1| < |s|
  {
    match ParseString(s)
    case None => None
    case Some((t, rest)) => Some((JString(t), rest))
  }

  function ParseArray(s: Text): (r: Parsed<Json>)
    requires |s| > 0
    ensures r.Some? ==> |r.value.1| < |s|
    decreases |s|, 1
  {
    var inner := SkipSpace(s[1..]);
    if |inner| > 0 && inner[0] == 0x5d then Some((JArray([]), inner[1..]))
    else
      match ParseItems(inner)
      case None => None
      case Some((items, rest)) => Some((JArray(items), rest))
  }

  function ParseObject(s: Text): (r: Parsed<Json>)
    requires |s| > 0
    ensures r.Some? ==> |r.value.1| < |s|
    decreases |s|, 1
  {
    var inner := SkipSpace(s[1..]);
    if |inner| > 0 && inner[0] == 0x7d then Some((JObject([]), inner[1..]))
    else
      match ParseMembers(inner)
      case None => None
      case Some((members, rest)) => Some((JObject(members), rest))
  }

  function ParseValue(s: Text): (r: Parsed<Json>)
    ensures r.Some? ==> |r.value.1| < |s|
    decreases |s|, 2
  {
    if |s| == 0 then None
    else if s[0] == 0x22 then ParseText(s)
    else if s[0] == 0x5b then ParseArray(s)
    else if s[0] == 0x7b then ParseObject(s)
    else if s[0] == 0x6e || s[0] == 0x74 || s[0] == 0x66 then ParseWord(s)
    else ParseNumber(s)
  }

  /** One or more values separated by commas, up to and including the closing bracket. */
  function ParseItems(s: Text): (r: Parsed<seq<Json>>)
    ensures r.Some? ==> |r.value.1| < |s|
    decreases |s|, 3
  {
    match ParseValue(s)
    case None => None
    case Some((item, rest)) =>
      var after := SkipSpace(rest);
      if |after| == 0 then None
      else if after[0] == 0x5d then Some(([item], after[1..]))
      else if after[0] == 0x2c then
        match ParseItems(SkipSpace(after[1..]))
        case None => None
        case Some((items, end)) => Some(([item] + items, end))
      else None
  }

  function ParseMember(s: Text): (r: Parsed<(Text, Json)>)
    ensures r.Some? ==> |r.value.1| < |s|
    decreases |s|, 3
  {
    match ParseString(s)
    case None => None
    case Some((name, rest)) =>
      var colon := SkipSpace(rest);
      if |colon| == 0 || colon[0] != 0x3a then None
      else
        match ParseValue(SkipSpace(colon[1..]))
        case None => None
        case Some((item, end)) => Some(((name, item), end))
  }

  function ParseMembers(s: Text): (r: Parsed<seq<(Text, Json)>>)
    ensures r.Some? ==> |r.value.1| < |s|
    decreases |s|, 4
  {
    match ParseMember(s)
    case None => None
    case Some((member, rest)) =>
      var after := SkipSpace(rest);
      if |after| == 0 then None
      else if after[0] == 0x7d then Some(([member], after[1..]))
      else if after[0] == 0x2c then
        match ParseMembers(SkipSpace(after[1..]))
        case None => None
        case Some((members, end)) => Some(([member] + members, end))
      else None
  }

  // ---------------------------------------------------------------- the compact printer

  /** How a string is quoted is a parameter: the repository quotes in two different ways. */
  type Quote = Text -> Text

  /** Whatever it escapes, a quoting function must print a JSON string that denotes its argument. */
  ghost predicate Quotes(q: Quote) {
    forall t, rest :: ValidUnicode(t) ==> ParseString(q(t) + rest) == Some((t, rest))
  }

  function Print(q: Quote, j: Json): Text
    decreases j, 0
  {
    match j
    case JNull => [0x6e, 0x75, 0x6c, 0x6c]
    case JBool(b) => if b then [0x74, 0x72, 0x75, 0x65] else [0x66, 0x61, 0x6c, 0x73, 0x65]
    case JNumber(lexeme) => lexeme
    case JString(t) => q(t)
    case JArray(items) => [0x5b] + PrintItems(q, items) + [0x5d]
    case JObject(members) => [0x7b] + PrintMembers(q, members) + [0x7d]
  }

  function PrintItems(q: Quote, items: seq<Json>): Text
    decreases items, 1
  {
    if |items| == 0 then []
    else if |items| == 1 then Print(q, items[0])
    else Print(q, items[0]) + [0x2c] + PrintItems(q, items[1..])
  }

  function PrintMember(q: Quote, member: (Text, Json)): Text
    decreases member, 1
  {
    q(member.0) + [0x3a] + Print(q, member.1)
  }

  function PrintMembers(q: Quote, members: seq<(Text, Json)>): Text
    decreases members, 1
  {
    if |members| == 0 then []
    else if |members| == 1 then PrintMember(q, members[0])
    else PrintMember(q, members[0]) + [0x2c] + PrintMembers(q, members[1..])
  }

  // ---------------------------------------------------------------- printable trees

  /** The integer lexemes: an optional minus, then zero alone or digits that do not start with zero. */
  predicate IntegerLexeme(s: Text) {
    var digits := if |s| > 0 && s[0] == 0x2d then s[1..] else s;
    |digits| > 0 && AllDigits(digits) && (digits[0] == 0x30 ==> |digits| == 1)
  }

  /** Numbers are integers and every string and name is well-formed Unicode. */
  predicate Printable(j: Json)
    decreases j, 0
  {
    match j
    case JNull => true
    case JBool(_) => true
    case JNumber(lexeme) => IntegerLexeme(lexeme)
    case JString(t) => ValidUnicode(t)
    case JArray(items) => forall item | item in items :: Printable(item)
    case JObject(members) => forall m | m in members :: ValidUnicode(m.0) && Printable(m.1)
  }

  /** What may follow a number without being read as part of it. */
  predicate Delimits(rest: Text) {
    |rest| == 0 || !(IsDigit(rest[0]) || rest[0] == 0x2e || rest[0] == 0x65 || rest[0] == 0x45)
  }

  // ---------------------------------------------------------------- parse after print

  lemma {:induction false} DigitsEndAt(s: Text, i: nat, e: nat)
    requires i <= e <= |s|
    requires forall k | i <= k < e :: IsDigit(s[k])
    requires e == |s| || !IsDigit(s[e])
    ensures DigitsEnd(s, i) == e
    decreases e - i
  {
    if i < e {
      DigitsEndAt(s, i + 1, e);
    }
  }

  lemma ParsePrintNumber(lexeme: Text, rest: Text)
    requires IntegerLexeme(lexeme) && Delimits(rest)
    ensures ParseNumber(lexeme + rest) == Some((JNumber(lexeme), rest))
    ensures lexeme[0] == 0x2d || IsDigit(lexeme[0])
  {
    var s := lexeme + rest;
    var e := |lexeme|;
    var i := if lexeme[0] == 0x2d then 1 else 0;
    var digits := lexeme[i..];
    assert digits[0] in digits && IsDigit(digits[0]) && s[i] == digits[0];
    assert s[..e] == lexeme && s[e..] == rest;
    assert e < |s| ==> s[e] == rest[0];
    if s[i] != 0x30 {
      forall k | i + 1 <= k < e
        ensures IsDigit(s[k])
      {
        assert s[k] == digits[k - i];
        assert digits[k - i] in digits;
      }
      DigitsEndAt(s, i + 1, e);
    }
    assert IntEnd(s, i) == Some(e);
    assert FractionEnd(s, e) == Some(e);
    assert ExponentEnd(s, e) == Some(e);
  }

  /** A printed value starts with its own kind of character: never white space, a comma or a closing bracket. */
  predicate Starts(j: Json, s: Text) {
    |s| > 0 &&
    match j
    case JNull => s[0] == 0x6e
    case JBool(b) => s[0] == if b then 0x74 else 0x66
    case JNumber(_) => s[0] == 0x2d || IsDigit(s[0])
    case JString(_) => s[0] == 0x22
    case JArray(_) => s[0] == 0x5b
    case JObject(_) => s[0] == 0x7b
  }

  lemma QuoteStarts(q: Quote, t: Text)
    requires Quotes(q) && ValidUnicode(t)
    ensures |q(t)| > 0 && q(t)[0] == 0x22
  {
    assert ParseString(q(t) + []) == Some((t, []));
    assert q(t) + [] == q(t);
  }

  lemma PrintStarts(q: Quote, j: Json)
    requires Quotes(q) && Printable(j)
    ensures Starts(j, Print(q, j))
  {
    match j
    case JNumber(lexeme) => ParsePrintNumber(lexeme, []);
    case JString(t) => QuoteStarts(q, t);
    case _ =>
  }

  // One step of the parser on each bracket.

  lemma ArrayStep(inner: Text, items: seq<Json>, rest: Text)
    requires |inner| > 0 && !IsSpace(inner[0]) && inner[0] != 0x5d
    requires ParseItems(inner) == Some((items, rest))
    ensures ParseArray([0x5b] + inner) == Some((JArray(items), rest))
  {
    assert ([0x5b] + inner)[1..] == inner;
  }

  lemma ObjectStep(inner: Text, members: seq<(Text, Json)>, rest: Text)
    requires |inner| > 0 && !IsSpace(inner[0]) && inner[0] != 0x7d
    requires ParseMembers(inner) == Some((members, rest))
    ensures ParseObject([0x7b] + inner) == Some((JObject(members), rest))
  {
    assert ([0x7b] + inner)[1..] == inner;
  }

  lemma EmptyStep(rest: Text)
    ensures ParseArray([0x5b, 0x5d] + rest) == Some((JArray([]), rest))
    ensures ParseObject([0x7b, 0x7d] + rest) == Some((JObject([]), rest))
  {
    assert ([0x5b, 0x5d] + rest)[1..] == [0x5d] + rest && ([0x5d] + rest)[1..] == rest;
    assert ([0x7b, 0x7d] + rest)[1..] == [0x7d] + rest && ([0x7d] + rest)[1..] == rest;
  }

  lemma ItemsStep(s: Text, item: Json, more: Text, items: seq<Json>, rest: Text)
    requires ParseValue(s) == Some((item, [0x2c] + more))
    requires |more| > 0 && !IsSpace(more[0]) && ParseItems(more) == Some((items, rest))
    ensures ParseItems(s) == Some(([item] + items, rest))
  {
    assert ([0x2c] + more)[1..] == more;
  }

  lemma LastItemStep(s: Text, item: Json, rest: Text)
    requires ParseValue(s) == Some((item, [0x5d] + rest))
    ensures ParseItems(s) == Some(([item], rest))
  {
    assert ([0x5d] + rest)[1..] == rest;
  }

  lemma MembersStep(s: Text, member: (Text, Json), more: Text, members: seq<(Text, Json)>, rest: Text)
    requires ParseMember(s) == Some((member, [0x2c] + more))
    requires |more| > 0 && !IsSpace(more[0]) && ParseMembers(more) == Some((members, rest))
    ensures ParseMembers(s) == Some(([member] + members, rest))
  {
    assert ([0x2c] + more)[1..] == more;
  }

  lemma LastMemberStep(s: Text, member: (Text, Json), rest: Text)
    requires ParseMember(s) == Some((member, [0x7d] + rest))
    ensures ParseMembers(s) == Some(([member], rest))
  {
    assert ([0x7d] + rest)[1..] == rest;
  }

  lemma ParsePrintScalar(q: Quote, j: Json, rest: Text)
    requires Quotes(q) && Printable(j) && !j.JArray? && !j.JObject?
    requires j.JNumber? ==> Delimits(rest)
    ensures ParseValue(Print(q, j) + rest) == Some((j, rest))
  {
    var s := Print(q, j) + rest;
    PrintStarts(q, j);
    match j
    case JNull =>
      assert s[4..] == rest;
    case JBool(b) =>
      assert s[if b then 4 else 5..] == rest;
    case JNumber(lexeme) =>
      ParsePrintNumber(lexeme, rest);
    case JString(t) =>
  }

  // How the printed text of a list splits at its first element.

  function ItemsText(q: Quote, items: seq<Json>, rest: Text): Text {
    PrintItems(q, items) + [0x5d] + rest
  }

  function MembersText(q: Quote, members: seq<(Text, Json)>, rest: Text): Text {
    PrintMembers(q, members) + [0x7d] + rest
  }

  lemma ArrayText(q: Quote, items: seq<Json>, rest: Text)
    ensures Print(q, JArray(items)) + rest ==
        if |items| == 0 then [0x5b, 0x5d] + rest else [0x5b] + ItemsText(q, items, rest)
  {
  }

  lemma ObjectText(q: Quote, members: seq<(Text, Json)>, rest: Text)
    ensures Print(q, JObject(members)) + rest ==
      if |members| == 0 then [0x7b, 0x7d] + rest else [0x7b] + MembersText(q, members, rest)
  {
  }

  lemma ItemsSplit(q: Quote, items: seq<Json>, rest: Text)
    requires Quotes(q) && |items| > 0
    requires forall item | item in items :: Printable(item)
    ensures ItemsText(q, items, rest) ==
      Print(q, items[0]) + if |items| == 1 then [0x5d] + rest else [0x2c] + ItemsText(q, items[1..], rest)
    ensures var s := ItemsText(q, items, rest); |s| > 0 && !IsSpace(s[0]) && s[0] != 0x5d
  {
    assert items[0] in items;
    PrintStarts(q, items[0]);
  }

  lemma MembersSplit(q: Quote, members: seq<(Text, Json)>, rest: Text)
    requires Quotes(q) && |members| > 0
    requires forall m | m in members :: ValidUnicode(m.0) && Printable(m.1)
    ensures MembersText(q, members, rest) ==
      PrintMember(q, members[0]) + if |members| == 1 then [0x7d] + rest else [0x2c] + MembersText(q, members[1..], rest)
    ensures var s := MembersText(q, members, rest); |s| > 0 && s[0] == 0x22
  {
    assert members[0] in members;
    QuoteStarts(q, members[0].0);
  }

  lemma MemberSplit(q: Quote, member: (Text, Json), rest: Text)
    ensures PrintMember(q, member) + rest == q(member.0) + ([0x3a] + (Print(q, member.1) + rest))
  {
  }

  lemma MemberStep(name: Text, quoted: Text, value: Text, j: Json, rest: Text)
    requires ParseString(quoted + ([0x3a] + value)) == Some((name, [0x3a] + value))
    requires |value| > 0 && !IsSpace(value[0]) && ParseValue(value) == Some((j, rest))
    ensures ParseMember(quoted + ([0x3a] + value)) == Some(((name, j), rest))
  {
    assert ([0x3a] + value)[1..] == value;
  }

  /** Parsing a printed value consumes exactly its text, whatever follows it, and recovers the value. */
  lemma {:induction false} ParsePrintValue(q: Quote, j: Json, rest: Text)
    requires Quotes(q) && Printable(j)
    requires j.JNumber? ==> Delimits(rest)
    ensures ParseValue(Print(q, j) + rest) == Some((j, rest))
    decreases j, 0
  {
    match j
    case JArray(items) => ParsePrintArray(q, items, rest);
    case JObject(members) => ParsePrintObject(q, members, rest);
    case _ => ParsePrintScalar(q, j, rest);
  }

  lemma {:induction false} ParsePrintArray(q: Quote, items: seq<Json>, rest: Text)
    requires Quotes(q)
    requires forall item | item in items :: Printable(item)
    ensures ParseValue(Print(q, JArray(items)) + rest) == Some((JArray(items), rest))
    decreases items, 2
  {
    ArrayText(q, items, rest);
    if |items| == 0 {
      EmptyStep(rest);
    } else {
      ItemsSplit(q, items, rest);
      ParsePrintItems(q, items, rest);
      ArrayStep(ItemsText(q, items, rest), items, rest);
    }
  }

  lemma {:induction false} ParsePrintObject(q: Quote, members: seq<(Text, Json)>, rest: Text)
    requires Quotes(q)
    requires forall m | m in members :: ValidUnicode(m.0) && Printable(m.1)
    ensures ParseValue(Print(q, JObject(members)) + rest) == Some((JObject(members), rest))
    decreases members, 3
  {
    ObjectText(q, members, rest);
    if |members| == 0 {
      EmptyStep(rest);
    } else {
      MembersSplit(q, members, rest);
      ParsePrintMembers(q, members, rest);
      ObjectStep(MembersText(q, members, rest), members, rest);
    }
  }

  lemma {:induction false} ParsePrintItems(q: Quote, items: seq<Json>, rest: Text)
    requires Quotes(q) && |items| > 0
    requires forall item | item in items :: Printable(item)
    ensures ParseItems(ItemsText(q, items, rest)) == Some((items, rest))
    decreases items, 1
  {
    var s := ItemsText(q, items, rest);
    ItemsSplit(q, items, rest);
    assert items[0] in items;
    if |items| == 1 {
      ParsePrintValue(q, items[0], [0x5d] + rest);
      LastItemStep(s, items[0], rest);
      assert items == [items[0]];
    } else {
      var more := ItemsText(q, items[1..], rest);
      ParsePrintValue(q, items[0], [0x2c] + more);
      ItemsSplit(q, items[1..], rest);
      ParsePrintItems(q, items[1..], rest);
      ItemsStep(s, items[0], more, items[1..], rest);
      assert items == [items[0]] + items[1..];
    }
  }

  lemma {:induction false} ParsePrintMember(q: Quote, member: (Text, Json), rest: Text)
    requires Quotes(q) && ValidUnicode(member.0) && Printable(member.1) && Delimits(rest)
    ensures ParseMember(PrintMember(q, member) + rest) == Some((member, rest))
    decreases member, 1
  {
    var value := Print(q, member.1) + rest;
    MemberSplit(q, member, rest);
    PrintStarts(q, member.1);
    ParsePrintValue(q, member.1, rest);
    MemberStep(member.0, q(member.0), value, member.1, rest);
  }

  lemma {:induction false} ParsePrintMembers(q: Quote, members: seq<(Text, Json)>, rest: Text)
    requires Quotes(q) && |members| > 0
    requires forall m | m in members :: ValidUnicode(m.0) && Printable(m.1)
    ensures ParseMembers(MembersText(q, members, rest)) == Some((members, rest))
    decreases members, 2
  {
    var s := MembersText(q, members, rest);
    MembersSplit(q, members, rest);
    assert members[0] in members;
    if |members| == 1 {
      ParsePrintMember(q, members[0], [0x7d] + rest);
      LastMemberStep(s, members[0], rest);
      assert members == [members[0]];
    } else {
      var more := MembersText(q, members[1..], rest);
      ParsePrintMember(q, members[0], [0x2c] + more);
      MembersSplit(q, members[1..], rest);
      ParsePrintMembers(q, members[1..], rest);
      MembersStep(s, members[0], more, members[1..], rest);
      assert members == [members[0]] + members[1..];
    }
  }

  /** Printing is injective on printable trees, whatever the quoting. */
  lemma PrintInjective(q: Quote, i: Json, j: Json)
    requires Quotes(q) && Printable(i) && Printable(j)
    requires Print(q, i) == Print(q, j)
    ensures i == j
  {
    ParsePrintValue(q, i, []);
    ParsePrintValue(q, j, []);
    assert Print(q, i) + [] == Print(q, j) + [];
  }
}
