/** Strings as the runtime sees them: sequences of UTF-16 code units, compared ordinally. */
module Text {
  newtype Unit = u: int | 0 <= u < 0x1_0000

  type Text = seq<Unit>

  datatype Option<+T> = None | Some(value: T)

  // ---------------------------------------------------------------- ordinal order

  /** `String.CompareOrdinal(a, b) < 0`. */
  predicate Less(a: Text, b: Text) {
    |b| > 0 && (|a| == 0 || a[0] < b[0] || (a[0] == b[0] && Less(a[1..], b[1..])))
  }

  lemma {:induction false} LessIrreflexive(a: Text)
    ensures !Less(a, a)
  {
    if |a| > 0 {
      LessIrreflexive(a[1..]);
    }
  }

  lemma {:induction false} LessTransitive(a: Text, b: Text, c: Text)
    requires Less(a, b) && Less(b, c)
    ensures Less(a, c)
  {
    if |a| > 0 && a[0] == b[0] && b[0] == c[0] {
      LessTransitive(a[1..], b[1..], c[1..]);
    }
  }

  lemma {:induction false} LessTotal(a: Text, b: Text)
    ensures Less(a, b) || a == b || Less(b, a)
  {
    if |a| > 0 && |b| > 0 && a[0] == b[0] {
      LessTotal(a[1..], b[1..]);
      assert a == [a[0]] + a[1..] && b == [b[0]] + b[1..];
    }
  }

  lemma LessAsymmetric(a: Text, b: Text)
    requires Less(a, b)
    ensures !Less(b, a)
  {
    if Less(b, a) {
      LessTransitive(a, b, a);
      LessIrreflexive(a);
    }
  }

  /** One text is less than another when it is a proper first part of it, or at the first place where they differ has
      the lesser unit. */
  lemma {:induction false} LessMeans(a: Text, b: Text)
    ensures Less(a, b) <==> exists k: nat :: LessAt(a, b, k)
  {
    if |a| > 0 && |b| > 0 && a[0] == b[0] {
      LessMeans(a[1..], b[1..]);
      if Less(a, b) {
        var k: nat :| LessAt(a[1..], b[1..], k);
        assert a[..k + 1] == [a[0]] + a[1..][..k] && b[..k + 1] == [b[0]] + b[1..][..k];
        assert LessAt(a, b, k + 1);
      }
      if k: nat :| LessAt(a, b, k) {
        assert k > 0;
        assert a[1..][..k - 1] == a[..k][1..] && b[1..][..k - 1] == b[..k][1..];
        assert LessAt(a[1..], b[1..], k - 1);
      }
    } else {
      if Less(a, b) {
        assert LessAt(a, b, 0);
      }
      if k: nat :| LessAt(a, b, k) {
        assert k > 0 ==> a[..k][0] == b[..k][0];
      }
    }
  }

  predicate LessAt(a: Text, b: Text, k: nat) {
    k <= |a| && k < |b| && a[..k] == b[..k] && (k == |a| || a[k] < b[k])
  }

  // ---------------------------------------------------------------- character classes

  /** `Char.IsWhiteSpace`. */
  predicate IsWhite(u: Unit) {
    0x09 <= u <= 0x0d || u == 0x20 || u == 0x85 || u == 0xa0 || u == 0x1680 || 0x2000 <= u <= 0x200a ||
    u == 0x2028 || u == 0x2029 || u == 0x202f || u == 0x205f || u == 0x3000
  }

  /** `String.IsNullOrWhiteSpace`. */
  predicate Blank(s: Text) {
    forall u | u in s :: IsWhite(u)
  }

  /** Every surrogate is half of a pair: the strict UTF-8 encoder accepts the string. */
  predicate ValidUnicode(s: Text) {
    |s| == 0 ||
    (if 0xd800 <= s[0] <= 0xdbff then |s| > 1 && 0xdc00 <= s[1] <= 0xdfff && ValidUnicode(s[2..])
     else !(0xdc00 <= s[0] <= 0xdfff) && ValidUnicode(s[1..]))
  }

  predicate HighSurrogate(u: Unit) {
    0xd800 <= u <= 0xdbff
  }

  predicate LowSurrogate(u: Unit) {
    0xdc00 <= u <= 0xdfff
  }

  /** The unit at the place is no surrogate, or half of a pair there. */
  predicate Paired(s: Text, i: nat)
    requires i < |s|
  {
    && (HighSurrogate(s[i]) ==> i + 1 < |s| && LowSurrogate(s[i + 1]))
    && (LowSurrogate(s[i]) ==> i > 0 && HighSurrogate(s[i - 1]))
  }

  /** A text is well-formed exactly when no surrogate in it is alone. */
  lemma {:induction false} ValidUnicodeMeans(s: Text)
    ensures ValidUnicode(s) <==> forall i | 0 <= i < |s| :: Paired(s, i)
    decreases |s|
  {
    if |s| > 0 {
      if HighSurrogate(s[0]) && |s| > 1 && LowSurrogate(s[1]) {
        ValidUnicodeMeans(s[2..]);
        PairedAfter(s, 2);
        assert Paired(s, 0) && Paired(s, 1);
      } else if !HighSurrogate(s[0]) && !LowSurrogate(s[0]) {
        ValidUnicodeMeans(s[1..]);
        PairedAfter(s, 1);
        assert Paired(s, 0);
      } else {
        assert !Paired(s, 0);
      }
    }
  }

  /** After a part that does not end in the first half of a pair, the places are paired as they are in the rest. */
  lemma PairedAfter(s: Text, n: nat)
    requires 0 < n <= |s| && !HighSurrogate(s[n - 1])
    ensures (forall i | 0 <= i < |s[n..]| :: Paired(s[n..], i)) <==> forall i | n <= i < |s| :: Paired(s, i)
  {
    forall i | n <= i < |s|
      ensures Paired(s, i) <==> Paired(s[n..], i - n)
    {
    }
    if forall i | n <= i < |s| :: Paired(s, i) {
      forall i | 0 <= i < |s[n..]|
        ensures Paired(s[n..], i)
      {
        assert Paired(s, i + n);
      }
    }
  }

  lemma {:induction false} AsciiValid(t: Text)
    requires forall u | u in t :: u < 0x80
    ensures ValidUnicode(t)
  {
    if |t| > 0 {
      assert t[0] in t;
      forall u | u in t[1..]
        ensures u < 0x80
      {
        assert u in t;
      }
      AsciiValid(t[1..]);
    }
  }

  // ---------------------------------------------------------------- decimal integers

  predicate IsDigit(u: Unit) {
    0x30 <= u <= 0x39
  }

  predicate AllDigits(s: Text) {
    forall u | u in s :: IsDigit(u)
  }

  function DigitsValue(s: Text): (n: nat)
    requires AllDigits(s)
  {
    if |s| == 0 then 0
    else
      assert IsDigit(s[|s| - 1]);
      10 * DigitsValue(s[..|s| - 1]) + (s[|s| - 1] as int - 0x30)
  }

  /** The syntax `BigInteger.TryParse` accepts under `NumberStyles.AllowLeadingSign`. */
  predicate IntSyntax(s: Text) {
    |s| > 0 &&
    var digits := if s[0] == 0x2b || s[0] == 0x2d then s[1..] else s;
    |digits| > 0 && AllDigits(digits)
  }

  function IntValue(s: Text): (n: int)
    requires IntSyntax(s)
  {
    if s[0] == 0x2d then 0 - DigitsValue(s[1..]) else if s[0] == 0x2b then DigitsValue(s[1..]) else DigitsValue(s)
  }

  function NatText(n: nat): (s: Text)
    ensures |s| > 0 && AllDigits(s)
  {
    if n < 10 then [(0x30 + n) as Unit] else NatText(n / 10) + [(0x30 + n % 10) as Unit]
  }

  /** `BigInteger.ToString` in the invariant culture. */
  function IntText(n: int): (s: Text)
    ensures |s| > 0
  {
    if n < 0 then [0x2d] + NatText(-n) else NatText(n)
  }

  lemma {:induction false} NatTextValue(n: nat)
    ensures DigitsValue(NatText(n)) == n
    ensures n > 0 ==> NatText(n)[0] != 0x30
    ensures n == 0 ==> NatText(n) == [0x30]
  {
    var s := NatText(n);
    if n < 10 {
      assert s[..0] == [];
      assert DigitsValue(s[..0]) == 0;
    } else {
      NatTextValue(n / 10);
      assert s[..|s| - 1] == NatText(n / 10);
    }
  }

  /** Printing an integer and reading it back is the identity; the printed form is in the accepted syntax. */
  lemma IntTextValue(n: int)
    ensures IntSyntax(IntText(n)) && IntValue(IntText(n)) == n
  {
    var s := IntText(n);
    if n < 0 {
      NatTextValue(-n);
      assert s[1..] == NatText(-n);
    } else {
      NatTextValue(n);
      assert IsDigit(s[0]);
    }
  }

  lemma IntTextInjective(m: int, n: int)
    requires IntText(m) == IntText(n)
    ensures m == n
  {
    IntTextValue(m);
    IntTextValue(n);
  }

  /** `canonicalInteger`: the one spelling of the integer, or nothing when it does not parse. */
  function CanonicalInteger(s: Text): Option<Text> {
    if Blank(s) then None
    else if IntSyntax(s) then Some(IntText(IntValue(s)))
    else None
  }

  lemma CanonicalIntegerSpec(s: Text)
    ensures CanonicalInteger(s).Some? <==> IntSyntax(s)
    ensures IntSyntax(s) ==> CanonicalInteger(s) == Some(IntText(IntValue(s)))
  {
    if IntSyntax(s) {
      assert s[0] in s && s[|s| - 1] in s;
    }
  }

  // ---------------------------------------------------------------- joining

  /** `String.concat ","`. */
  function Join(parts: seq<Text>): Text {
    if |parts| == 0 then []
    else if |parts| == 1 then parts[0]
    else parts[0] + [0x2c] + Join(parts[1..])
  }
}
