/** The path a divergence reports: the least binding whose encoding differs, escaped as RFC 6901 asks. */
module DivergencePath {
  import opened Text
  import opened Sorting
  import opened Canonical
  import opened Trace

  // ---------------------------------------------------------------- JSON Pointer escaping

  function ReplaceUnit(t: Text, u: Unit, with: Text): Text {
    if |t| == 0 then [] else (if t[0] == u then with else [t[0]]) + ReplaceUnit(t[1..], u, with)
  }

  /** `n.Replace("~", "~0").Replace("/", "~1")` */
  function EscapePointer(name: Text): Text {
    ReplaceUnit(ReplaceUnit(name, 0x7e, [0x7e, 0x30]), 0x2f, [0x7e, 0x31])
  }

  /** Every tilde followed by `digit` becomes `u`. */
  function ReplacePair(t: Text, digit: Unit, u: Unit): Text {
    if |t| == 0 then []
    else if |t| > 1 && t[0] == 0x7e && t[1] == digit then [u] + ReplacePair(t[2..], digit, u)
    else [t[0]] + ReplacePair(t[1..], digit, u)
  }

  /** Section 4 of RFC 6901: first `~1` becomes a slash, then `~0` a tilde. */
  function UnescapePointer(t: Text): Text {
    ReplacePair(ReplacePair(t, 0x31, 0x2f), 0x30, 0x7e)
  }

  lemma {:induction false} ReplaceAppend(s: Text, t: Text, u: Unit, with: Text)
    ensures ReplaceUnit(s + t, u, with) == ReplaceUnit(s, u, with) + ReplaceUnit(t, u, with)
  {
    if |s| == 0 {
      assert s + t == t;
    } else {
      ReplaceAppend(s[1..], t, u, with);
      assert (s + t)[1..] == s[1..] + t;
      Associative(if s[0] == u then with else [s[0]], ReplaceUnit(s[1..], u, with), ReplaceUnit(t, u, with));
    }
  }

  function EscapedUnit(u: Unit): Text {
    if u == 0x7e then [0x7e, 0x30] else if u == 0x2f then [0x7e, 0x31] else [u]
  }

  lemma SlashUnits(u: Unit)
    ensures ReplaceUnit(if u == 0x7e then [0x7e, 0x30] else [u], 0x2f, [0x7e, 0x31]) == EscapedUnit(u)
  {
    assert [0x7e, 0x30][1..] == [0x30] && [0x30][1..] == [];
    assert [u][1..] == [];
    assert ReplaceUnit([0x30], 0x2f, [0x7e, 0x31]) == [0x30];
  }

  lemma EscapeFirst(name: Text)
    requires |name| > 0
    ensures EscapePointer(name) == EscapedUnit(name[0]) + EscapePointer(name[1..])
  {
    var head: Text := if name[0] == 0x7e then [0x7e, 0x30] else [name[0]];
    ReplaceAppend(head, ReplaceUnit(name[1..], 0x7e, [0x7e, 0x30]), 0x2f, [0x7e, 0x31]);
    SlashUnits(name[0]);
  }

  lemma {:induction false} UnescapeSlashes(name: Text)
    ensures ReplacePair(EscapePointer(name), 0x31, 0x2f) == ReplaceUnit(name, 0x7e, [0x7e, 0x30])
  {
    if |name| > 0 {
      UnescapeSlashes(name[1..]);
      EscapeFirst(name);
      var rest := EscapePointer(name[1..]);
      var t := EscapedUnit(name[0]) + rest;
      if name[0] == 0x7e {
        assert t[1..] == [0x30] + rest && t[1..][1..] == rest;
      } else if name[0] == 0x2f {
        assert t[2..] == rest;
      } else {
        assert t[1..] == rest;
      }
    }
  }

  lemma {:induction false} UnescapeTildes(name: Text)
    ensures ReplacePair(ReplaceUnit(name, 0x7e, [0x7e, 0x30]), 0x30, 0x7e) == name
  {
    if |name| > 0 {
      UnescapeTildes(name[1..]);
      var rest := ReplaceUnit(name[1..], 0x7e, [0x7e, 0x30]);
      if name[0] == 0x7e {
        assert ([0x7e, 0x30] + rest)[2..] == rest;
      } else {
        assert ([name[0]] + rest)[1..] == rest;
      }
      assert name == [name[0]] + name[1..];
    }
  }

  /** RFC 6901 undoes the escaping, for every name. */
  lemma PointerRoundTrip(name: Text)
    ensures UnescapePointer(EscapePointer(name)) == name
  {
    UnescapeSlashes(name);
    UnescapeTildes(name);
  }

  // ---------------------------------------------------------------- the differing binding

  function Lookup(bindings: seq<(Text, Value)>, name: Text): (r: Option<Value>)
    ensures r.None? <==> name !in Names(bindings)
    ensures r.Some? ==> (name, r.value) in bindings
  {
    if |bindings| == 0 then None
    else if bindings[0].0 == name then
      assert Names(bindings)[0] == name;
      Some(bindings[0].1)
    else
      assert Names(bindings) == [bindings[0].0] + Names(bindings[1..]);
      Lookup(bindings[1..], name)
  }

  /** The encoding of the named binding: absent, refused, or a text. */
  function Encoded(bindings: seq<(Text, Value)>, name: Text): Option<Option<Text>> {
    match Lookup(bindings, name)
    case None => None
    case Some(v) => Some(Encode(v))
  }

  /** `List.distinct`. */
  function Dedup(ts: seq<Text>): (r: seq<Text>)
    ensures Distinct(r)
    ensures forall t :: t in r <==> t in ts
  {
    if |ts| == 0 then []
    else
      var last := |ts| - 1;
      var r := Dedup(ts[..last]);
      assert ts == ts[..last] + [ts[last]];
      if ts[last] in r then r else r + [ts[last]]
  }

  function CandidateNames(expected: seq<(Text, Value)>, actual: seq<(Text, Value)>): seq<Text> {
    SortTexts(Dedup(Names(expected) + Names(actual)))
  }

  predicate FirstAt(names: seq<Text>, expected: seq<(Text, Value)>, actual: seq<(Text, Value)>, i: nat) {
    && i < |names| && Encoded(expected, names[i]) != Encoded(actual, names[i])
    && forall k | 0 <= k < i :: Encoded(expected, names[k]) == Encoded(actual, names[k])
  }

  lemma FirstAfter(names: seq<Text>, expected: seq<(Text, Value)>, actual: seq<(Text, Value)>, i: nat)
    requires |names| > 0 && Encoded(expected, names[0]) == Encoded(actual, names[0])
    requires FirstAt(names[1..], expected, actual, i)
    ensures FirstAt(names, expected, actual, i + 1)
  {
    assert forall k | 0 < k <= i + 1 :: names[k] == names[1..][k - 1];
  }

  /** `List.tryFind`: the first name whose encodings differ. */
  function FirstDiffering(names: seq<Text>, expected: seq<(Text, Value)>, actual: seq<(Text, Value)>): (r: Option<Text>)
    ensures r.None? ==> forall n | n in names :: Encoded(expected, n) == Encoded(actual, n)
    ensures r.Some? ==> exists i: nat | FirstAt(names, expected, actual, i) :: names[i] == r.value
  {
    if |names| == 0 then None
    else if Encoded(expected, names[0]) != Encoded(actual, names[0]) then
      assert FirstAt(names, expected, actual, 0);
      Some(names[0])
    else
      var r := FirstDiffering(names[1..], expected, actual);
      if r.Some? then
        var i: nat :| FirstAt(names[1..], expected, actual, i) && names[1..][i] == r.value;
        FirstAfter(names, expected, actual, i);
        r
      else r
  }

  const ROOT: Text := [0x24]

  /** `$/bindings/` */
  const BINDINGS: Text := [0x24, 0x2f, 0x62, 0x69, 0x6e, 0x64, 0x69, 0x6e, 0x67, 0x73, 0x2f]

  function Path(expected: seq<(Text, Value)>, actual: seq<(Text, Value)>): Text {
    match FirstDiffering(CandidateNames(expected, actual), expected, actual)
    case None => ROOT
    case Some(n) => BINDINGS + EscapePointer(n)
  }

  lemma {:induction false} LookupAt(bindings: seq<(Text, Value)>, k: nat)
    requires Distinct(Names(bindings)) && k < |bindings|
    ensures Lookup(bindings, bindings[k].0) == Some(bindings[k].1)
  {
    if k > 0 {
      assert Names(bindings)[0] != Names(bindings)[k];
      assert Names(bindings[1..]) == Names(bindings)[1..];
      LookupAt(bindings[1..], k - 1);
    }
  }

  lemma PairEncoded(bindings: seq<(Text, Value)>, p: (Text, Text))
    requires Encodable(bindings) && Distinct(Names(bindings)) && p in EncodeFields(bindings).value
    ensures Encoded(bindings, p.0) == Some(Some(p.1))
  {
    var i := EncodedIndex(bindings, p);
    LookupAt(bindings, i);
  }

  lemma EncodedIndex(bindings: seq<(Text, Value)>, p: (Text, Text)) returns (i: nat)
    requires Encodable(bindings) && p in EncodeFields(bindings).value
    ensures i < |bindings| && bindings[i].0 == p.0 && Encode(bindings[i].1) == Some(p.1)
  {
    var ps := EncodeFields(bindings).value;
    i :| 0 <= i < |ps| && ps[i] == p;
    assert EncodeField(bindings[i]) == Some(ps[i]);
  }

  lemma EncodedPair(bindings: seq<(Text, Value)>, p: (Text, Text))
    requires Encodable(bindings) && Encoded(bindings, p.0) == Some(Some(p.1))
    ensures p in EncodeFields(bindings).value
  {
    var v := Lookup(bindings, p.0).value;
    var k :| 0 <= k < |bindings| && bindings[k] == (p.0, v);
    assert EncodeField(bindings[k]) == Some(EncodeFields(bindings).value[k]);
  }

  /** When every binding encodes alike, so do the states. */
  lemma AlikeEverywhere(a: seq<(Text, Value)>, b: seq<(Text, Value)>)
    requires Encodable(a) && Encodable(b) && Distinct(Names(a)) && Distinct(Names(b))
    requires forall n | n in Names(a) || n in Names(b) :: Encoded(a, n) == Encoded(b, n)
    ensures StateText(a) == StateText(b)
  {
    var ps, qs := EncodeFields(a).value, EncodeFields(b).value;
    EncodedNames(a);
    EncodedNames(b);
    forall p
      ensures p in ps <==> p in qs
    {
      if p in ps {
        PairEncoded(a, p);
        NamesMember(ps, p.0);
        EncodedPair(b, p);
      }
      if p in qs {
        PairEncoded(b, p);
        NamesMember(qs, p.0);
        EncodedPair(a, p);
      }
    }
    SortUnique(ps, qs);
  }

  /** `n` is the ordinally least binding of either state whose encodings differ. */
  ghost predicate LeastDifference(a: seq<(Text, Value)>, b: seq<(Text, Value)>, n: Text) {
    && (n in Names(a) || n in Names(b)) && Encoded(a, n) != Encoded(b, n)
    && forall m | (m in Names(a) || m in Names(b)) && Less(m, n) :: Encoded(a, m) == Encoded(b, m)
  }

  lemma Candidates(a: seq<(Text, Value)>, b: seq<(Text, Value)>)
    ensures Ascending(CandidateNames(a, b))
    ensures forall n :: n in CandidateNames(a, b) <==> n in Names(a) || n in Names(b)
  {
    var all := Names(a) + Names(b);
    SortTextsSpec(Dedup(all));
    forall n
      ensures n in CandidateNames(a, b) <==> n in Names(a) || n in Names(b)
    {
      assert n in all <==> n in Names(a) || n in Names(b);
    }
  }

  lemma FirstIsLeast(a: seq<(Text, Value)>, b: seq<(Text, Value)>, i: nat)
    requires FirstAt(CandidateNames(a, b), a, b, i)
    ensures LeastDifference(a, b, CandidateNames(a, b)[i])
  {
    var names := CandidateNames(a, b);
    Candidates(a, b);
    assert names[i] in names;
    forall m | m in names && Less(m, names[i])
      ensures Encoded(a, m) == Encoded(b, m)
    {
      var k :| 0 <= k < |names| && names[k] == m;
      assert k < i by {
        LessIrreflexive(m);
        if i < k {
          LessAsymmetric(names[i], names[k]);
        }
      }
    }
  }

  /** Whenever two valid states encode differently, the path names the least binding whose encoding differs; the
      fallback is never used. */
  lemma PathNamesLeastDifference(a: seq<(Text, Value)>, b: seq<(Text, Value)>)
    requires Encodable(a) && Encodable(b) && Distinct(Names(a)) && Distinct(Names(b))
    requires StateText(a) != StateText(b)
    ensures exists n | LeastDifference(a, b, n) :: Path(a, b) == BINDINGS + EscapePointer(n)
  {
    var names := CandidateNames(a, b);
    Candidates(a, b);
    var r := FirstDiffering(names, a, b);
    if r.None? {
      AlikeEverywhere(a, b);
    } else {
      var i: nat :| FirstAt(names, a, b, i) && names[i] == r.value;
      FirstIsLeast(a, b, i);
    }
  }

  /** And for states all of whose bindings encode alike the path is the root. */
  lemma PathOfAlike(a: seq<(Text, Value)>, b: seq<(Text, Value)>)
    requires forall n | n in Names(a) || n in Names(b) :: Encoded(a, n) == Encoded(b, n)
    ensures Path(a, b) == ROOT
  {
    Candidates(a, b);
    NoneDiffers(CandidateNames(a, b), a, b);
  }

  lemma {:induction false} NoneDiffers(names: seq<Text>, a: seq<(Text, Value)>, b: seq<(Text, Value)>)
    requires forall n | n in names :: Encoded(a, n) == Encoded(b, n)
    ensures FirstDiffering(names, a, b) == None
  {
    if |names| > 0 {
      NoneDiffers(names[1..], a, b);
    }
  }
}
