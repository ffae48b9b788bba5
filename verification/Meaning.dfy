/** What the canonical text identifies. `Same` is equality of replay values up to the order of set elements and
    record fields and the spelling of integers; it is defined without mentioning any text. */
module Meaning {
  import opened Text
  import opened Sorting
  import opened Json
  import opened Canonical

  ghost predicate Same(a: Value, b: Value)
    decreases a, 0
  {
    match a
    case Null => b.Null?
    case Boolean(x) => b == Boolean(x)
    case Integer(m) => b.Integer? && IntSyntax(m) && IntSyntax(b.digits) && IntValue(m) == IntValue(b.digits)
    case Str(t) => b == Str(t)
    case Sequence(xs) => b.Sequence? && |xs| == |b.items| && forall i | 0 <= i < |xs| :: Same(xs[i], b.items[i])
    case Set(xs) =>
      b.Set? && (forall x {:trigger HasSame(x, b.items)} | x in xs :: HasSame(x, b.items))
      && (forall y {:trigger SameIn(xs, y)} | y in b.items :: SameIn(xs, y))
    case Record(fs) =>
      b.Record? && (forall n :: n in Names(fs) <==> n in Names(b.fields))
      && forall f, g | f in fs && g in b.fields && f.0 == g.0 :: Same(f.1, g.1)
  }

  ghost predicate HasSame(x: Value, ys: seq<Value>)
    decreases x, 1
  {
    exists y | y in ys :: Same(x, y)
  }

  ghost predicate SameIn(xs: seq<Value>, y: Value)
    decreases xs, 0
  {
    exists x | x in xs :: Same(x, y)
  }

  /** A record the printer cannot tell from a set: its one field is `#set`, holding a sequence in set order. */
  predicate Tagged(fields: seq<(Text, Value)>) {
    && |fields| == 1 && fields[0].0 == HASH_SET && fields[0].1.Sequence?
    && var encoded := EncodeAll(fields[0].1.items);
       encoded.Some? && Ascending(encoded.value)
  }

  /** No part of the value is such a record. */
  predicate TagFree(v: Value)
    decreases v
  {
    match v
    case Sequence(items) => forall x | x in items :: TagFree(x)
    case Set(items) => forall x | x in items :: TagFree(x)
    case Record(fields) => !Tagged(fields) && forall f | f in fields :: TagFree(f.1)
    case _ => true
  }

  lemma SetsSame(xs: seq<Value>, ys: seq<Value>)
    requires forall x {:trigger HasSame(x, ys)} | x in xs :: HasSame(x, ys)
    requires forall y {:trigger SameIn(xs, y)} | y in ys :: SameIn(xs, y)
    ensures Same(Set(xs), Set(ys))
  {
  }

  lemma Covered(xs: seq<Value>, ys: seq<Value>, x: Value)
    requires Same(Set(xs), Set(ys)) && x in xs
    ensures HasSame(x, ys)
  {
    assert HasSame(x, ys);
  }

  lemma CoveredBack(xs: seq<Value>, ys: seq<Value>, y: Value)
    requires Same(Set(xs), Set(ys)) && y in ys
    ensures SameIn(xs, y)
  {
    assert SameIn(xs, y);
  }

  // ---------------------------------------------------------------- equal trees mean the same value

  lemma TreesMember(items: seq<Value>, t: Json)
    ensures t in Trees(items) <==> exists x | x in items :: Tree(x) == t
  {
    if t in Trees(items) {
      var i :| 0 <= i < |items| && Trees(items)[i] == t;
      assert items[i] in items;
    }
    if x :| x in items && Tree(x) == t {
      var i :| 0 <= i < |items| && items[i] == x;
      assert Trees(items)[i] == t;
    }
  }

  lemma SetMatch(xs: seq<Value>, ys: seq<Value>, x: Value)
    requires SetTree(Trees(xs)) == SetTree(Trees(ys)) && x in xs
    ensures exists y | y in ys :: Tree(y) == Tree(x)
  {
    TreesMember(xs, Tree(x));
    InTextOrderMembers(EscapeJson, Trees(xs), Tree(x));
    InTextOrderMembers(EscapeJson, Trees(ys), Tree(x));
    TreesMember(ys, Tree(x));
  }

  lemma FieldTreesMember(fields: seq<(Text, Value)>, t: (Text, Json))
    ensures t in SortPairs(FieldTrees(fields)) <==> exists f | f in fields :: FieldTree(f) == t
  {
    SortPermutes(FieldTrees(fields));
    if t in FieldTrees(fields) {
      var i :| 0 <= i < |fields| && FieldTrees(fields)[i] == t;
      assert fields[i] in fields && FieldTree(fields[i]) == t;
    }
    if f :| f in fields && FieldTree(f) == t {
      var i :| 0 <= i < |fields| && fields[i] == f;
      assert FieldTrees(fields)[i] == t;
    }
  }

  lemma SameField(fields: seq<(Text, Value)>, f: (Text, Value), g: (Text, Value))
    requires Distinct(Names(fields)) && f in fields && g in fields && f.0 == g.0
    ensures f == g
  {
    var i :| 0 <= i < |fields| && fields[i] == f;
    var j :| 0 <= j < |fields| && fields[j] == g;
    assert Names(fields)[i] == Names(fields)[j];
  }

  lemma RecordNames(fs: seq<(Text, Value)>, gs: seq<(Text, Value)>, n: Text)
    requires SortPairs(FieldTrees(fs)) == SortPairs(FieldTrees(gs))
    requires n in Names(fs)
    ensures n in Names(gs)
  {
    NamesMember(fs, n);
    var f :| f in fs && f.0 == n;
    FieldTreesMember(fs, FieldTree(f));
    FieldTreesMember(gs, FieldTree(f));
    var g :| g in gs && FieldTree(g) == FieldTree(f);
    NamesMember(gs, n);
  }

  lemma RecordMatch(fs: seq<(Text, Value)>, gs: seq<(Text, Value)>, f: (Text, Value), g: (Text, Value))
    requires SortPairs(FieldTrees(fs)) == SortPairs(FieldTrees(gs)) && Distinct(Names(gs))
    requires f in fs && g in gs && f.0 == g.0
    ensures Tree(f.1) == Tree(g.1)
  {
    FieldTreesMember(fs, FieldTree(f));
    FieldTreesMember(gs, FieldTree(f));
    var h :| h in gs && FieldTree(h) == FieldTree(f);
    SameField(gs, g, h);
  }

  /** The only way a record prints like a set. */
  lemma SetOrRecord(items: seq<Value>, fields: seq<(Text, Value)>)
    requires Encode(Set(items)).Some? && Encode(Record(fields)).Some?
    requires Tree(Set(items)) == Tree(Record(fields))
    ensures Tagged(fields)
  {
    var members := SortPairs(FieldTrees(fields));
    SortPermutes(FieldTrees(fields));
    assert |fields| == 1;
    assert members == FieldTrees(fields);
    var v := fields[0].1;
    assert Tree(v) == FieldTree(fields[0]).1 == SetTree(Trees(items)).members[0].1;
    var texts := EncodeAll(items).value;
    EncodeAllIsPrint(items);
    SortTextsSpec(texts);
    SortTextsOfPairs(texts, ByText(EscapeJson, Trees(items)));
    var sorted := SortPairs(ByText(EscapeJson, Trees(items)));
    assert Trees(v.items) == Payloads(sorted);
    assert EncodeFields(fields).Some?;
    assert EncodeField(fields[0]).Some?;
    EncodeAllIsPrint(v.items);
    SortPermutes(ByText(EscapeJson, Trees(items)));
    var encoded := EncodeAll(v.items).value;
    assert |encoded| == |sorted|;
    forall i | 0 <= i < |sorted|
      ensures encoded[i] == SortTexts(texts)[i]
    {
      SortMember(ByText(EscapeJson, Trees(items)), i);
      assert Trees(v.items)[i] == sorted[i].1;
      assert Names(sorted)[i] == sorted[i].0;
    }
    assert encoded == SortTexts(texts);
  }

  lemma {:induction false} TreeMeans(a: Value, b: Value)
    requires Encode(a).Some? && Encode(b).Some? && TagFree(a) && TagFree(b)
    requires Tree(a) == Tree(b)
    ensures Same(a, b)
    decreases a
  {
    match a
    case Integer(m) =>
      CanonicalIntegerSpec(m);
      CanonicalIntegerSpec(b.digits);
      IntTextInjective(IntValue(m), IntValue(b.digits));
    case Sequence(xs) =>
      forall i | 0 <= i < |xs|
        ensures Same(xs[i], b.items[i])
      {
        assert Trees(xs)[i] == Trees(b.items)[i];
        TreeMeans(xs[i], b.items[i]);
      }
    case Set(xs) =>
      if b.Record? {
        SetOrRecord(xs, b.fields);
      } else {
        SetMeans(xs, b.items);
      }
    case Record(fs) =>
      if b.Set? {
        SetOrRecord(b.items, fs);
      } else {
        RecordMeans(fs, b.fields);
      }
    case _ =>
  }

  lemma AllEncoded(items: seq<Value>, x: Value)
    requires EncodeAll(items).Some? && x in items
    ensures Encode(x).Some?
  {
    var i :| 0 <= i < |items| && items[i] == x;
    assert Encode(items[i]) == Some(EncodeAll(items).value[i]);
  }

  lemma FieldEncoded(fields: seq<(Text, Value)>, f: (Text, Value))
    requires EncodeFields(fields).Some? && f in fields
    ensures Encode(f.1).Some?
  {
    var i :| 0 <= i < |fields| && fields[i] == f;
    assert EncodeField(fields[i]) == Some(EncodeFields(fields).value[i]);
  }

  lemma {:induction false} SetMeans(xs: seq<Value>, ys: seq<Value>)
    requires EncodeAll(xs).Some? && EncodeAll(ys).Some?
    requires TagFree(Set(xs)) && TagFree(Set(ys))
    requires SetTree(Trees(xs)) == SetTree(Trees(ys))
    ensures Same(Set(xs), Set(ys))
    decreases xs, 1
  {
    forall x | x in xs
      ensures HasSame(x, ys)
    {
      MemberMeans(xs, ys, x);
    }
    forall y | y in ys
      ensures SameIn(xs, y)
    {
      MemberMeansBack(xs, ys, y);
    }
  }

  lemma {:induction false} MemberMeans(xs: seq<Value>, ys: seq<Value>, x: Value)
    requires EncodeAll(xs).Some? && EncodeAll(ys).Some?
    requires TagFree(Set(xs)) && TagFree(Set(ys))
    requires SetTree(Trees(xs)) == SetTree(Trees(ys)) && x in xs
    ensures HasSame(x, ys)
    decreases xs, 0
  {
    SetMatch(xs, ys, x);
    var y :| y in ys && Tree(y) == Tree(x);
    AllEncoded(xs, x);
    AllEncoded(ys, y);
    TreeMeans(x, y);
  }

  lemma {:induction false} MemberMeansBack(xs: seq<Value>, ys: seq<Value>, y: Value)
    requires EncodeAll(xs).Some? && EncodeAll(ys).Some?
    requires TagFree(Set(xs)) && TagFree(Set(ys))
    requires SetTree(Trees(xs)) == SetTree(Trees(ys)) && y in ys
    ensures SameIn(xs, y)
    decreases xs, 0
  {
    SetMatch(ys, xs, y);
    var x :| x in xs && Tree(x) == Tree(y);
    AllEncoded(xs, x);
    AllEncoded(ys, y);
    TreeMeans(x, y);
  }

  lemma {:induction false} RecordMeans(fs: seq<(Text, Value)>, gs: seq<(Text, Value)>)
    requires Encode(Record(fs)).Some? && Encode(Record(gs)).Some?
    requires (forall f | f in fs :: TagFree(f.1)) && forall g | g in gs :: TagFree(g.1)
    requires SortPairs(FieldTrees(fs)) == SortPairs(FieldTrees(gs))
    ensures Same(Record(fs), Record(gs))
    decreases fs
  {
    forall n
      ensures n in Names(fs) <==> n in Names(gs)
    {
      if n in Names(fs) {
        RecordNames(fs, gs, n);
      }
      if n in Names(gs) {
        RecordNames(gs, fs, n);
      }
    }
    forall f, g | f in fs && g in gs && f.0 == g.0
      ensures Same(f.1, g.1)
    {
      RecordMatch(fs, gs, f, g);
      FieldEncoded(fs, f);
      FieldEncoded(gs, g);
      FieldMeans(f, g);
    }
  }

  lemma {:induction false} FieldMeans(f: (Text, Value), g: (Text, Value))
    requires Encode(f.1).Some? && Encode(g.1).Some? && TagFree(f.1) && TagFree(g.1)
    requires Tree(f.1) == Tree(g.1)
    ensures Same(f.1, g.1)
    decreases f
  {
    TreeMeans(f.1, g.1);
  }

  // ---------------------------------------------------------------- the same value has one text

  lemma FindSame(xs: seq<Value>, ys: seq<Value>, x: Value) returns (j: nat)
    requires Same(Set(xs), Set(ys)) && x in xs
    ensures j < |ys| && Same(x, ys[j])
  {
    Covered(xs, ys, x);
    var y :| y in ys && Same(x, y);
    j :| 0 <= j < |ys| && ys[j] == y;
  }

  lemma FindSameBack(xs: seq<Value>, ys: seq<Value>, y: Value) returns (i: nat)
    requires Same(Set(xs), Set(ys)) && y in ys
    ensures i < |xs| && Same(xs[i], y)
  {
    CoveredBack(xs, ys, y);
    var x :| x in xs && Same(x, y);
    i :| 0 <= i < |xs| && xs[i] == x;
  }

  /** For each member of one set, the position in the other of one that means the same. */
  lemma {:induction false} Partners(xs: seq<Value>, ys: seq<Value>, k: nat) returns (m: seq<nat>)
    requires Same(Set(xs), Set(ys)) && k <= |xs|
    ensures |m| == k && forall i | 0 <= i < k :: m[i] < |ys| && Same(xs[i], ys[m[i]])
  {
    m := [];
    if k > 0 {
      m := Partners(xs, ys, k - 1);
      var j := FindSame(xs, ys, xs[k - 1]);
      m := m + [j];
    }
  }

  lemma {:induction false} PartnersBack(xs: seq<Value>, ys: seq<Value>, k: nat) returns (n: seq<nat>)
    requires Same(Set(xs), Set(ys)) && k <= |ys|
    ensures |n| == k && forall j | 0 <= j < k :: n[j] < |xs| && Same(xs[n[j]], ys[j])
  {
    n := [];
    if k > 0 {
      n := PartnersBack(xs, ys, k - 1);
      var i := FindSameBack(xs, ys, ys[k - 1]);
      n := n + [i];
    }
  }

  lemma {:induction false} SameSets(xs: seq<Value>, ys: seq<Value>)
    requires EncodeAll(xs).Some? && EncodeAll(ys).Some?
    requires Same(Set(xs), Set(ys))
    ensures forall t :: t in EncodeAll(xs).value <==> t in EncodeAll(ys).value
    decreases xs, 1
  {
    var m := Partners(xs, ys, |xs|);
    var n := PartnersBack(xs, ys, |ys|);
    SamePartners(xs, ys, m, n);
  }

  lemma {:induction false} SamePartners(xs: seq<Value>, ys: seq<Value>, m: seq<nat>, n: seq<nat>)
    requires EncodeAll(xs).Some? && EncodeAll(ys).Some?
    requires |m| == |xs| && forall i | 0 <= i < |xs| :: m[i] < |ys| && Same(xs[i], ys[m[i]])
    requires |n| == |ys| && forall j | 0 <= j < |ys| :: n[j] < |xs| && Same(xs[n[j]], ys[j])
    ensures forall t :: t in EncodeAll(xs).value <==> t in EncodeAll(ys).value
    decreases xs, 0
  {
    var ts, us := EncodeAll(xs).value, EncodeAll(ys).value;
    forall i | 0 <= i < |xs|
      ensures ts[i] == us[m[i]]
    {
      assert Encode(xs[i]) == Some(ts[i]) && Encode(ys[m[i]]) == Some(us[m[i]]);
      SameText(xs[i], ys[m[i]]);
    }
    forall j | 0 <= j < |ys|
      ensures ts[n[j]] == us[j]
    {
      assert Encode(xs[n[j]]) == Some(ts[n[j]]) && Encode(ys[j]) == Some(us[j]);
      SameText(xs[n[j]], ys[j]);
    }
    forall t
      ensures t in ts <==> t in us
    {
      if t in ts {
        var i :| 0 <= i < |ts| && ts[i] == t;
        assert us[m[i]] == t;
      }
      if t in us {
        var j :| 0 <= j < |us| && us[j] == t;
        assert ts[n[j]] == t;
      }
    }
  }

  lemma {:induction false} SameFields(fs: seq<(Text, Value)>, gs: seq<(Text, Value)>)
    requires Encode(Record(fs)).Some? && Encode(Record(gs)).Some?
    requires Same(Record(fs), Record(gs))
    ensures forall p | p in EncodeFields(fs).value :: p in EncodeFields(gs).value
    decreases fs, 1
  {
    var ps, qs := EncodeFields(fs).value, EncodeFields(gs).value;
    forall p | p in ps
      ensures p in qs
    {
      var i :| 0 <= i < |ps| && ps[i] == p;
      assert EncodeField(fs[i]) == Some(ps[i]);
      NamesMember(fs, fs[i].0);
      NamesMember(gs, fs[i].0);
      var g :| g in gs && g.0 == fs[i].0;
      var j :| 0 <= j < |gs| && gs[j] == g;
      assert EncodeField(gs[j]) == Some(qs[j]);
      assert fs[i] in fs;
      SameFieldText(fs[i], g);
    }
  }

  lemma {:induction false} SameFieldText(f: (Text, Value), g: (Text, Value))
    requires EncodeField(f).Some? && EncodeField(g).Some? && f.0 == g.0 && Same(f.1, g.1)
    ensures EncodeField(f) == EncodeField(g)
    decreases f, 0
  {
    SameText(f.1, g.1);
  }

  lemma {:induction false} SameText(a: Value, b: Value)
    requires Encode(a).Some? && Encode(b).Some? && Same(a, b)
    ensures Encode(a) == Encode(b)
    decreases a, 2
  {
    match a
    case Integer(m) =>
      CanonicalIntegerSpec(m);
      CanonicalIntegerSpec(b.digits);
    case Sequence(xs) =>
      var ts, us := EncodeAll(xs).value, EncodeAll(b.items).value;
      forall i | 0 <= i < |xs|
        ensures ts[i] == us[i]
      {
        assert Encode(xs[i]) == Some(ts[i]) && Encode(b.items[i]) == Some(us[i]);
        SameText(xs[i], b.items[i]);
      }
      assert ts == us;
    case Set(xs) =>
      var ts, us := EncodeAll(xs).value, EncodeAll(b.items).value;
      SameSets(xs, b.items);
      SortTextsSpec(ts);
      SortTextsSpec(us);
      AscendingUnique(SortTexts(ts), SortTexts(us));
    case Record(fs) =>
      SameRecords(fs, b.fields);
    case _ =>
  }

  lemma {:induction false} SameRecords(fs: seq<(Text, Value)>, gs: seq<(Text, Value)>)
    requires Encode(Record(fs)).Some? && Encode(Record(gs)).Some?
    requires Same(Record(fs), Record(gs))
    ensures SortPairs(EncodeFields(fs).value) == SortPairs(EncodeFields(gs).value)
    decreases fs, 2
  {
    var ps, qs := EncodeFields(fs).value, EncodeFields(gs).value;
    EncodedNames(fs);
    EncodedNames(gs);
    SortPermutes(ps);
    SortPermutes(qs);
    SortDistinct(ps);
    SortDistinct(qs);
    assert Names(SortPairs(ps)) == Names(SortPairs(qs)) by {
      forall n
        ensures n in Names(SortPairs(ps)) <==> n in Names(SortPairs(qs))
      {
        NamesMember(SortPairs(ps), n);
        NamesMember(SortPairs(qs), n);
        NamesMember(ps, n);
        NamesMember(qs, n);
      }
      AscendingUnique(Names(SortPairs(ps)), Names(SortPairs(qs)));
    }
    SameFields(fs, gs);
    PairsByName(SortPairs(ps), SortPairs(qs));
  }

  // ---------------------------------------------------------------- main results

  /** The canonical text is an identity: tag-free accepted values print alike exactly when they are the same. */
  lemma TextIsIdentity(a: Value, b: Value)
    requires Encode(a).Some? && Encode(b).Some? && TagFree(a) && TagFree(b)
    ensures Encode(a) == Encode(b) <==> Same(a, b)
  {
    if Encode(a) == Encode(b) {
      EncodeIsPrint(a);
      EncodeIsPrint(b);
      EscapeJsonQuotes();
      PrintInjective(EscapeJson, Tree(a), Tree(b));
      TreeMeans(a, b);
    }
    if Same(a, b) {
      SameText(a, b);
    }
  }

  /** An RFC 8259 parser undoes the encoder: it consumes exactly the text, whatever follows, unless what follows an
      integer continues it; and the tree it returns decides the value. */
  lemma ParseEncoded(v: Value, rest: Text)
    requires Encode(v).Some? && (v.Integer? ==> Delimits(rest))
    ensures ParseValue(Encode(v).value + rest) == Some((Tree(v), rest))
  {
    EncodeIsPrint(v);
    EscapeJsonQuotes();
    ParsePrintValue(EscapeJson, Tree(v), rest);
  }

  /** The same for two records, whose own names cannot be confused with a tag: states are compared this way. */
  lemma RecordTextIsIdentity(fs: seq<(Text, Value)>, gs: seq<(Text, Value)>)
    requires Encode(Record(fs)).Some? && Encode(Record(gs)).Some?
    requires (forall f | f in fs :: TagFree(f.1)) && forall g | g in gs :: TagFree(g.1)
    ensures Encode(Record(fs)) == Encode(Record(gs)) <==> Same(Record(fs), Record(gs))
    ensures Tree(Record(fs)) == Tree(Record(gs)) <==> Same(Record(fs), Record(gs))
  {
    EncodeIsPrint(Record(fs));
    EncodeIsPrint(Record(gs));
    EscapeJsonQuotes();
    if Encode(Record(fs)) == Encode(Record(gs)) {
      PrintInjective(EscapeJson, Tree(Record(fs)), Tree(Record(gs)));
      RecordMeans(fs, gs);
    }
    if Same(Record(fs), Record(gs)) {
      SameText(Record(fs), Record(gs));
    }
  }
}
