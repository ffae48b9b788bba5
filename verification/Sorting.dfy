/** `List.sortWith` under the ordinal order: a stable insertion sort, by name or on the texts themselves. */
module Sorting {
  import opened Text

  function Insert<T>(p: (Text, T), ps: seq<(Text, T)>): (r: seq<(Text, T)>) {
    if |ps| == 0 || !Less(ps[0].0, p.0) then [p] + ps
    else [ps[0]] + Insert(p, ps[1..])
  }

  function SortPairs<T>(ps: seq<(Text, T)>): (r: seq<(Text, T)>) {
    if |ps| == 0 then [] else Insert(ps[0], SortPairs(ps[1..]))
  }

  function Names<T>(ps: seq<(Text, T)>): (r: seq<Text>)
    ensures |r| == |ps|
    ensures forall i | 0 <= i < |ps| :: r[i] == ps[i].0
  {
    seq(|ps|, i requires 0 <= i < |ps| => ps[i].0)
  }

  function Untagged(ts: seq<Text>): (r: seq<(Text, ())>)
    ensures |r| == |ts|
    ensures forall i | 0 <= i < |ts| :: r[i] == (ts[i], ())
  {
    seq(|ts|, i requires 0 <= i < |ts| => (ts[i], ()))
  }

  function SortTexts(ts: seq<Text>): (r: seq<Text>) {
    Names(SortPairs(Untagged(ts)))
  }

  predicate Distinct(ts: seq<Text>) {
    forall i, j | 0 <= i < j < |ts| :: ts[i] != ts[j]
  }

  predicate Sorted(ts: seq<Text>) {
    forall i, j | 0 <= i < j < |ts| :: !Less(ts[j], ts[i])
  }

  predicate Ascending(ts: seq<Text>) {
    forall i, j | 0 <= i < j < |ts| :: Less(ts[i], ts[j])
  }

  // ---------------------------------------------------------------- permutation

  lemma {:induction false} InsertPermutes<T>(p: (Text, T), ps: seq<(Text, T)>)
    ensures multiset(Insert(p, ps)) == multiset(ps) + multiset{p}
  {
    if !(|ps| == 0 || !Less(ps[0].0, p.0)) {
      InsertPermutes(p, ps[1..]);
      assert ps == [ps[0]] + ps[1..];
    }
  }

  lemma {:induction false} SortPermutes<T>(ps: seq<(Text, T)>)
    ensures multiset(SortPairs(ps)) == multiset(ps)
    ensures |SortPairs(ps)| == |ps|
    ensures forall p :: p in SortPairs(ps) <==> p in ps
  {
    if |ps| > 0 {
      SortPermutes(ps[1..]);
      InsertPermutes(ps[0], SortPairs(ps[1..]));
      assert ps == [ps[0]] + ps[1..];
    }
    SameMembers(SortPairs(ps), ps);
  }

  lemma SameMembers<T>(a: seq<T>, b: seq<T>)
    requires multiset(a) == multiset(b)
    ensures |a| == |b| && forall x :: x in a <==> x in b
  {
    assert |multiset(a)| == |a| && |multiset(b)| == |b|;
    forall x
      ensures x in a <==> x in b
    {
      assert x in a <==> x in multiset(a);
      assert x in b <==> x in multiset(b);
    }
  }

  lemma SortMember<T>(ps: seq<(Text, T)>, i: nat)
    requires i < |SortPairs(ps)|
    ensures SortPairs(ps)[i] in ps
  {
    SortPermutes(ps);
    var p := SortPairs(ps)[i];
    assert p in multiset(SortPairs(ps));
    assert p in multiset(ps);
  }

  // ---------------------------------------------------------------- order

  lemma NotLessTransitive(a: Text, b: Text, c: Text)
    requires !Less(b, a) && !Less(c, b)
    ensures !Less(c, a)
  {
    if Less(c, a) {
      LessTotal(a, b);
      if Less(a, b) {
        LessTransitive(c, a, b);
      }
    }
  }

  /** What is not less than any of a sorted list may go before it. */
  lemma ConsSorted<T>(p: (Text, T), ps: seq<(Text, T)>)
    requires Sorted(Names(ps)) && forall q | q in ps :: !Less(q.0, p.0)
    ensures Sorted(Names([p] + ps))
  {
    var r := [p] + ps;
    forall i, j | 0 <= i < j < |r|
      ensures !Less(Names(r)[j], Names(r)[i])
    {
      assert r[j] == ps[j - 1] && ps[j - 1] in ps;
      if i > 0 {
        assert !Less(Names(ps)[j - 1], Names(ps)[i - 1]);
      }
    }
  }

  lemma RestSorted<T>(ps: seq<(Text, T)>)
    requires |ps| > 0 && Sorted(Names(ps))
    ensures Sorted(Names(ps[1..])) && forall q | q in ps[1..] :: !Less(q.0, ps[0].0)
  {
    forall i, j | 0 <= i < j < |ps|
      ensures !Less(ps[j].0, ps[i].0)
    {
      assert !Less(Names(ps)[j], Names(ps)[i]);
    }
  }

  lemma {:induction false} InsertSorted<T>(p: (Text, T), ps: seq<(Text, T)>)
    requires Sorted(Names(ps))
    ensures Sorted(Names(Insert(p, ps)))
  {
    if |ps| > 0 {
      RestSorted(ps);
    }
    if |ps| == 0 || !Less(ps[0].0, p.0) {
      forall q | q in ps
        ensures !Less(q.0, p.0)
      {
        if q != ps[0] {
          assert q in ps[1..];
          NotLessTransitive(p.0, ps[0].0, q.0);
        }
      }
      ConsSorted(p, ps);
    } else {
      var tail := Insert(p, ps[1..]);
      InsertSorted(p, ps[1..]);
      InsertPermutes(p, ps[1..]);
      forall q | q in tail
        ensures !Less(q.0, ps[0].0)
      {
        assert q in multiset(tail);
        LessAsymmetric(ps[0].0, p.0);
      }
      ConsSorted(ps[0], tail);
    }
  }

  lemma {:induction false} SortSorted<T>(ps: seq<(Text, T)>)
    ensures Sorted(Names(SortPairs(ps)))
  {
    if |ps| > 0 {
      SortSorted(ps[1..]);
      InsertSorted(ps[0], SortPairs(ps[1..]));
    }
  }

  /** A sorted list stays as it is. */
  lemma {:induction false} SortedFixed<T>(ps: seq<(Text, T)>)
    requires Sorted(Names(ps))
    ensures SortPairs(ps) == ps
  {
    if |ps| > 0 {
      forall i, j | 0 <= i < j < |ps| - 1
        ensures !Less(Names(ps[1..])[j], Names(ps[1..])[i])
      {
        assert !Less(Names(ps)[j + 1], Names(ps)[i + 1]);
      }
      SortedFixed(ps[1..]);
      if |ps| > 1 {
        assert !Less(Names(ps)[1], Names(ps)[0]);
      }
      assert ps == [ps[0]] + ps[1..];
    }
  }

  /** Two lists that agree on names, and whose payloads are related one by one. */
  ghost predicate Related<S(!new), T(!new)>(ps: seq<(Text, S)>, qs: seq<(Text, T)>, relation: (S, T) -> bool) {
    |ps| == |qs| && forall i | 0 <= i < |ps| :: ps[i].0 == qs[i].0 && relation(ps[i].1, qs[i].1)
  }

  /** Sorting looks only at the names, so it moves related payloads together. */
  lemma {:induction false} SortRelated<S(!new), T(!new)>(
    ps: seq<(Text, S)>, qs: seq<(Text, T)>, relation: (S, T) -> bool)
    requires Related(ps, qs, relation)
    ensures Related(SortPairs(ps), SortPairs(qs), relation)
  {
    if |ps| > 0 {
      SortRelated(ps[1..], qs[1..], relation);
      InsertRelated(ps[0], SortPairs(ps[1..]), qs[0], SortPairs(qs[1..]), relation);
    }
  }

  lemma {:induction false} InsertRelated<S(!new), T(!new)>(
    p: (Text, S), ps: seq<(Text, S)>, q: (Text, T), qs: seq<(Text, T)>, relation: (S, T) -> bool)
    requires p.0 == q.0 && relation(p.1, q.1) && Related(ps, qs, relation)
    ensures Related(Insert(p, ps), Insert(q, qs), relation)
  {
    if |ps| > 0 && Less(ps[0].0, p.0) {
      InsertRelated(p, ps[1..], q, qs[1..], relation);
    }
  }

  // ---------------------------------------------------------------- distinct names

  lemma {:induction false} CountTwo(ts: seq<Text>, t: Text)
    requires multiset(ts)[t] >= 2
    ensures exists i, j :: 0 <= i < j < |ts| && ts[i] == t && ts[j] == t
  {
    assert ts == [ts[0]] + ts[1..];
    if ts[0] == t {
      assert t in multiset(ts[1..]);
      var j :| 1 <= j < |ts| && ts[j] == t;
      assert 0 <= 0 < j < |ts| && ts[0] == t;
    } else {
      CountTwo(ts[1..], t);
      var i, j :| 0 <= i < j < |ts[1..]| && ts[1..][i] == t && ts[1..][j] == t;
      assert ts[i + 1] == t && ts[j + 1] == t;
    }
  }

  lemma DistinctCount(ts: seq<Text>)
    ensures Distinct(ts) <==> forall t :: multiset(ts)[t] <= 1
  {
    forall t | multiset(ts)[t] >= 2
      ensures !Distinct(ts)
    {
      CountTwo(ts, t);
    }
    if i, j :| 0 <= i < j < |ts| && ts[i] == ts[j] {
      assert ts == ts[..i] + [ts[i]] + ts[i + 1..j] + [ts[j]] + ts[j + 1..];
      assert multiset(ts)[ts[i]] > 1;
    }
  }

  /** Any text computed from each pair. */
  function Keys<T>(key: ((Text, T)) -> Text, ps: seq<(Text, T)>): (r: seq<Text>)
    ensures |r| == |ps|
    ensures forall i | 0 <= i < |ps| :: r[i] == key(ps[i])
  {
    seq(|ps|, i requires 0 <= i < |ps| => key(ps[i]))
  }

  lemma ConsKeyCount<T>(key: ((Text, T)) -> Text, p: (Text, T), ps: seq<(Text, T)>)
    ensures multiset(Keys(key, [p] + ps)) == multiset(Keys(key, ps)) + multiset{key(p)}
  {
    assert Keys(key, [p] + ps) == [key(p)] + Keys(key, ps);
  }

  lemma {:induction false} InsertKeyCount<T>(key: ((Text, T)) -> Text, p: (Text, T), ps: seq<(Text, T)>)
    ensures multiset(Keys(key, Insert(p, ps))) == multiset(Keys(key, ps)) + multiset{key(p)}
  {
    if |ps| == 0 || !Less(ps[0].0, p.0) {
      ConsKeyCount(key, p, ps);
    } else {
      InsertKeyCount(key, p, ps[1..]);
      ConsKeyCount(key, ps[0], ps[1..]);
      ConsKeyCount(key, ps[0], Insert(p, ps[1..]));
      assert ps == [ps[0]] + ps[1..];
    }
  }

  lemma {:induction false} SortKeyCount<T>(key: ((Text, T)) -> Text, ps: seq<(Text, T)>)
    ensures multiset(Keys(key, SortPairs(ps))) == multiset(Keys(key, ps))
  {
    if |ps| > 0 {
      SortKeyCount(key, ps[1..]);
      InsertKeyCount(key, ps[0], SortPairs(ps[1..]));
      ConsKeyCount(key, ps[0], ps[1..]);
      assert ps == [ps[0]] + ps[1..];
    }
  }

  lemma SortKeysDistinct<T>(key: ((Text, T)) -> Text, ps: seq<(Text, T)>)
    ensures Distinct(Keys(key, SortPairs(ps))) <==> Distinct(Keys(key, ps))
  {
    SortKeyCount(key, ps);
    DistinctCount(Keys(key, SortPairs(ps)));
    DistinctCount(Keys(key, ps));
  }

  /** Sorting neither adds nor removes a duplicate name. */
  lemma SortDistinct<T>(ps: seq<(Text, T)>)
    ensures Distinct(Names(SortPairs(ps))) <==> Distinct(Names(ps))
    ensures Distinct(Names(ps)) ==> Ascending(Names(SortPairs(ps)))
  {
    var name := (p: (Text, T)) => p.0;
    SortKeysDistinct(name, ps);
    assert Keys(name, ps) == Names(ps) && Keys(name, SortPairs(ps)) == Names(SortPairs(ps));
    SortSorted(ps);
    var r := Names(SortPairs(ps));
    if Distinct(Names(ps)) {
      forall i, j | 0 <= i < j < |r|
        ensures Less(r[i], r[j])
      {
        LessTotal(r[i], r[j]);
      }
    }
  }

  lemma AscendingHead(a: seq<Text>, b: seq<Text>)
    requires Ascending(a) && Ascending(b) && |a| > 0
    requires forall t :: t in a <==> t in b
    ensures |b| > 0 && a[0] == b[0]
    ensures forall t :: t in a[1..] <==> t in b[1..]
  {
    assert a[0] in b;
    assert b[0] in a;
    var i :| 0 <= i < |b| && b[i] == a[0];
    var j :| 0 <= j < |a| && a[j] == b[0];
    assert i == 0 || j == 0 by {
      if i > 0 && j > 0 {
        LessAsymmetric(a[0], a[j]);
      }
    }
    LessIrreflexive(a[0]);
    forall t
      ensures t in a[1..] <==> t in b[1..]
    {
      TailMember(a, t);
      TailMember(b, t);
    }
  }

  lemma TailMember(a: seq<Text>, t: Text)
    requires Ascending(a) && |a| > 0
    ensures t in a[1..] <==> t in a && t != a[0]
  {
    LessIrreflexive(a[0]);
  }

  lemma SomeMember(a: seq<Text>)
    ensures |a| > 0 ==> exists t :: t in a
  {
    if |a| > 0 {
      assert a[0] in a;
    }
  }

  lemma {:induction false} AscendingUnique(a: seq<Text>, b: seq<Text>)
    requires Ascending(a) && Ascending(b)
    requires forall t :: t in a <==> t in b
    ensures a == b
  {
    if |a| > 0 {
      AscendingHead(a, b);
      AscendingUnique(a[1..], b[1..]);
      assert a == [a[0]] + a[1..] && b == [b[0]] + b[1..];
    } else {
      SomeMember(b);
    }
  }

  lemma PairsByName<T>(a: seq<(Text, T)>, b: seq<(Text, T)>)
    requires Names(a) == Names(b) && Distinct(Names(b))
    requires forall p | p in a :: p in b
    ensures a == b
  {
    assert |a| == |Names(a)| == |b|;
    forall i | 0 <= i < |a|
      ensures a[i] == b[i]
    {
      assert a[i] in b;
      var k :| 0 <= k < |b| && b[k] == a[i];
      assert Names(b)[k] == a[i].0 == Names(a)[i] == Names(b)[i];
    }
  }

  lemma SameNames<T>(a: seq<(Text, T)>, b: seq<(Text, T)>)
    requires forall p :: p in a <==> p in b
    ensures forall t :: t in Names(a) <==> t in Names(b)
  {
    forall t
      ensures t in Names(a) <==> t in Names(b)
    {
      NamesMember(a, t);
      NamesMember(b, t);
    }
  }

  /** With distinct names the sorted list depends only on the set of pairs, not on the order given. */
  lemma SortUnique<T>(ps: seq<(Text, T)>, qs: seq<(Text, T)>)
    requires Distinct(Names(ps)) && Distinct(Names(qs))
    requires forall p :: p in ps <==> p in qs
    ensures SortPairs(ps) == SortPairs(qs)
  {
    var a, b := SortPairs(ps), SortPairs(qs);
    SortPermutes(ps);
    SortPermutes(qs);
    SortDistinct(ps);
    SortDistinct(qs);
    SameNames(a, b);
    AscendingUnique(Names(a), Names(b));
    PairsByName(a, b);
  }

  lemma NamesMember<T>(ps: seq<(Text, T)>, n: Text)
    ensures n in Names(ps) <==> exists p :: p in ps && p.0 == n
  {
    if n in Names(ps) {
      var i :| 0 <= i < |ps| && Names(ps)[i] == n;
      assert ps[i] in ps && ps[i].0 == n;
    }
    if p :| p in ps && p.0 == n {
      var i :| 0 <= i < |ps| && ps[i] == p;
      assert Names(ps)[i] == n;
    }
  }

  /** The same for plain texts. */
  lemma SortTextsSpec(ts: seq<Text>)
    ensures |SortTexts(ts)| == |ts|
    ensures forall t :: t in SortTexts(ts) <==> t in ts
    ensures Distinct(SortTexts(ts)) <==> Distinct(ts)
    ensures Distinct(ts) ==> Ascending(SortTexts(ts))
  {
    var ps := Untagged(ts);
    assert Names(ps) == ts;
    SortPermutes(ps);
    SortDistinct(ps);
    forall t
      ensures t in SortTexts(ts) <==> t in ts
    {
      NamesMember(SortPairs(ps), t);
      NamesMember(ps, t);
    }
  }

  /** Sorting texts is sorting any pairs that carry them as names. */
  lemma SortTextsOfPairs<T(!new)>(ts: seq<Text>, ps: seq<(Text, T)>)
    requires |ts| == |ps| && forall i | 0 <= i < |ts| :: ts[i] == ps[i].0
    ensures SortTexts(ts) == Names(SortPairs(ps))
  {
    SortRelated(Untagged(ts), ps, (u: (), t: T) => true);
  }
}
