/** Hierarchical resolution: the rule of the deepest state that matches, the states left and the states entered. */
module Resolver {
  import opened Text

  type Path = seq<string>

  datatype Rule = Rule(
    owner: string, event: string, guard: bool, reject: bool, mode: string, target: string, leaf: string, name: string)

  datatype Effect = Effect(kind: string, node: string, data: int)

  datatype Result = Result(
    outcome: string, leaf: string, handler: string, exited: seq<string>, entered: seq<string>, actions: seq<Effect>)

  /** The fixed tables as parameters: the path of each state, the initial descent of the compound ones, the rules, and
      whether the chart is refused for its terminal states. */
  datatype Chart = Chart(
    paths: map<string, Path>, initial: map<string, string>, rules: seq<Rule>, invalidTerminal: bool)

  function Reverse<T>(xs: seq<T>): (r: seq<T>)
    ensures |r| == |xs|
  {
    if |xs| == 0 then [] else [xs[|xs| - 1]] + Reverse(xs[..|xs| - 1])
  }

  function Empty(outcome: string, leaf: string): Result {
    Result(outcome, leaf, "", [], [], [])
  }

  predicate Matches(r: Rule, node: string, event: string) {
    r.owner == node && (!r.guard || r.event == event)
  }

  function SelectRules(rules: seq<Rule>, node: string, event: string): seq<Rule> {
    if |rules| == 0 then []
    else (if Matches(rules[0], node, event) then [rules[0]] else []) + SelectRules(rules[1..], node, event)
  }

  /** The rules of the nodes, node by node. */
  function Candidates(nodes: Path, rules: seq<Rule>, event: string): seq<Rule> {
    if |nodes| == 0 then []
    else Candidates(nodes[..|nodes| - 1], rules, event) + SelectRules(rules, nodes[|nodes| - 1], event)
  }

  /** The positions where two paths agree. */
  function Agreeing(a: Path, b: Path): set<int> {
    set i | 0 <= i < |a| && i < |b| && a[i] == b[i]
  }

  function Effects(kind: string, nodes: seq<string>, data: int): (r: seq<Effect>)
    ensures |r| == |nodes| && forall i | 0 <= i < |r| :: r[i] == Effect(kind, nodes[i], data)
  {
    seq(|nodes|, i requires 0 <= i < |nodes| => Effect(kind, nodes[i], data))
  }

  /** How much of the old path is kept; a state that has no path is an evaluation error. */
  function Boundary(chart: Chart, from: string, r: Rule, leaf: string): Option<int> {
    if from !in chart.paths || leaf !in chart.paths then None
    else
      var fromPath, toPath := chart.paths[from], chart.paths[leaf];
      if r.mode == "goto" && r.target in fromPath then
        if r.target in chart.paths then Some(|chart.paths[r.target]| - 1) else None
      else if leaf == from then
        if r.owner in chart.paths then Some(|chart.paths[r.owner]| - 1) else None
      else Some(|Agreeing(fromPath, toPath)|)
  }

  function Transition(chart: Chart, from: string, r: Rule): Option<Result> {
    match Boundary(chart, from, r, r.leaf)
    case None => None
    case Some(boundary) =>
      var fromPath, toPath := chart.paths[from], chart.paths[r.leaf];
      if !(0 <= boundary <= |fromPath|) || !(boundary <= |toPath|) then None
      else
        var exits, entries := Reverse(fromPath[boundary..]), toPath[boundary..];
        Some(Result("Handled", r.leaf, r.owner, exits, entries,
                    Effects("exit", exits, 0) + [Effect("rule", r.name, 1)] + Effects("entry", entries, 1)))
  }

  /** `resolve`; without a result, the model has no value there. */
  function Resolve(chart: Chart, from: string, event: string): Option<Result> {
    if from !in chart.paths then None
    else
      var candidates := Candidates(Reverse(chart.paths[from]), chart.rules, event);
      if chart.invalidTerminal then Some(Empty("InvalidTerminal", from))
      else if |candidates| == 0 then Some(Empty("Unhandled", from))
      else
        var r := candidates[0];
        var leaf := if r.mode == "internal" then from else r.leaf;
        if !r.guard then Some(Empty("GuardFailed", from))
        else if r.reject then Some(Empty("Rejected", from))
        else if r.mode == "goto" && r.target in chart.initial && leaf != chart.initial[r.target] then
          Some(Empty("TargetMismatch", from))
        else if r.mode == "internal" then
          Some(Result("Handled", leaf, r.owner, [], [], [Effect("rule", r.name, 1)]))
        else Transition(chart, from, r)
  }

  // ---------------------------------------------------------------- trees

  /** The states form a tree: a path ends in its state, and the path of each state on it is its part up to that
      state. */
  ghost predicate Tree(paths: map<string, Path>) {
    forall n | n in paths :: OnTree(paths, n)
  }

  predicate OnTree(paths: map<string, Path>, n: string)
    requires n in paths
  {
    && |paths[n]| > 0 && paths[n][|paths[n]| - 1] == n
    && forall k | 0 <= k < |paths[n]| :: paths[n][k] in paths && paths[paths[n][k]] == paths[n][..k + 1]
  }

  /** Longest common prefix. */
  function Common(a: Path, b: Path): (k: nat)
    ensures k <= |a| && k <= |b| && a[..k] == b[..k]
    ensures k < |a| && k < |b| ==> a[k] != b[k]
  {
    if |a| == 0 || |b| == 0 || a[0] != b[0] then 0
    else
      var k := Common(a[1..], b[1..]);
      assert a[..k + 1] == [a[0]] + a[1..][..k];
      assert b[..k + 1] == [b[0]] + b[1..][..k];
      k + 1
  }

  /** The positions below `n`. */
  function Below(n: nat): (r: set<int>)
    ensures forall i :: i in r <==> 0 <= i < n
    ensures |r| == n
  {
    if n == 0 then {} else Below(n - 1) + {n - 1}
  }

  /** Paths that agree at a position agree before it. */
  predicate Aligned(a: Path, b: Path) {
    forall i | 0 <= i < |a| && i < |b| && a[i] == b[i] :: a[..i + 1] == b[..i + 1]
  }

  lemma TreePathsAligned(paths: map<string, Path>, m: string, n: string)
    requires Tree(paths) && m in paths && n in paths
    ensures Aligned(paths[m], paths[n])
  {
    var a, b := paths[m], paths[n];
    assert OnTree(paths, m) && OnTree(paths, n);
    forall i | 0 <= i < |a| && i < |b| && a[i] == b[i]
      ensures a[..i + 1] == b[..i + 1]
    {
      assert paths[a[i]] == a[..i + 1] && paths[b[i]] == b[..i + 1];
    }
  }

  lemma KeepsIffCommon(a: Path, b: Path, k: nat)
    requires k <= |a| && k <= |b|
    ensures a[..k] == b[..k] <==> k <= Common(a, b)
  {
    var c := Common(a, b);
    if k <= c {
      assert a[..k] == a[..c][..k] && b[..k] == b[..c][..k];
    } else {
      assert a[..k][c] == a[c] && b[..k][c] == b[c];
    }
  }

  /** Counting agreeing positions gives the longest common prefix when the paths are aligned, as those of a tree are. */
  lemma AgreeingIsCommon(a: Path, b: Path)
    requires Aligned(a, b)
    ensures |Agreeing(a, b)| == Common(a, b)
  {
    var k := Common(a, b);
    forall i | i in Agreeing(a, b)
      ensures i < k
    {
      KeepsIffCommon(a, b, i + 1);
    }
    forall i | 0 <= i < k
      ensures i in Agreeing(a, b)
    {
      assert a[..k][i] == b[..k][i];
    }
    assert Agreeing(a, b) == Below(k);
  }

  // ---------------------------------------------------------------- which rule

  lemma {:induction false} ReverseAt<T>(xs: seq<T>, i: nat)
    requires i < |xs|
    ensures Reverse(xs)[i] == xs[|xs| - 1 - i]
  {
    if i > 0 {
      ReverseAt(xs[..|xs| - 1], i - 1);
    }
  }

  predicate NoneMatches(rules: seq<Rule>, node: string, event: string) {
    forall j | 0 <= j < |rules| :: !Matches(rules[j], node, event)
  }

  /** The first of the rules that matches the node is the first selected. */
  lemma {:induction false} SelectFirst(rules: seq<Rule>, node: string, event: string) returns (j: nat)
    ensures SelectRules(rules, node, event) == [] <==> NoneMatches(rules, node, event)
    ensures SelectRules(rules, node, event) != [] ==>
      && j < |rules| && SelectRules(rules, node, event)[0] == rules[j] && Matches(rules[j], node, event)
      && forall i | 0 <= i < j :: !Matches(rules[i], node, event)
  {
    j := 0;
    if |rules| > 0 && !Matches(rules[0], node, event) {
      var k := SelectFirst(rules[1..], node, event);
      j := k + 1;
      assert forall i | 0 < i < |rules| :: rules[i] == rules[1..][i - 1];
    }
  }

  predicate Unmatched(path: Path, rules: seq<Rule>, event: string) {
    forall k | 0 <= k < |path| :: NoneMatches(rules, path[k], event)
  }

  /** The first candidate is the first matching rule of the first node that has one. */
  predicate FirstMatch(nodes: Path, rules: seq<Rule>, event: string, d: nat, j: nat) {
    && d < |nodes| && j < |rules| && Matches(rules[j], nodes[d], event)
    && (forall i | 0 <= i < j :: !Matches(rules[i], nodes[d], event))
    && (forall e | 0 <= e < d :: NoneMatches(rules, nodes[e], event))
  }

  lemma {:induction false} CandidateFirst(nodes: Path, rules: seq<Rule>, event: string) returns (d: nat, j: nat)
    ensures Candidates(nodes, rules, event) == [] <==> Unmatched(nodes, rules, event)
    ensures Candidates(nodes, rules, event) != [] ==>
      FirstMatch(nodes, rules, event, d, j) && Candidates(nodes, rules, event)[0] == rules[j]
  {
    d, j := 0, 0;
    if |nodes| > 0 {
      var last := |nodes| - 1;
      d, j := CandidateFirst(nodes[..last], rules, event);
      var k := SelectFirst(rules, nodes[last], event);
      assert forall e | 0 <= e < last :: nodes[..last][e] == nodes[e];
      if Candidates(nodes[..last], rules, event) == [] {
        d, j := last, k;
        assert forall e | 0 <= e < last :: NoneMatches(rules, nodes[..last][e], event);
      }
    }
  }

  /** The rule is the first declared of those that match the state at the depth, and no deeper state has one. */
  predicate DeepestMatch(path: Path, rules: seq<Rule>, event: string, depth: nat, j: nat) {
    && depth < |path| && j < |rules| && Matches(rules[j], path[depth], event)
    && (forall i | 0 <= i < j :: !Matches(rules[i], path[depth], event))
    && (forall k | depth < k < |path| :: NoneMatches(rules, path[k], event))
  }

  /** `nodes` lists the path from its end. */
  predicate Mirrors(nodes: Path, path: Path) {
    |nodes| == |path| && forall i | 0 <= i < |nodes| :: nodes[i] == path[|nodes| - 1 - i]
  }

  lemma ReverseMirrors(path: Path)
    ensures Mirrors(Reverse(path), path)
  {
    forall i | 0 <= i < |path|
      ensures Reverse(path)[i] == path[|path| - 1 - i]
    {
      ReverseAt(path, i);
    }
  }

  lemma MirroredMatch(nodes: Path, path: Path, rules: seq<Rule>, event: string, d: nat, j: nat)
    requires Mirrors(nodes, path) && FirstMatch(nodes, rules, event, d, j)
    ensures d < |path| && DeepestMatch(path, rules, event, |path| - 1 - d, j)
  {
    assert nodes[d] == path[|path| - 1 - d];
    forall k | |path| - 1 - d < k < |path|
      ensures NoneMatches(rules, path[k], event)
    {
      assert NoneMatches(rules, nodes[|path| - 1 - k], event);
    }
  }

  lemma MirroredUnmatched(nodes: Path, path: Path, rules: seq<Rule>, event: string)
    requires Mirrors(nodes, path)
    ensures Unmatched(nodes, rules, event) <==> Unmatched(path, rules, event)
  {
    if Unmatched(nodes, rules, event) {
      forall k | 0 <= k < |path|
        ensures NoneMatches(rules, path[k], event)
      {
        assert NoneMatches(rules, nodes[|path| - 1 - k], event);
      }
    }
    if Unmatched(path, rules, event) {
      forall k | 0 <= k < |path|
        ensures NoneMatches(rules, nodes[k], event)
      {
        assert NoneMatches(rules, path[|path| - 1 - k], event);
      }
    }
  }

  /** From the leaf to the root and then in declaration order: the rule considered is that of the deepest state on the
      path that has a matching one, and of its matching rules the first declared; none is considered exactly when no
      state on the path has one. */
  lemma DeepestFirst(path: Path, rules: seq<Rule>, event: string) returns (depth: nat, j: nat)
    ensures
      var candidates := Candidates(Reverse(path), rules, event);
      && (candidates == [] <==> Unmatched(path, rules, event))
      && (candidates != [] ==> DeepestMatch(path, rules, event, depth, j) && candidates[0] == rules[j])
  {
    var d;
    d, j := CandidateFirst(Reverse(path), rules, event);
    ReverseMirrors(path);
    MirroredUnmatched(Reverse(path), path, rules, event);
    if Candidates(Reverse(path), rules, event) != [] {
      MirroredMatch(Reverse(path), path, rules, event, d, j);
      depth := |path| - 1 - d;
    } else {
      depth := 0;
    }
  }

  // ---------------------------------------------------------------- path splicing

  /** The old path without the states exited, then the states entered. */
  function Spliced(fromPath: Path, exited: seq<string>, entered: seq<string>): Path {
    (if |exited| <= |fromPath| then fromPath[..|fromPath| - |exited|] else []) + entered
  }

  lemma SplicedAt(fromPath: Path, toPath: Path, k: nat)
    requires k <= |fromPath| && k <= |toPath|
    ensures Spliced(fromPath, Reverse(fromPath[k..]), toPath[k..]) == toPath <==> fromPath[..k] == toPath[..k]
  {
    assert toPath == toPath[..k] + toPath[k..];
    var r := Spliced(fromPath, Reverse(fromPath[k..]), toPath[k..]);
    assert r == fromPath[..k] + toPath[k..];
    if r == toPath {
      assert r[..k] == fromPath[..k];
    }
  }

  /** A rule that jumps to an ancestor of its source, or the source itself. */
  predicate JumpsUp(chart: Chart, from: string, r: Rule) {
    from in chart.paths && r.mode == "goto" && r.target in chart.paths[from]
  }

  /** The new leaf is under the parent of the rule's target. */
  predicate UnderParent(chart: Chart, r: Rule) {
    r.target in chart.paths && r.leaf in chart.paths && 0 < |chart.paths[r.target]| <= |chart.paths[r.leaf]| + 1 &&
    chart.paths[r.leaf][..|chart.paths[r.target]| - 1] == chart.paths[r.target][..|chart.paths[r.target]| - 1]
  }

  lemma AncestorPath(paths: map<string, Path>, from: string, target: string)
    requires Tree(paths) && from in paths && target in paths[from]
    ensures target in paths && 0 < |paths[target]| <= |paths[from]| && paths[target] == paths[from][..|paths[target]|]
  {
    var k :| 0 <= k < |paths[from]| && paths[from][k] == target;
    assert OnTree(paths, from);
    assert paths[target] == paths[from][..k + 1];
  }

  lemma BoundaryKeeps(chart: Chart, from: string, r: Rule, k: nat)
    requires Tree(chart.paths) && from in chart.paths && r.leaf in chart.paths && r.owner in chart.paths[from]
    requires Boundary(chart, from, r, r.leaf) == Some(k) && k <= |chart.paths[from]| && k <= |chart.paths[r.leaf]|
    ensures chart.paths[from][..k] == chart.paths[r.leaf][..k] <==> (JumpsUp(chart, from, r) ==> UnderParent(chart, r))
  {
    var fromPath, toPath := chart.paths[from], chart.paths[r.leaf];
    if JumpsUp(chart, from, r) {
      AncestorPath(chart.paths, from, r.target);
      assert chart.paths[r.target][..k] == fromPath[..k];
    } else if r.leaf != from {
      TreePathsAligned(chart.paths, from, r.leaf);
      AgreeingIsCommon(fromPath, toPath);
    }
  }

  /** The exits run from the old leaf up, and the effects are those of the exits, then the rule's, then the entries'. */
  predicate InEffectOrder(fromPath: Path, name: string, result: Result) {
    var n := |result.exited|;
    && n <= |fromPath| && (forall i | 0 <= i < n :: result.exited[i] == fromPath[|fromPath| - 1 - i])
    && |result.actions| == n + 1 + |result.entered|
    && (forall i | 0 <= i < n :: result.actions[i] == Effect("exit", fromPath[|fromPath| - 1 - i], 0))
    && result.actions[n] == Effect("rule", name, 1)
    && (forall i | n < i < |result.actions| :: result.actions[i] == Effect("entry", result.entered[i - n - 1], 1))
  }

  lemma EffectsInOrder(fromPath: Path, k: nat, name: string, result: Result)
    requires k <= |fromPath| && result.exited == Reverse(fromPath[k..])
    requires result.actions ==
        Effects("exit", result.exited, 0) + [Effect("rule", name, 1)] + Effects("entry", result.entered, 1)
    ensures InEffectOrder(fromPath, name, result)
  {
    forall i | 0 <= i < |fromPath| - k
      ensures Reverse(fromPath[k..])[i] == fromPath[|fromPath| - 1 - i]
    {
      ReverseAt(fromPath[k..], i);
    }
  }

  /** Removing the states exited from the old path and appending the states entered gives the path of the new leaf,
      exactly when the rule does not jump to an ancestor or its leaf is under the parent of the target. */
  lemma TransitionSplices(chart: Chart, from: string, r: Rule)
    requires Tree(chart.paths) && from in chart.paths && r.owner in chart.paths[from]
    requires Transition(chart, from, r).Some?
    ensures
      var fromPath, toPath, result := chart.paths[from], chart.paths[r.leaf], Transition(chart, from, r).value;
      && (Spliced(fromPath, result.exited, result.entered) == toPath <==>
            (JumpsUp(chart, from, r) ==> UnderParent(chart, r)))
      && InEffectOrder(fromPath, r.name, result)
  {
    var fromPath, toPath := chart.paths[from], chart.paths[r.leaf];
    var k := Boundary(chart, from, r, r.leaf).value;
    BoundaryKeeps(chart, from, r, k);
    SplicedAt(fromPath, toPath, k);
    EffectsInOrder(fromPath, k, r.name, Transition(chart, from, r).value);
  }

  /** A chart whose initial descents lead below their states. */
  predicate Descends(chart: Chart, target: string, leaf: string) {
    target in chart.paths && leaf in chart.paths && 0 < |chart.paths[target]| <= |chart.paths[leaf]| &&
    chart.paths[leaf][..|chart.paths[target]|] == chart.paths[target]
  }

  /** On a tree every state on the path resolves; a transition is defined when its leaf is a state, unless it jumps to
      an ancestor that is more than one level below the leaf's end. */
  lemma TransitionDefined(chart: Chart, from: string, r: Rule)
    requires Tree(chart.paths) && from in chart.paths && r.owner in chart.paths[from]
    ensures Transition(chart, from, r).Some? <==>
      r.leaf in chart.paths && (JumpsUp(chart, from, r) ==> |chart.paths[r.target]| <= |chart.paths[r.leaf]| + 1)
  {
    AncestorPath(chart.paths, from, r.owner);
    if r.leaf in chart.paths {
      if JumpsUp(chart, from, r) {
        AncestorPath(chart.paths, from, r.target);
      } else if r.leaf != from {
        TreePathsAligned(chart.paths, from, r.leaf);
        AgreeingIsCommon(chart.paths[from], chart.paths[r.leaf]);
      }
    }
  }

  /** Initial descents lead below their states, and a jump is to a state with one or to a leaf itself. */
  ghost predicate WellFormed(chart: Chart) {
    && Tree(chart.paths)
    && (forall t | t in chart.initial :: Descends(chart, t, chart.initial[t]))
    && (forall j | 0 <= j < |chart.rules| && chart.rules[j].mode == "goto" ::
          chart.rules[j].target in chart.initial || chart.rules[j].target == chart.rules[j].leaf)
  }

  lemma JumpDescends(chart: Chart, j: nat)
    requires WellFormed(chart) && j < |chart.rules| &&
        chart.rules[j].mode == "goto" && chart.rules[j].leaf in chart.paths
    requires chart.rules[j].target in chart.initial ==> chart.rules[j].leaf == chart.initial[chart.rules[j].target]
    ensures UnderParent(chart, chart.rules[j])
  {
    var r := chart.rules[j];
    assert OnTree(chart.paths, r.leaf);
    if r.target in chart.initial {
      assert Descends(chart, r.target, r.leaf);
      var n := |chart.paths[r.target]|;
      assert chart.paths[r.leaf][..n - 1] == chart.paths[r.leaf][..n][..n - 1];
    }
  }

  /** In every well-formed chart, whatever its tree and rules: handling an event exits and enters exactly the states
      that lead from the old path to that of the new leaf, and its handler is a state of the old path. */
  lemma HandledPath(chart: Chart, from: string, event: string)
    requires WellFormed(chart) && from in chart.paths
    requires Resolve(chart, from, event).Some? && Resolve(chart, from, event).value.outcome == "Handled"
    ensures
      var result := Resolve(chart, from, event).value;
      && result.leaf in chart.paths
      && Spliced(chart.paths[from], result.exited, result.entered) == chart.paths[result.leaf]
      && result.handler in chart.paths[from]
  {
    var depth, j := DeepestFirst(chart.paths[from], chart.rules, event);
    var r, path := chart.rules[j], chart.paths[from];
    assert r.owner == path[depth];
    if r.mode == "internal" {
      assert path[..|path|] == path;
      assert Spliced(path, [], []) == path;
    } else {
      TransitionSplices(chart, from, r);
      if r.mode == "goto" {
        JumpDescends(chart, j);
      }
    }
  }

  // ---------------------------------------------------------------- what resolution answers

  /** The rule jumps to a compound state but names another leaf than its initial descent. */
  predicate Mismatched(chart: Chart, from: string, r: Rule) {
    r.mode == "goto" && r.target in chart.initial && r.leaf != chart.initial[r.target]
  }

  predicate Answers(answer: Option<Result>, outcome: string) {
    answer.Some? && answer.value.outcome == outcome
  }

  /** The answer is the one the rule asks for: refused by its guard, by its rejection or for its target, in that
      order, with nothing done; otherwise handled by its owner, with its own effect and its own leaf, or the old leaf
      for an internal rule, which leaves and enters nothing. */
  predicate Decided(chart: Chart, from: string, r: Rule, answer: Option<Result>) {
    && (Answers(answer, "GuardFailed") <==> !r.guard)
    && (Answers(answer, "Rejected") <==> r.guard && r.reject)
    && (Answers(answer, "TargetMismatch") <==> r.guard && !r.reject && Mismatched(chart, from, r))
    && (Answers(answer, "Handled") <==>
          r.guard && !r.reject && !Mismatched(chart, from, r) && (r.mode == "internal" || r.leaf in chart.paths))
    && (Answers(answer, "Handled") ==>
          && answer.value.handler == r.owner
          && answer.value.leaf == (if r.mode == "internal" then from else r.leaf)
          && Effect("rule", r.name, 1) in answer.value.actions
          && (r.mode == "internal" ==>
                answer.value.exited == [] && answer.value.entered == [] && |answer.value.actions| == 1))
    && (answer.Some? && answer.value.outcome != "Handled" ==> answer.value == Empty(answer.value.outcome, from))
  }

  /** A rule of the state that is for the event, or whose guard fails whatever the event. */
  predicate Concerns(r: Rule, node: string, event: string) {
    r.owner == node && (r.guard ==> r.event == event)
  }

  /** The rule is one that concerns the state at the depth, and no rule of a deeper state, nor an earlier one of that
      state, concerns it. */
  predicate FirstConcerned(path: Path, rules: seq<Rule>, event: string, depth: nat, j: nat) {
    && depth < |path| && j < |rules| && Concerns(rules[j], path[depth], event)
    && (forall i | 0 <= i < j :: !Concerns(rules[i], path[depth], event))
    && (forall k, i | depth < k < |path| && 0 <= i < |rules| :: !Concerns(rules[i], path[k], event))
  }

  predicate NoneConcerned(path: Path, rules: seq<Rule>, event: string) {
    forall k, i | 0 <= k < |path| && 0 <= i < |rules| :: !Concerns(rules[i], path[k], event)
  }

  lemma ConcernedMatch(path: Path, rules: seq<Rule>, event: string, depth: nat, j: nat)
    ensures Unmatched(path, rules, event) <==> NoneConcerned(path, rules, event)
    ensures DeepestMatch(path, rules, event, depth, j) ==> FirstConcerned(path, rules, event, depth, j)
  {
    forall k | 0 <= k < |path|
      ensures NoneMatches(rules, path[k], event) <==>
        forall i | 0 <= i < |rules| :: !Concerns(rules[i], path[k], event)
    {
      forall i | 0 <= i < |rules|
        ensures Matches(rules[i], path[k], event) <==> Concerns(rules[i], path[k], event)
      {
      }
    }
  }

  /** Resolution in full: a chart refused for its terminal states answers so; otherwise, if no state on the path has a
      matching rule, the event is unhandled; otherwise the rule first declared of those matching the deepest state
      that has one decides. */
  lemma ResolveMeans(chart: Chart, from: string, event: string) returns (depth: nat, j: nat)
    requires WellFormed(chart) && from in chart.paths
    ensures
      var path, answer := chart.paths[from], Resolve(chart, from, event);
      && (Answers(answer, "InvalidTerminal") <==> chart.invalidTerminal)
      && (Answers(answer, "Unhandled") <==> !chart.invalidTerminal && NoneConcerned(path, chart.rules, event))
      && (chart.invalidTerminal || NoneConcerned(path, chart.rules, event) ==>
            answer == Some(Empty(if chart.invalidTerminal then "InvalidTerminal" else "Unhandled", from)))
      && (!chart.invalidTerminal && !NoneConcerned(path, chart.rules, event) ==>
            FirstConcerned(path, chart.rules, event, depth, j) && Decided(chart, from, chart.rules[j], answer))
  {
    var path := chart.paths[from];
    depth, j := DeepestFirst(path, chart.rules, event);
    ConcernedMatch(path, chart.rules, event, depth, j);
    if !chart.invalidTerminal && !Unmatched(path, chart.rules, event) {
      RuleDecides(chart, from, event, j);
    }
  }

  lemma RuleDecides(chart: Chart, from: string, event: string, j: nat)
    requires WellFormed(chart) && from in chart.paths && !chart.invalidTerminal && j < |chart.rules|
    requires
      var candidates := Candidates(Reverse(chart.paths[from]), chart.rules, event);
      candidates != [] && candidates[0] == chart.rules[j] && chart.rules[j].owner in chart.paths[from]
    ensures Decided(chart, from, chart.rules[j], Resolve(chart, from, event))
  {
    var r := chart.rules[j];
    if r.guard && !r.reject && !Mismatched(chart, from, r) && r.mode != "internal" {
      TransitionDefined(chart, from, r);
      if r.mode == "goto" && r.leaf in chart.paths {
        JumpDescends(chart, j);
      }
      if r.leaf in chart.paths {
        RuleEffect(chart, from, r);
      }
    }
  }

  lemma RuleEffect(chart: Chart, from: string, r: Rule)
    requires Transition(chart, from, r).Some?
    ensures Effect("rule", r.name, 1) in Transition(chart, from, r).value.actions
  {
    var result := Transition(chart, from, r).value;
    assert result.actions[|result.exited|] == Effect("rule", r.name, 1);
  }

  // ---------------------------------------------------------------- which states are left

  predicate Disjoint(a: seq<string>, b: seq<string>) {
    forall x | x in a :: x !in b
  }

  /** No more is left than must be: a jump to a state on the path leaves up to that state, a transition to the leaf
      itself up to the rule's owner, and any other leaves and enters no state twice. */
  lemma LeavesNoMore(chart: Chart, from: string, r: Rule)
    requires Tree(chart.paths) && from in chart.paths && r.owner in chart.paths[from]
    requires Transition(chart, from, r).Some?
    ensures
      var result := Transition(chart, from, r).value;
      var n := |result.exited|;
      if JumpsUp(chart, from, r) then n > 0 && result.exited[n - 1] == r.target
      else if r.leaf == from then n > 0 && result.exited[n - 1] == r.owner
      else Disjoint(result.exited, result.entered)
  {
    if JumpsUp(chart, from, r) {
      LeavesUpTo(chart, from, r, r.target);
    } else if r.leaf == from {
      LeavesUpTo(chart, from, r, r.owner);
    } else {
      LeavesApart(chart, from, r);
    }
  }

  lemma LeavesUpTo(chart: Chart, from: string, r: Rule, top: string)
    requires Tree(chart.paths) && from in chart.paths && top in chart.paths[from]
    requires Transition(chart, from, r).Some? && top in chart.paths
    requires Boundary(chart, from, r, r.leaf) == Some(|chart.paths[top]| - 1)
    ensures var exited := Transition(chart, from, r).value.exited; |exited| > 0 && exited[|exited| - 1] == top
  {
    var fromPath, k := chart.paths[from], |chart.paths[top]| - 1;
    AncestorPath(chart.paths, from, top);
    assert OnTree(chart.paths, top);
    assert fromPath[k] == chart.paths[top][k];
    ReverseAt(fromPath[k..], |fromPath| - k - 1);
  }

  lemma LeavesApart(chart: Chart, from: string, r: Rule)
    requires Tree(chart.paths) && from in chart.paths && Transition(chart, from, r).Some?
    requires !JumpsUp(chart, from, r) && r.leaf != from
    ensures var result := Transition(chart, from, r).value; Disjoint(result.exited, result.entered)
  {
    var fromPath, toPath := chart.paths[from], chart.paths[r.leaf];
    var k := Common(fromPath, toPath);
    TreePathsAligned(chart.paths, from, r.leaf);
    AgreeingIsCommon(fromPath, toPath);
    ApartBelow(chart.paths, from, r.leaf);
    ReversedMembers(fromPath[k..]);
  }

  lemma {:induction false} ReversedMembers<T>(xs: seq<T>)
    ensures forall x | x in Reverse(xs) :: x in xs
  {
    forall i | 0 <= i < |xs|
      ensures Reverse(xs)[i] in xs
    {
      ReverseAt(xs, i);
    }
  }

  /** In a tree a state is at the same place on every path it is on. */
  lemma SamePlace(paths: map<string, Path>, m: string, n: string, i: nat, p: nat)
    requires Tree(paths) && m in paths && n in paths && i < |paths[m]| && p < |paths[n]| && paths[m][i] == paths[n][p]
    ensures i < Common(paths[m], paths[n])
  {
    var a, b := paths[m], paths[n];
    assert OnTree(paths, m) && OnTree(paths, n);
    assert paths[a[i]] == a[..i + 1] && paths[b[p]] == b[..p + 1];
    assert |a[..i + 1]| == i + 1 && |b[..p + 1]| == p + 1;
    KeepsIffCommon(a, b, i + 1);
  }

  /** Below their longest common prefix two paths of a tree share no state. */
  lemma ApartBelow(paths: map<string, Path>, m: string, n: string)
    requires Tree(paths) && m in paths && n in paths
    ensures var k := Common(paths[m], paths[n]); Disjoint(paths[m][k..], paths[n][k..])
  {
    var a, b := paths[m], paths[n];
    forall i, p | 0 <= i < |a| && 0 <= p < |b| && a[i] == b[p]
      ensures i < Common(a, b)
    {
      SamePlace(paths, m, n, i, p);
    }
  }
}
