// Infeasible-prefix extraction with a strongest-post operator
// (util/refinement/GenericPrefixProvider.java). The error path is walked
// edge by edge; an edge without a successor closes an infeasible prefix
// there, is replaced by a no-op edge, and the walk continues from the state
// before it.
module GenericPrefixes {
  import opened Wrappers

  datatype EdgeKind = FunctionCallEdge | FunctionReturnEdge | OtherEdge

  /** A CFA edge between two CFA nodes; `id` tells edges apart. */
  datatype CfaEdge = CfaEdge(kind: EdgeKind, predecessor: nat, successor: nat, id: nat)

  /** An error path: ARG states s0 .. sn and the edges between them. */
  datatype ErrorPath = ErrorPath(states: seq<nat>, edges: seq<CfaEdge>)

  predicate WellFormed(path: ErrorPath) {
    |path.states| == |path.edges| + 1
  }

  /** An edge of a path the provider builds: an edge of the error path, or
   *  the no-op edge `BlankEdge.buildNoopEdge` makes in place of one. */
  datatype PrefixEdge = Original(edge: CfaEdge) | Noop(predecessor: nat, successor: nat)

  datatype PathPrefix = PathPrefix(states: seq<nat>, edges: seq<PrefixEdge>)

  /** An infeasible prefix with the interpolants of its use-def relation. */
  datatype InfeasiblePrefix = InfeasiblePrefix(path: PathPrefix, interpolants: seq<nat>)

  /** The strongest-post operator over abstract states `S` with a callstack
   *  of states, and the use-def interpolator. The precision is fixed for the
   *  provider and left implicit. */
  datatype PostOperators<!S> = PostOperators(
    handleFunctionCall: (S, CfaEdge, seq<S>) -> (S, seq<S>),
    handleFunctionReturn: (S, CfaEdge, seq<S>) -> (S, seq<S>),
    strongestPost: (S, CfaEdge) -> Option<S>,
    performAbstraction: (S, nat, ErrorPath) -> S,
    interpolants: PathPrefix -> seq<nat>)

  /** `getSuccessor`: a call edge always passes through `handleFunctionCall`,
   *  a return edge through `handleFunctionReturn` only on a non-empty
   *  callstack; the callstack change stays even when there is no successor. */
  function GetSuccessor<S>(ops: PostOperators<S>, next: S, edge: CfaEdge, callstack: seq<S>)
    : (r: (Option<S>, seq<S>))
    ensures edge.kind == OtherEdge ==> r == (ops.strongestPost(next, edge), callstack)
    ensures edge.kind == FunctionReturnEdge && callstack == [] ==> r == (ops.strongestPost(next, edge), [])
    ensures edge.kind == FunctionCallEdge ==>
              var (pre, stack) := ops.handleFunctionCall(next, edge, callstack);
              r == (ops.strongestPost(pre, edge), stack)
    ensures edge.kind == FunctionReturnEdge && callstack != [] ==>
              var (pre, stack) := ops.handleFunctionReturn(next, edge, callstack);
              r == (ops.strongestPost(pre, edge), stack)
  {
    var (n1, s1) := if edge.kind == FunctionCallEdge then ops.handleFunctionCall(next, edge, callstack)
                    else (next, callstack);
    var (n2, s2) := if s1 != [] && edge.kind == FunctionReturnEdge then ops.handleFunctionReturn(n1, edge, s1)
                    else (n1, s1);
    (ops.strongestPost(n2, edge), s2)
  }

  /** The state and callstack the walk goes on with after edge `i`: the
   *  successor, or on failure the state before the edge, in both cases
   *  abstracted at the edge's successor node. */
  function AfterEdge<S>(ops: PostOperators<S>, path: ErrorPath, i: nat, next: S, callstack: seq<S>): (S, seq<S>)
    requires i < |path.edges|
  {
    var (successor, stack) := GetSuccessor(ops, next, path.edges[i], callstack);
    var kept := if successor.Some? then successor.value else next;
    (ops.performAbstraction(kept, path.edges[i].successor, path), stack)
  }

  /** Which edges from `i` on have no successor, walking from `next`. */
  function Failures<S>(ops: PostOperators<S>, path: ErrorPath, i: nat, next: S, callstack: seq<S>): (f: seq<bool>)
    requires i <= |path.edges|
    ensures |f| == |path.edges| - i
    decreases |path.edges| - i
  {
    if i == |path.edges| then []
    else
      var (successor, _) := GetSuccessor(ops, next, path.edges[i], callstack);
      var (n, s) := AfterEdge(ops, path, i, next, callstack);
      [successor.None?] + Failures(ops, path, i + 1, n, s)
  }

  /** The edge kept at position `j`: the original, or a no-op edge between
   *  the same nodes when it failed. */
  function EdgeFor(path: ErrorPath, j: nat, failed: bool): PrefixEdge
    requires j < |path.edges|
  {
    if failed then Noop(path.edges[j].predecessor, path.edges[j].successor) else Original(path.edges[j])
  }

  /** The edges of the feasible prefix kept by the builder for the failure
   *  flags `g` of the first |g| edges. */
  function RebuiltEdges(path: ErrorPath, g: seq<bool>): (r: seq<PrefixEdge>)
    requires |g| <= |path.edges|
    ensures |r| == |g|
    ensures forall j :: 0 <= j < |g| ==> r[j] == EdgeFor(path, j, g[j])
  {
    if g == [] then []
    else RebuiltEdges(path, g[..|g| - 1]) + [EdgeFor(path, |g| - 1, g[|g| - 1])]
  }

  /** The infeasible prefix closed at the failing edge `k`: the states up to
   *  the one after the edge, the rebuilt edges before it and the edge. */
  function PrefixAt<S>(ops: PostOperators<S>, path: ErrorPath, g: seq<bool>, k: nat): InfeasiblePrefix
    requires WellFormed(path) && k < |g| <= |path.edges|
  {
    var p := PathPrefix(path.states[..k + 2], RebuiltEdges(path, g[..k]) + [Original(path.edges[k])]);
    InfeasiblePrefix(p, ops.interpolants(p))
  }

  /** The prefixes recorded for the failure flags `g`, in path order. */
  function PrefixesOf<S>(ops: PostOperators<S>, path: ErrorPath, g: seq<bool>): seq<InfeasiblePrefix>
    requires WellFormed(path) && |g| <= |path.edges|
  {
    if g == [] then []
    else
      PrefixesOf(ops, path, g[..|g| - 1])
      + if g[|g| - 1] then [PrefixAt(ops, path, g, |g| - 1)] else []
  }

  /** The edges of the error path, unchanged. */
  function OriginalEdges(edges: seq<CfaEdge>): (r: seq<PrefixEdge>)
    ensures |r| == |edges| && forall j :: 0 <= j < |edges| ==> r[j] == Original(edges[j])
  {
    if edges == [] then [] else OriginalEdges(edges[..|edges| - 1]) + [Original(edges[|edges| - 1])]
  }

  /** The feasible prefix left by a walk over a non-empty path: the whole
   *  path when the last edge succeeded, else the rebuilt prefix without the
   *  last edge. */
  function FeasibleOf(path: ErrorPath, g: seq<bool>): PathPrefix
    requires WellFormed(path) && |g| == |path.edges| > 0
  {
    var n := |path.edges|;
    if g[n - 1] then PathPrefix(path.states[..n], RebuiltEdges(path, g[..n - 1]))
    else PathPrefix(path.states, OriginalEdges(path.edges))
  }

  function CountTrue(g: seq<bool>): (n: nat)
    ensures n <= |g|
  {
    if g == [] then 0 else CountTrue(g[..|g| - 1]) + if g[|g| - 1] then 1 else 0
  }

  // ------------------------------------------------------------ lemmas

  /** One prefix per failing edge: never more prefixes than edges. */
  lemma {:induction false} PrefixCount<S>(ops: PostOperators<S>, path: ErrorPath, g: seq<bool>)
    requires WellFormed(path) && |g| <= |path.edges|
    ensures |PrefixesOf(ops, path, g)| == CountTrue(g) <= |path.edges|
  {
    if g != [] {
      PrefixCount(ops, path, g[..|g| - 1]);
    }
  }

  /** The prefix closed at `k` is the path up to the state after the edge `k`,
   *  and its edges are those of the path up to `k`, the failed ones before
   *  `k` replaced by no-op edges between the same nodes. */
  lemma PrefixAtShape<S>(ops: PostOperators<S>, path: ErrorPath, g: seq<bool>, k: nat)
    requires WellFormed(path) && k < |g| <= |path.edges|
    ensures var p := PrefixAt(ops, path, g, k).path;
            p.states == path.states[..k + 2] && |p.edges| == k + 1
            && p.edges[k] == Original(path.edges[k])
            && forall j :: 0 <= j < k ==>
                 (p.edges[j].Noop? <==> g[j])
                 && (g[j] ==> p.edges[j] == Noop(path.edges[j].predecessor, path.edges[j].successor))
                 && (!g[j] ==> p.edges[j] == Original(path.edges[j]))
  {
    var p := PrefixAt(ops, path, g, k).path;
    assert forall j :: 0 <= j < k ==> p.edges[j] == RebuiltEdges(path, g[..k])[j];
  }

  /** A prefix is recorded exactly at the failing edges: each recorded one
   *  is closed at a failing edge, and every failing edge has its prefix. */
  lemma {:induction false} PrefixesAtFailures<S>(ops: PostOperators<S>, path: ErrorPath, g: seq<bool>)
    requires WellFormed(path) && |g| <= |path.edges|
    ensures forall p :: p in PrefixesOf(ops, path, g) ==>
              exists k :: 0 <= k < |g| && g[k] && p == PrefixAt(ops, path, g, k)
    ensures forall k :: 0 <= k < |g| && g[k] ==> PrefixAt(ops, path, g, k) in PrefixesOf(ops, path, g)
  {
    if g != [] {
      var init := g[..|g| - 1];
      PrefixesAtFailures(ops, path, init);
      forall k | 0 <= k < |init| ensures PrefixAt(ops, path, init, k) == PrefixAt(ops, path, g, k) {
        assert g[..k] == init[..k];
      }
    }
  }

  /** Each prefix is longer than the one before. */
  predicate InPathOrder(ps: seq<InfeasiblePrefix>) {
    forall a, b :: 0 <= a < b < |ps| ==> |ps[a].path.edges| < |ps[b].path.edges|
  }

  /** Prefixes come out in path order. */
  lemma {:induction false} PrefixesInPathOrder<S>(ops: PostOperators<S>, path: ErrorPath, g: seq<bool>)
    requires WellFormed(path) && |g| <= |path.edges|
    ensures InPathOrder(PrefixesOf(ops, path, g))
    ensures forall p :: p in PrefixesOf(ops, path, g) ==> |p.path.edges| <= |g|
  {
    if g != [] {
      var init := g[..|g| - 1];
      PrefixesInPathOrder(ops, path, init);
      var ps := PrefixesOf(ops, path, g);
      var pi := PrefixesOf(ops, path, init);
      forall a, b | 0 <= a < b < |ps| ensures |ps[a].path.edges| < |ps[b].path.edges| {
        assert ps[a] == pi[a] && pi[a] in pi;
        if b < |pi| {
          assert ps[b] == pi[b];
          assert |pi[a].path.edges| < |pi[b].path.edges|;
        } else {
          assert ps[b] == PrefixAt(ops, path, g, |g| - 1);
          assert |ps[b].path.edges| == |g|;
          assert |pi[a].path.edges| <= |init|;
        }
      }
      forall p | p in ps ensures |p.path.edges| <= |g| {
        if p !in pi {
          assert p == PrefixAt(ops, path, g, |g| - 1);
        }
      }
    }
  }

  /** A walk where every edge has a successor records no prefix and keeps
   *  the whole path as the feasible one. */
  lemma {:induction false} NoFailureNoPrefix<S>(ops: PostOperators<S>, path: ErrorPath, g: seq<bool>)
    requires WellFormed(path) && |g| <= |path.edges|
    requires forall k :: 0 <= k < |g| ==> !g[k]
    ensures PrefixesOf(ops, path, g) == []
    ensures |g| == |path.edges| > 0 ==> FeasibleOf(path, g) == PathPrefix(path.states, OriginalEdges(path.edges))
  {
    if g != [] {
      NoFailureNoPrefix(ops, path, g[..|g| - 1]);
    }
  }

  /** What one more edge with failure flag `b` adds to the rebuilt edges
   *  and, at the last edge, which feasible prefix it leaves. */
  lemma RebuiltStep(path: ErrorPath, failed: seq<bool>, b: bool)
    requires WellFormed(path) && |failed| < |path.edges|
    ensures RebuiltEdges(path, failed + [b]) == RebuiltEdges(path, failed) + [EdgeFor(path, |failed|, b)]
    ensures |failed| + 1 == |path.edges| ==>
              FeasibleOf(path, failed + [b])
              == if b then PathPrefix(path.states[..|failed| + 1], RebuiltEdges(path, failed))
                 else PathPrefix(path.states, OriginalEdges(path.edges))
  {
    assert (failed + [b])[..|failed|] == failed;
  }

  /** What one more edge with failure flag `b` adds to the recorded prefixes. */
  lemma WalkStep<S>(ops: PostOperators<S>, path: ErrorPath, failed: seq<bool>, b: bool)
    requires WellFormed(path) && |failed| < |path.edges|
    ensures var i := |failed|;
            var p := PathPrefix(path.states[..i + 2], RebuiltEdges(path, failed) + [Original(path.edges[i])]);
            PrefixesOf(ops, path, failed + [b])
            == PrefixesOf(ops, path, failed) + if b then [InfeasiblePrefix(p, ops.interpolants(p))] else []
  {
    assert (failed + [b])[..|failed|] == failed;
  }

  /** The failure flags from edge `i` on start with that of edge `i`. */
  lemma FailuresStep<S>(ops: PostOperators<S>, path: ErrorPath, failed: seq<bool>, i: nat, next: S, callstack: seq<S>)
    requires i < |path.edges|
    ensures var (n, s) := AfterEdge(ops, path, i, next, callstack);
            failed + Failures(ops, path, i, next, callstack)
            == (failed + [GetSuccessor(ops, next, path.edges[i], callstack).0.None?]) + Failures(ops, path, i + 1, n, s)
  {
    var (n, s) := AfterEdge(ops, path, i, next, callstack);
    var b := GetSuccessor(ops, next, path.edges[i], callstack).0.None?;
    assert Failures(ops, path, i, next, callstack) == [b] + Failures(ops, path, i + 1, n, s);
  }

  /** What the path builder does at edge `i` of the walk: it appends the
   *  state and the edge; on a failing edge it closes the infeasible prefix
   *  there, takes the edge back out and, unless it was the last one, puts a
   *  no-op edge in its place; after the last edge it yields the feasible
   *  prefix. */
  method BuilderStep(path: ErrorPath, i: nat, failedHere: bool, builderStates: seq<nat>,
                     builderEdges: seq<PrefixEdge>, ghost failed: seq<bool>)
    returns (states: seq<nat>, edges: seq<PrefixEdge>, closed: Option<PathPrefix>, feasible: Option<PathPrefix>)
    requires WellFormed(path) && i < |path.edges| && |failed| == i
    requires builderStates == path.states[..i] && builderEdges == RebuiltEdges(path, failed)
    ensures closed == if failedHere then Some(PathPrefix(path.states[..i + 2], RebuiltEdges(path, failed) + [Original(path.edges[i])]))
                      else None
    ensures i + 1 < |path.edges| ==>
              states == path.states[..i + 1] && edges == RebuiltEdges(path, failed + [failedHere]) && feasible.None?
    ensures i + 1 == |path.edges| ==> feasible == Some(FeasibleOf(path, failed + [failedHere]))
  {
    var outgoingEdge := path.edges[i];
    var currentState := path.states[i];
    RebuiltStep(path, failed, failedHere);
    states := builderStates + [currentState];
    edges := builderEdges + [Original(outgoingEdge)];
    closed, feasible := None, None;
    if failedHere {
      var lastState := path.states[|states|];
      assert states + [lastState] == path.states[..i + 2];
      closed := Some(PathPrefix(states + [lastState], edges));
      states := states[..|states| - 1];
      edges := edges[..|edges| - 1];
      assert states == path.states[..i] && edges == builderEdges;
      if i + 1 == |path.edges| {
        assert states + [currentState] == path.states[..i + 1];
        feasible := Some(PathPrefix(states + [currentState], edges));
      } else {
        states := states + [currentState];
        edges := edges + [Noop(outgoingEdge.predecessor, outgoingEdge.successor)];
        assert states == path.states[..i + 1];
      }
    } else if i + 1 == |path.edges| {
      assert path.states[..i + 1] + [path.states[i + 1]] == path.states;
      feasible := Some(PathPrefix(path.states, OriginalEdges(path.edges)));
    } else {
      assert states == path.states[..i + 1];
    }
  }

  /** The prefix provider, with the feasible prefix of the last walk. */
  class GenericPrefixProvider<S> {
    const ops: PostOperators<S>
    const initialState: S
    /** `feasiblePrefix`; `None` before the first walk that sets it. */
    var feasiblePrefix: Option<PathPrefix>

    constructor(ops: PostOperators<S>, emptyState: S)
      ensures this.ops == ops && initialState == emptyState && feasiblePrefix.None?
    {
      this.ops := ops;
      initialState := emptyState;
      feasiblePrefix := None;
    }

    /** `extractInfeasiblePrefixes(path, initial)`. */
    method ExtractInfeasiblePrefixesFrom(path: ErrorPath, initial: S) returns (prefixes: seq<InfeasiblePrefix>)
      requires WellFormed(path)
      modifies this`feasiblePrefix
      ensures prefixes == PrefixesOf(ops, path, Failures(ops, path, 0, initial, []))
      ensures |path.edges| > 0 ==> feasiblePrefix == Some(FeasibleOf(path, Failures(ops, path, 0, initial, [])))
      ensures |path.edges| == 0 ==> feasiblePrefix == old(feasiblePrefix)
    {
      ghost var all := Failures(ops, path, 0, initial, []);
      prefixes := [];
      var callstack: seq<S> := [];
      var builderStates: seq<nat> := [];
      var builderEdges: seq<PrefixEdge> := [];
      var next := initial;
      ghost var failed: seq<bool> := [];
      var i := 0;
      while i < |path.edges|
        invariant 0 <= i <= |path.edges| && |failed| == i
        invariant all == failed + Failures(ops, path, i, next, callstack)
        invariant i < |path.edges| ==> builderStates == path.states[..i] && builderEdges == RebuiltEdges(path, failed)
        invariant prefixes == PrefixesOf(ops, path, failed)
        invariant i < |path.edges| || |path.edges| == 0 ==> feasiblePrefix == old(feasiblePrefix)
        invariant i == |path.edges| > 0 ==> feasiblePrefix == Some(FeasibleOf(path, failed))
      {
        var outgoingEdge := path.edges[i];
        ghost var nextBefore, stackBefore := next, callstack;
        var (successor, stack) := GetSuccessor(ops, next, outgoingEdge, callstack);
        FailuresStep(ops, path, failed, i, next, callstack);
        WalkStep(ops, path, failed, successor.None?);
        var closed, feasible;
        builderStates, builderEdges, closed, feasible :=
          BuilderStep(path, i, successor.None?, builderStates, builderEdges, failed);
        if closed.Some? {
          prefixes := prefixes + [InfeasiblePrefix(closed.value, ops.interpolants(closed.value))];
        }
        if feasible.Some? {
          feasiblePrefix := feasible;
        }
        next := ops.performAbstraction(if successor.Some? then successor.value else next, outgoingEdge.successor, path);
        callstack := stack;
        assert (next, callstack) == AfterEdge(ops, path, i, nextBefore, stackBefore);
        failed := failed + [successor.None?];
        i := i + 1;
      }
      assert all == failed;
    }

    /** `extractInfeasiblePrefixes(path)`: the walk from the initial state. */
    method ExtractInfeasiblePrefixes(path: ErrorPath) returns (prefixes: seq<InfeasiblePrefix>)
      requires WellFormed(path)
      modifies this`feasiblePrefix
      ensures prefixes == PrefixesOf(ops, path, Failures(ops, path, 0, initialState, []))
      ensures |path.edges| > 0 ==> feasiblePrefix == Some(FeasibleOf(path, Failures(ops, path, 0, initialState, [])))
      ensures |path.edges| == 0 ==> feasiblePrefix == old(feasiblePrefix)
    {
      prefixes := ExtractInfeasiblePrefixesFrom(path, initialState);
    }

    /** `extractFeasilbePath`: the feasible prefix the walk leaves, which is
     *  the whole path when its last edge has a successor. */
    method ExtractFeasiblePath(path: ErrorPath) returns (r: Option<PathPrefix>)
      requires WellFormed(path)
      modifies this`feasiblePrefix
      ensures r == feasiblePrefix
      ensures |path.edges| > 0 ==> r == Some(FeasibleOf(path, Failures(ops, path, 0, initialState, [])))
      ensures |path.edges| == 0 ==> r == old(feasiblePrefix)
    {
      var _ := ExtractInfeasiblePrefixes(path);
      r := feasiblePrefix;
    }
  }
}
