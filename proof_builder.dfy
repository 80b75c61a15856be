// The PROOF graph builder of witness export (cpa/arg/GraphBuilder.java):
// the CFA nodes of the ARG's relevant path states form a sub-program; a
// breadth-first search from the root location writes every CFA edge that
// leaves a visited node, to its successor when the successor belongs to
// the sub-program and to the sink otherwise. Node ids are the CFA nodes'
// names; a state's id joins the names of its locations with ",".
module ProofGraphs {
  import opened Wrappers
  import opened Strings
  import opened GraphBuilders
  import Sets

  // ----- ids -----

  /** The name of a CFA node: "N" followed by its number. */
  function NodeName(node: nat): (r: string)
    ensures |r| >= 2 && r[0] == 'N'
  {
    "N" + NatToString(node)
  }

  /** After the "N", a node name holds decimal digits only. */
  lemma NodeNameDigits(node: nat)
    ensures forall i :: 1 <= i < |NodeName(node)| ==> IsDigit(NodeName(node)[i])
  {
    var r := NodeName(node);
    forall i | 1 <= i < |r|
      ensures IsDigit(r[i])
    {
      assert r[i] == NatToString(node)[i - 1];
    }
  }

  /** PROOF `getId`: the names of the state's locations joined with ",". */
  function ProofId(locations: seq<nat>): (r: string)
    ensures |r| == 0 <==> |locations| == 0
  {
    if |locations| == 0 then ""
    else if |locations| == 1 then NodeName(locations[0])
    else ProofId(locations[..|locations| - 1]) + ("," + NodeName(locations[|locations| - 1]))
  }

  predicate CommaFree(s: string) {
    forall i :: 0 <= i < |s| ==> s[i] != ','
  }

  lemma NodeNameCommaFree(node: nat)
    ensures CommaFree(NodeName(node))
  {
    var s := NodeName(node);
    forall i | 0 <= i < |s|
      ensures s[i] != ','
    {
      if i > 0 {
        assert s[i] == NatToString(node)[i - 1];
      }
    }
  }

  lemma NodeNameInjective(a: nat, b: nat)
    requires NodeName(a) == NodeName(b)
    ensures a == b
  {
    assert NatToString(a) == NodeName(a)[1..];
    assert NatToString(b) == NodeName(b)[1..];
    NatToStringInjective(a, b);
  }

  /** An id holds a comma exactly when the state has several locations. */
  lemma {:induction false} ProofIdCommas(locations: seq<nat>)
    ensures (exists i :: 0 <= i < |ProofId(locations)| && ProofId(locations)[i] == ',') ==> |locations| > 1
    ensures |locations| > 1 ==> (exists i :: 0 <= i < |ProofId(locations)| && ProofId(locations)[i] == ',')
  {
    var r := ProofId(locations);
    if |locations| == 1 {
      NodeNameCommaFree(locations[0]);
      assert CommaFree(r);
    } else if |locations| > 1 {
      var init, last := ProofId(locations[..|locations| - 1]), NodeName(locations[|locations| - 1]);
      assert r == init + ("," + last);
      assert ("," + last)[0] == ',';
      assert 0 <= |init| < |ProofId(locations)| && ProofId(locations)[|init|] == ',';
    }
  }

  /** In `x + ("," + y)` with `y` free of commas, the last comma is at
   *  position `|x|`. */
  lemma LastComma(x: string, y: string)
    requires CommaFree(y)
    ensures (x + ("," + y))[|x|] == ','
    ensures forall i :: |x| < i < |x| + 1 + |y| ==> (x + ("," + y))[i] != ','
  {
    forall i | |x| < i < |x| + 1 + |y|
      ensures (x + ("," + y))[i] != ','
    {
      assert (x + ("," + y))[i] == y[i - |x| - 1];
    }
  }

  lemma SplitAtLastComma(x: string, y: string, x': string, y': string)
    requires CommaFree(y) && CommaFree(y')
    requires x + ("," + y) == x' + ("," + y')
    ensures x == x' && y == y'
  {
    var s := x + ("," + y);
    LastComma(x, y);
    LastComma(x', y');
    assert |x| == |x'|;
    assert x == s[..|x|] && x' == s[..|x'|];
    assert y == s[|x| + 1..] && y' == s[|x'| + 1..];
  }

  /** Different location sequences have different ids. */
  lemma {:induction false} ProofIdInjective(a: seq<nat>, b: seq<nat>)
    requires ProofId(a) == ProofId(b)
    ensures a == b
  {
    ProofIdCommas(a);
    ProofIdCommas(b);
    if |a| == 1 {
      NodeNameInjective(a[0], b[0]);
    } else if |a| > 1 {
      var a', b' := a[..|a| - 1], b[..|b| - 1];
      NodeNameCommaFree(a[|a| - 1]);
      NodeNameCommaFree(b[|b| - 1]);
      SplitAtLastComma(ProofId(a'), NodeName(a[|a| - 1]), ProofId(b'), NodeName(b[|b| - 1]));
      ProofIdInjective(a', b');
      NodeNameInjective(a[|a| - 1], b[|b| - 1]);
      assert a == a' + [a[|a| - 1]] && b == b' + [b[|b| - 1]];
    }
  }

  // ----- the root location -----

  datatype Error = NoSuchElement | IllegalArgument

  /** `Iterables.getOnlyElement`: the element of a one-element sequence;
   *  `NoSuchElementException` when empty, `IllegalArgumentException` when
   *  longer. */
  function OnlyElement(xs: seq<nat>): (r: Result<nat, Error>)
    ensures r.Ok? <==> |xs| == 1
    ensures r.Ok? ==> xs == [r.value]
    ensures r == Err(NoSuchElement) <==> |xs| == 0
  {
    if |xs| == 0 then Err(NoSuchElement)
    else if |xs| > 1 then Err(IllegalArgument)
    else Ok(xs[0])
  }

  // ----- the sub-program -----

  /** The targets of the ARG edges that are path states reached over a
   *  relevant edge. */
  function RelevantTargets(pairs: seq<(nat, nat)>, pathStates: nat -> bool, isRelevant: (nat, nat) -> bool): set<nat> {
    if |pairs| == 0 then {}
    else
      var p := pairs[|pairs| - 1];
      RelevantTargets(pairs[..|pairs| - 1], pathStates, isRelevant)
      + (if pathStates(p.1) && isRelevant(p.0, p.1) then {p.1} else {})
  }

  /** The relevant targets are exactly the targets of the pairs that pass
   *  both tests. */
  lemma {:induction false} RelevantTargetsMeaning(pairs: seq<(nat, nat)>, pathStates: nat -> bool,
                                                  isRelevant: (nat, nat) -> bool, t: nat)
    ensures t in RelevantTargets(pairs, pathStates, isRelevant)
            <==> exists k :: 0 <= k < |pairs| && pairs[k].1 == t && pathStates(t) && isRelevant(pairs[k].0, t)
  {
    if |pairs| > 0 {
      var init := pairs[..|pairs| - 1];
      RelevantTargetsMeaning(init, pathStates, isRelevant, t);
      if exists k :: 0 <= k < |pairs| && pairs[k].1 == t && pathStates(t) && isRelevant(pairs[k].0, t) {
        var k :| 0 <= k < |pairs| && pairs[k].1 == t && pathStates(t) && isRelevant(pairs[k].0, t);
        if k < |pairs| - 1 {
          assert init[k] == pairs[k];
        }
      }
      if exists k :: 0 <= k < |init| && init[k].1 == t && pathStates(t) && isRelevant(init[k].0, t) {
        var k :| 0 <= k < |init| && init[k].1 == t && pathStates(t) && isRelevant(init[k].0, t);
        assert pairs[k] == init[k];
      }
    }
  }

  /** One more pair adds its target when it passes both tests. */
  lemma RelevantStep(pairs: seq<(nat, nat)>, p: (nat, nat), pathStates: nat -> bool, isRelevant: (nat, nat) -> bool)
    ensures RelevantTargets(pairs + [p], pathStates, isRelevant)
            == RelevantTargets(pairs, pathStates, isRelevant)
               + (if pathStates(p.1) && isRelevant(p.0, p.1) then {p.1} else {})
  {
    assert (pairs + [p])[..|pairs|] == pairs;
  }

  /** `states.get(location)` of a set multimap. */
  function Get(states: map<nat, set<nat>>, location: nat): set<nat> {
    if location in states then states[location] else {}
  }

  /** The sub-program of the root location and of the locations of the
   *  `targets`, and the multimap from each location to the targets at it. */
  ghost predicate Collected(rootNode: nat, targets: set<nat>, locs: nat -> seq<nat>, subProgram: set<nat>,
                            states: map<nat, set<nat>>) {
    && (forall l: nat, t: nat :: t in Get(states, l) <==> t in targets && l in locs(t))
    && (forall l: nat :: l in subProgram <==> l == rootNode || Get(states, l) != {})
  }

  /** `states.put(location, t)`. */
  lemma PutStep(states: map<nat, set<nat>>, location: nat, t: nat)
    ensures forall l: nat :: Get(states[location := Get(states, location) + {t}], l)
                             == Get(states, l) + (if l == location then {t} else {})
  {
  }

  /** The loop over the locations of one target. */
  method AddLocations(rootNode: nat, ghost targets: set<nat>, locs: nat -> seq<nat>, t: nat,
                      subProgram: set<nat>, states: map<nat, set<nat>>)
    returns (subProgram': set<nat>, states': map<nat, set<nat>>)
    requires Collected(rootNode, targets, locs, subProgram, states)
    ensures Collected(rootNode, targets + {t}, locs, subProgram', states')
  {
    subProgram', states' := subProgram, states;
    var locations := locs(t);
    var i := 0;
    while i < |locations|
      invariant 0 <= i <= |locations|
      invariant forall l: nat, u: nat :: u in Get(states', l)
                  <==> (u in targets && l in locs(u)) || (u == t && l in locations[..i])
      invariant forall l: nat :: l in subProgram' <==> l == rootNode || Get(states', l) != {}
    {
      var location := locations[i];
      assert locations[..i + 1] == locations[..i] + [location];
      ghost var old' := states';
      PutStep(states', location, t);
      subProgram' := subProgram' + {location};
      states' := states'[location := Get(states', location) + {t}];
      forall l: nat, u: nat
        ensures u in Get(states', l) <==> (u in targets && l in locs(u)) || (u == t && l in locations[..i + 1])
      {
        assert Get(states', l) == Get(old', l) + (if l == location then {t} else {});
      }
      i := i + 1;
    }
    assert locations[..i] == locations;
  }

  /** The loop over the children of one ARG state. */
  method AddTargets(rootNode: nat, s: nat, children: seq<nat>, locs: nat -> seq<nat>, pathStates: nat -> bool,
                    isRelevant: (nat, nat) -> bool, ghost before: seq<(nat, nat)>,
                    subProgram: set<nat>, states: map<nat, set<nat>>)
    returns (subProgram': set<nat>, states': map<nat, set<nat>>)
    requires Collected(rootNode, RelevantTargets(before, pathStates, isRelevant), locs, subProgram, states)
    ensures Collected(rootNode, RelevantTargets(before + Pairs((s, children)), pathStates, isRelevant), locs,
                      subProgram', states')
  {
    subProgram', states' := subProgram, states;
    ghost var pairs := Pairs((s, children));
    assert before + pairs[..0] == before;
    var j := 0;
    while j < |children|
      invariant 0 <= j <= |children|
      invariant Collected(rootNode, RelevantTargets(before + pairs[..j], pathStates, isRelevant), locs,
                          subProgram', states')
    {
      var target := children[j];
      PrefixStep(before, pairs, j);
      RelevantStep(before + pairs[..j], (s, target), pathStates, isRelevant);
      if pathStates(target) && isRelevant(s, target) {
        subProgram', states' := AddLocations(rootNode, RelevantTargets(before + pairs[..j], pathStates, isRelevant),
                                             locs, target, subProgram', states');
      }
      j := j + 1;
    }
    assert pairs[..j] == pairs;
  }

  /** The first half of PROOF `buildGraph`: the sub-program and the
   *  multimap from its locations to the relevant path states. */
  method CollectSubProgram(rootNode: nat, argEdges: seq<(nat, seq<nat>)>, locs: nat -> seq<nat>,
                           pathStates: nat -> bool, isRelevant: (nat, nat) -> bool)
    returns (subProgram: set<nat>, states: map<nat, set<nat>>)
    ensures Collected(rootNode, RelevantTargets(Flatten(argEdges), pathStates, isRelevant), locs, subProgram, states)
  {
    subProgram, states := {rootNode}, map[];
    var i := 0;
    while i < |argEdges|
      invariant 0 <= i <= |argEdges|
      invariant Collected(rootNode, RelevantTargets(Flatten(argEdges[..i]), pathStates, isRelevant), locs,
                          subProgram, states)
    {
      assert argEdges[..i + 1][..i] == argEdges[..i];
      subProgram, states := AddTargets(rootNode, argEdges[i].0, argEdges[i].1, locs, pathStates, isRelevant,
                                       Flatten(argEdges[..i]), subProgram, states);
      i := i + 1;
    }
    assert argEdges[..i] == argEdges;
  }

  // ----- the written edges -----

  /** One call of the edge appender: `appendNewEdge` between two CFA
   *  nodes, or `appendNewEdgeToSink` from a node, given the whole edge. */
  datatype ProofEdge =
    | NewEdge(source: string, target: string, edge: SimpleEdge, states: Option<set<nat>>)
    | SinkEdge(source: string, cfaEdge: CfaEdge)

  /** The edge written for one simple edge. */
  function SimpleTrace(x: SimpleEdge, states: Option<set<nat>>): ProofEdge {
    NewEdge(NodeName(x.predecessor), NodeName(x.successor), x, states)
  }

  /** The edges written for the first `n` sub-edges of a MultiEdge: only
   *  the last sub-edge carries the states. */
  function PartsTrace(parts: seq<SimpleEdge>, states: Option<set<nat>>, n: nat): seq<ProofEdge>
    requires n <= |parts|
  {
    if n == 0 then []
    else PartsTrace(parts, states, n - 1) + [SimpleTrace(parts[n - 1], if n < |parts| then None else states)]
  }

  /** `appendEdge`: a simple edge is written as it is, a MultiEdge
   *  sub-edge by sub-edge. */
  function EdgeTrace(e: CfaEdge, states: Option<set<nat>>): seq<ProofEdge> {
    match e
    case Single(x) => [SimpleTrace(x, states)]
    case Multi(parts) => PartsTrace(parts, states, |parts|)
  }

  lemma {:induction false} PartsTraceShape(parts: seq<SimpleEdge>, states: Option<set<nat>>, n: nat)
    requires n <= |parts|
    ensures var t := PartsTrace(parts, states, n);
            |t| == n
            && forall i :: 0 <= i < n ==> t[i] == SimpleTrace(parts[i], if i < |parts| - 1 then None else states)
  {
    if n > 0 {
      PartsTraceShape(parts, states, n - 1);
    }
  }

  /** The edges written for one CFA edge: one per sub-edge, in order, each
   *  between the names of its own nodes; only the last one carries the
   *  states. */
  lemma EdgeTraceShape(e: CfaEdge, states: Option<set<nat>>)
    requires WellFormedEdge(e)
    ensures var t := EdgeTrace(e, states);
            var parts := if e.Single? then [e.edge] else e.parts;
            |t| == |parts| > 0
            && (forall i :: 0 <= i < |t| ==>
                  t[i].NewEdge? && t[i].edge == parts[i]
                  && t[i].source == NodeName(parts[i].predecessor) && t[i].target == NodeName(parts[i].successor)
                  && t[i].states == if i < |t| - 1 then None else states)
  {
    if e.Multi? {
      PartsTraceShape(e.parts, states, |e.parts|);
    }
  }

  /** `appendEdge`, with the iterator over the sub-edges of a MultiEdge. */
  method AppendEdge(e: CfaEdge, states: Option<set<nat>>) returns (appended: seq<ProofEdge>)
    ensures appended == EdgeTrace(e, states)
  {
    if e.Multi? {
      appended := [];
      var i := 0;
      while i < |e.parts|
        invariant 0 <= i <= |e.parts|
        invariant appended == PartsTrace(e.parts, states, i)
      {
        var hasNext := i + 1 < |e.parts|;
        appended := appended + [SimpleTrace(e.parts[i], if hasNext then None else states)];
        i := i + 1;
      }
    } else {
      appended := [SimpleTrace(e.edge, states)];
    }
  }

  /** Every leaving edge of every CFA node is well formed. */
  ghost predicate LeavingWellFormed(leaving: nat -> seq<CfaEdge>) {
    forall n: nat, i: nat :: i < |leaving(n)| ==> WellFormedEdge(leaving(n)[i])
  }

  /** What is written for an edge leaving `current`. */
  function LeavingTrace(current: nat, e: CfaEdge, subProgram: set<nat>, states: map<nat, set<nat>>): seq<ProofEdge>
    requires WellFormedEdge(e)
  {
    if Successor(e) in subProgram then EdgeTrace(e, Some(Get(states, Successor(e))))
    else [SinkEdge(NodeName(current), e)]
  }

  /** What is written for the first `n` edges leaving `current`. */
  function NodeTrace(current: nat, leaving: nat -> seq<CfaEdge>, n: nat, subProgram: set<nat>,
                     states: map<nat, set<nat>>): seq<ProofEdge>
    requires LeavingWellFormed(leaving) && n <= |leaving(current)|
  {
    if n == 0 then []
    else NodeTrace(current, leaving, n - 1, subProgram, states)
         + LeavingTrace(current, leaving(current)[n - 1], subProgram, states)
  }

  /** What is written for the nodes of `order`, in that order. */
  function ProofTrace(order: seq<nat>, leaving: nat -> seq<CfaEdge>, subProgram: set<nat>,
                      states: map<nat, set<nat>>): seq<ProofEdge>
    requires LeavingWellFormed(leaving)
  {
    if |order| == 0 then []
    else
      var c := order[|order| - 1];
      ProofTrace(order[..|order| - 1], leaving, subProgram, states) + NodeTrace(c, leaving, |leaving(c)|, subProgram, states)
  }

  // ----- the breadth-first search -----

  predicate Distinct(s: seq<nat>) {
    forall i, j :: 0 <= i < j < |s| ==> s[i] != s[j]
  }

  /** The state of the search. `seen` lists the nodes in the order they
   *  were enqueued: the first `done` have been polled and the rest is the
   *  waitlist; `visited` holds exactly the seen nodes, each seen once;
   *  `from[k]` names the node and edge index that enqueued node `k`; the
   *  successors of the edges already handled that lie in the sub-program
   *  are visited — all edges of the polled nodes and the first `partial`
   *  edges of node `done`. */
  ghost predicate Search(leaving: nat -> seq<CfaEdge>, subProgram: set<nat>, rootNode: nat, seen: seq<nat>,
                         from: seq<(nat, nat)>, visited: set<nat>, done: nat, partial: nat)
    requires LeavingWellFormed(leaving)
  {
    && 0 < |seen| && seen[0] == rootNode && done <= |seen| && |from| == |seen|
    && Distinct(seen)
    && (forall n :: n in visited <==> n in seen)
    && visited <= subProgram
    && (forall k :: 0 < k < |seen| ==>
          from[k].0 < k && from[k].1 < |leaving(seen[from[k].0])|
          && Successor(leaving(seen[from[k].0])[from[k].1]) == seen[k])
    && (forall k, i :: 0 <= k < |seen| && 0 <= i < |leaving(seen[k])| && (k < done || (k == done && i < partial))
                       && Successor(leaving(seen[k])[i]) in subProgram
                       ==> Successor(leaving(seen[k])[i]) in visited)
  }

  lemma ConcatAssoc<T>(a: seq<T>, b: seq<T>, c: seq<T>)
    ensures a + b + c == a + (b + c)
  {
  }

  /** One more leaving edge extends the node's trace. */
  lemma NodeTraceStep(current: nat, leaving: nat -> seq<CfaEdge>, n: nat, subProgram: set<nat>,
                      states: map<nat, set<nat>>)
    requires LeavingWellFormed(leaving) && n < |leaving(current)|
    ensures NodeTrace(current, leaving, n + 1, subProgram, states)
            == NodeTrace(current, leaving, n, subProgram, states)
               + LeavingTrace(current, leaving(current)[n], subProgram, states)
  {
  }

  /** Handling an edge whose successor needs no enqueueing keeps the
   *  search state. */
  lemma SearchSkip(leaving: nat -> seq<CfaEdge>, subProgram: set<nat>, rootNode: nat, seen: seq<nat>,
                   from: seq<(nat, nat)>, visited: set<nat>, done: nat, j: nat)
    requires LeavingWellFormed(leaving)
    requires Search(leaving, subProgram, rootNode, seen, from, visited, done, j)
    requires done < |seen| && j < |leaving(seen[done])|
    requires Successor(leaving(seen[done])[j]) in subProgram ==> Successor(leaving(seen[done])[j]) in visited
    ensures Search(leaving, subProgram, rootNode, seen, from, visited, done, j + 1)
  {
  }

  /** Enqueueing a new successor in the sub-program keeps the search
   *  state. */
  lemma SearchPush(leaving: nat -> seq<CfaEdge>, subProgram: set<nat>, rootNode: nat, seen: seq<nat>,
                   from: seq<(nat, nat)>, visited: set<nat>, done: nat, j: nat)
    requires LeavingWellFormed(leaving)
    requires Search(leaving, subProgram, rootNode, seen, from, visited, done, j)
    requires done < |seen| && j < |leaving(seen[done])|
    requires Successor(leaving(seen[done])[j]) in subProgram && Successor(leaving(seen[done])[j]) !in visited
    ensures var successor := Successor(leaving(seen[done])[j]);
            Search(leaving, subProgram, rootNode, seen + [successor], from + [(done, j)], visited + {successor},
                   done, j + 1)
  {
    var successor := Successor(leaving(seen[done])[j]);
    var seen', from' := seen + [successor], from + [(done, j)];
    forall k | 0 < k < |seen'|
      ensures from'[k].0 < k && from'[k].1 < |leaving(seen'[from'[k].0])|
              && Successor(leaving(seen'[from'[k].0])[from'[k].1]) == seen'[k]
    {
      if k < |seen| {
        assert from'[k] == from[k] && seen'[from[k].0] == seen[from[k].0];
      }
    }
  }

  /** The state of the search while the edges of node `done` are handled,
   *  since it was polled with the nodes `seen0` seen and `visited0`
   *  visited. */
  ghost predicate Busy(leaving: nat -> seq<CfaEdge>, subProgram: set<nat>, rootNode: nat, seen0: seq<nat>,
                       visited0: set<nat>, seen: seq<nat>, from: seq<(nat, nat)>, visited: set<nat>, done: nat,
                       j: nat, waitlist: seq<nat>)
    requires LeavingWellFormed(leaving)
  {
    && Search(leaving, subProgram, rootNode, seen, from, visited, done, j)
    && done < |seen0| && seen0 <= seen && waitlist == seen[done + 1..]
    && visited0 <= visited && (visited == visited0 ==> seen == seen0)
  }

  /** One leaving edge of the polled node `current`: it is written, and its
   *  successor is enqueued when it lies in the sub-program and is new. */
  method VisitEdge(leaving: nat -> seq<CfaEdge>, subProgram: set<nat>, states: map<nat, set<nat>>, rootNode: nat,
                   current: nat, j: nat, ghost seen0: seq<nat>, ghost visited0: set<nat>, ghost seen: seq<nat>,
                   ghost from: seq<(nat, nat)>, visited: set<nat>, ghost done: nat, waitlist: seq<nat>,
                   ghost base: seq<ProofEdge>, trace: seq<ProofEdge>)
    returns (ghost seen': seq<nat>, ghost from': seq<(nat, nat)>, visited': set<nat>, waitlist': seq<nat>,
             trace': seq<ProofEdge>)
    requires LeavingWellFormed(leaving)
    requires Busy(leaving, subProgram, rootNode, seen0, visited0, seen, from, visited, done, j, waitlist)
    requires current == seen0[done] && j < |leaving(current)|
    requires trace == base + NodeTrace(current, leaving, j, subProgram, states)
    ensures Busy(leaving, subProgram, rootNode, seen0, visited0, seen', from', visited', done, j + 1, waitlist')
    ensures trace' == base + NodeTrace(current, leaving, j + 1, subProgram, states)
  {
    seen', from', visited', waitlist' := seen, from, visited, waitlist;
    var e := leaving(current)[j];
    var successor := Successor(e);
    NodeTraceStep(current, leaving, j, subProgram, states);
    var appended;
    if successor in subProgram {
      appended := AppendEdge(e, Some(Get(states, successor)));
      if successor !in visited {
        SearchPush(leaving, subProgram, rootNode, seen, from, visited, done, j);
        visited' := visited + {successor};
        waitlist' := waitlist + [successor];
        seen' := seen + [successor];
        from' := from + [(done, j)];
        assert seen'[done + 1..] == seen[done + 1..] + [successor];
      } else {
        SearchSkip(leaving, subProgram, rootNode, seen, from, visited, done, j);
      }
    } else {
      SearchSkip(leaving, subProgram, rootNode, seen, from, visited, done, j);
      appended := [SinkEdge(NodeName(current), e)];
    }
    assert appended == LeavingTrace(current, e, subProgram, states);
    ConcatAssoc(base, NodeTrace(current, leaving, j, subProgram, states), appended);
    trace' := trace + appended;
  }

  /** One more polled node extends the trace by its leaving edges. */
  lemma ProofTraceStep(seen: seq<nat>, done: nat, leaving: nat -> seq<CfaEdge>, subProgram: set<nat>,
                       states: map<nat, set<nat>>)
    requires LeavingWellFormed(leaving) && done < |seen|
    ensures ProofTrace(seen[..done + 1], leaving, subProgram, states)
            == ProofTrace(seen[..done], leaving, subProgram, states)
               + NodeTrace(seen[done], leaving, |leaving(seen[done])|, subProgram, states)
  {
    assert seen[..done + 1][..done] == seen[..done];
  }

  /** The loop over the edges leaving the polled node `current`. */
  method VisitNode(leaving: nat -> seq<CfaEdge>, subProgram: set<nat>, states: map<nat, set<nat>>, rootNode: nat,
                   current: nat, ghost seen: seq<nat>, ghost from: seq<(nat, nat)>, visited: set<nat>,
                   ghost done: nat, waitlist: seq<nat>, trace: seq<ProofEdge>)
    returns (ghost seen': seq<nat>, ghost from': seq<(nat, nat)>, visited': set<nat>, waitlist': seq<nat>,
             trace': seq<ProofEdge>)
    requires LeavingWellFormed(leaving)
    requires Search(leaving, subProgram, rootNode, seen, from, visited, done, 0)
    requires done < |seen| && current == seen[done] && waitlist == seen[done + 1..]
    requires trace == ProofTrace(seen[..done], leaving, subProgram, states)
    ensures Search(leaving, subProgram, rootNode, seen', from', visited', done + 1, 0)
    ensures seen <= seen' && waitlist' == seen'[done + 1..] && visited <= visited'
    ensures visited' == visited ==> seen' == seen
    ensures trace' == ProofTrace(seen'[..done + 1], leaving, subProgram, states)
  {
    seen', from', visited', waitlist', trace' := seen, from, visited, waitlist, trace;
    var edges := leaving(current);
    ghost var base := ProofTrace(seen[..done], leaving, subProgram, states);
    BusyStart(leaving, subProgram, rootNode, seen, from, visited, done, waitlist);
    var j := 0;
    while j < |edges|
      invariant 0 <= j <= |edges|
      invariant Busy(leaving, subProgram, rootNode, seen, visited, seen', from', visited', done, j, waitlist')
      invariant trace' == base + NodeTrace(current, leaving, j, subProgram, states)
    {
      seen', from', visited', waitlist', trace' :=
        VisitEdge(leaving, subProgram, states, rootNode, current, j, seen, visited, seen', from', visited', done,
                  waitlist', base, trace');
      j := j + 1;
    }
    SearchNext(leaving, subProgram, rootNode, seen', from', visited', done);
    assert seen'[..done] == seen[..done];
    ProofTraceStep(seen', done, leaving, subProgram, states);
  }

  /** Polling node `done` starts the loop over its leaving edges. */
  lemma BusyStart(leaving: nat -> seq<CfaEdge>, subProgram: set<nat>, rootNode: nat, seen: seq<nat>,
                  from: seq<(nat, nat)>, visited: set<nat>, done: nat, waitlist: seq<nat>)
    requires LeavingWellFormed(leaving)
    requires Search(leaving, subProgram, rootNode, seen, from, visited, done, 0)
    requires done < |seen| && waitlist == seen[done + 1..]
    ensures Busy(leaving, subProgram, rootNode, seen, visited, seen, from, visited, done, 0, waitlist)
  {
  }

  /** With every edge of the polled node handled, the search moves on to
   *  the next node. */
  lemma SearchNext(leaving: nat -> seq<CfaEdge>, subProgram: set<nat>, rootNode: nat, seen: seq<nat>,
                   from: seq<(nat, nat)>, visited: set<nat>, done: nat)
    requires LeavingWellFormed(leaving)
    requires done < |seen| && Search(leaving, subProgram, rootNode, seen, from, visited, done, |leaving(seen[done])|)
    ensures Search(leaving, subProgram, rootNode, seen, from, visited, done + 1, 0)
  {
  }

  /** The outcome of the search: `order` lists the visited nodes, the root
   *  location first and each once, all in the sub-program; `from[k]` names
   *  the earlier node and the edge index over which node `k` was found;
   *  every successor in the sub-program of a visited node is visited. */
  ghost predicate Explored(leaving: nat -> seq<CfaEdge>, subProgram: set<nat>, rootNode: nat, order: seq<nat>,
                           from: seq<(nat, nat)>)
    requires LeavingWellFormed(leaving)
  {
    && 0 < |order| && order[0] == rootNode && Distinct(order) && |from| == |order|
    && (forall k :: 0 <= k < |order| ==> order[k] in subProgram)
    && (forall k :: 0 < k < |order| ==>
          from[k].0 < k && from[k].1 < |leaving(order[from[k].0])|
          && Successor(leaving(order[from[k].0])[from[k].1]) == order[k])
    && (forall k, i :: 0 <= k < |order| && 0 <= i < |leaving(order[k])| && Successor(leaving(order[k])[i]) in subProgram
                       ==> Successor(leaving(order[k])[i]) in order)
  }

  /** The second half of PROOF `buildGraph`: the search from the root
   *  location. */
  method SearchFromRoot(leaving: nat -> seq<CfaEdge>, subProgram: set<nat>, states: map<nat, set<nat>>, rootNode: nat)
    returns (trace: seq<ProofEdge>, ghost order: seq<nat>, ghost from: seq<(nat, nat)>)
    requires LeavingWellFormed(leaving) && rootNode in subProgram
    ensures Explored(leaving, subProgram, rootNode, order, from)
    ensures trace == ProofTrace(order, leaving, subProgram, states)
  {
    ghost var seen := [rootNode];
    from := [(0, 0)];
    var visited := {rootNode};
    var waitlist := [rootNode];
    ghost var done := 0;
    trace := [];
    while |waitlist| > 0
      invariant Search(leaving, subProgram, rootNode, seen, from, visited, done, 0)
      invariant waitlist == seen[done..]
      invariant trace == ProofTrace(seen[..done], leaving, subProgram, states)
      decreases |subProgram| - |visited|, |waitlist|
    {
      Sets.SubsetCard(visited, subProgram);
      var current := waitlist[0];
      ghost var visited0 := visited;
      seen, from, visited, waitlist, trace :=
        VisitNode(leaving, subProgram, states, rootNode, current, seen, from, visited, done, waitlist[1..], trace);
      done := done + 1;
      if visited != visited0 {
        Sets.ProperSubsetCard(visited0, visited);
      }
      Sets.SubsetCard(visited, subProgram);
    }
    order := seen;
    assert seen[..done] == seen;
  }

  /** PROOF `buildGraph`. The root location is the only location of the
   *  root state; the sub-program holds it and the locations of the
   *  relevant path states; the trace is what the search writes. */
  method BuildProof(root: nat, argEdges: seq<(nat, seq<nat>)>, locs: nat -> seq<nat>, leaving: nat -> seq<CfaEdge>,
                    pathStates: nat -> bool, isRelevant: (nat, nat) -> bool)
    returns (r: Result<seq<ProofEdge>, Error>, subProgram: set<nat>, states: map<nat, set<nat>>,
             ghost order: seq<nat>, ghost from: seq<(nat, nat)>)
    requires LeavingWellFormed(leaving)
    ensures r.Err? <==> |locs(root)| != 1
    ensures r == Err(NoSuchElement) <==> |locs(root)| == 0
    ensures r.Ok? ==>
              && Collected(locs(root)[0], RelevantTargets(Flatten(argEdges), pathStates, isRelevant), locs,
                           subProgram, states)
              && Explored(leaving, subProgram, locs(root)[0], order, from)
              && r.value == ProofTrace(order, leaving, subProgram, states)
  {
    order, from := [], [];
    subProgram, states := {}, map[];
    var rootNode := OnlyElement(locs(root));
    if rootNode.Err? {
      return Err(rootNode.error), subProgram, states, order, from;
    }
    subProgram, states := CollectSubProgram(rootNode.value, argEdges, locs, pathStates, isRelevant);
    var trace;
    trace, order, from := SearchFromRoot(leaving, subProgram, states, rootNode.value);
    r := Ok(trace);
  }

  // ----- what the search reaches -----

  /** Some edge leaving `a` leads to `b`. */
  ghost predicate Step(leaving: nat -> seq<CfaEdge>, a: nat, b: nat)
    requires LeavingWellFormed(leaving)
  {
    exists i :: 0 <= i < |leaving(a)| && Successor(leaving(a)[i]) == b
  }

  /** A path of CFA edges inside the sub-program. */
  ghost predicate SubProgramPath(leaving: nat -> seq<CfaEdge>, subProgram: set<nat>, path: seq<nat>)
    requires LeavingWellFormed(leaving)
  {
    && 0 < |path|
    && (forall k :: 0 <= k < |path| ==> path[k] in subProgram)
    && (forall k :: 0 <= k < |path| - 1 ==> Step(leaving, path[k], path[k + 1]))
  }

  /** Every node reachable from the root location inside the sub-program is
   *  visited. */
  lemma {:induction false} ReachableExplored(leaving: nat -> seq<CfaEdge>, subProgram: set<nat>, rootNode: nat,
                                             order: seq<nat>, from: seq<(nat, nat)>, path: seq<nat>)
    requires LeavingWellFormed(leaving)
    requires Explored(leaving, subProgram, rootNode, order, from)
    requires SubProgramPath(leaving, subProgram, path) && path[0] == rootNode
    ensures path[|path| - 1] in order
  {
    if |path| > 1 {
      var init := path[..|path| - 1];
      assert SubProgramPath(leaving, subProgram, init) by {
        forall k | 0 <= k < |init| - 1
          ensures Step(leaving, init[k], init[k + 1])
        {
          assert init[k] == path[k] && init[k + 1] == path[k + 1];
        }
      }
      ReachableExplored(leaving, subProgram, rootNode, order, from, init);
      var a := init[|init| - 1];
      var k :| 0 <= k < |order| && order[k] == a;
      assert Step(leaving, path[|path| - 2], path[|path| - 1]);
      var i :| 0 <= i < |leaving(a)| && Successor(leaving(a)[i]) == path[|path| - 1];
    }
  }

  /** The path over which the search found node `k`. */
  ghost function PathTo(order: seq<nat>, from: seq<(nat, nat)>, k: nat): seq<nat>
    requires |from| == |order| && k < |order|
    requires forall m :: 0 < m < |order| ==> from[m].0 < m
    decreases k
  {
    if k == 0 then [order[0]] else PathTo(order, from, from[k].0) + [order[k]]
  }

  /** Every visited node is reachable from the root location inside the
   *  sub-program. */
  lemma {:induction false} ExploredReachable(leaving: nat -> seq<CfaEdge>, subProgram: set<nat>, rootNode: nat,
                                             order: seq<nat>, from: seq<(nat, nat)>, k: nat)
    requires LeavingWellFormed(leaving)
    requires Explored(leaving, subProgram, rootNode, order, from)
    requires k < |order|
    ensures var path := PathTo(order, from, k);
            SubProgramPath(leaving, subProgram, path) && path[0] == rootNode && path[|path| - 1] == order[k]
    decreases k
  {
    if k > 0 {
      var parent := from[k].0;
      ExploredReachable(leaving, subProgram, rootNode, order, from, parent);
      var init := PathTo(order, from, parent);
      var path := init + [order[k]];
      assert Step(leaving, order[parent], order[k]);
      forall m | 0 <= m < |path| - 1
        ensures Step(leaving, path[m], path[m + 1])
      {
        if m < |init| - 1 {
          assert path[m] == init[m] && path[m + 1] == init[m + 1];
        }
      }
    }
  }
}
