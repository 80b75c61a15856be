// The two graph builders of witness export (cpa/arg/GraphBuilder.java):
// ARG_PATH writes the edges of the ARG, expanding each MultiEdge into a
// chain of pseudo-states; PROOF writes the CFA edges of the sub-program the
// ARG covers, found by a breadth-first search from the root location. The
// edge appender is modelled as appending to a trace of `Appended` records.
module GraphBuilders {
  import opened Wrappers
  import opened Strings

  /** A CFA edge that is not a MultiEdge. */
  datatype SimpleEdge = SimpleEdge(predecessor: nat, successor: nat, isAssume: bool, number: nat)

  /** A CFA edge: a simple edge or a MultiEdge, a sequence of simple edges. */
  datatype CfaEdge = Single(edge: SimpleEdge) | Multi(parts: seq<SimpleEdge>)

  /** A MultiEdge has at least one sub-edge, and its inner sub-edges are no
   *  assume edges (the `assert` in the ARG_PATH builder). */
  predicate WellFormedEdge(e: CfaEdge) {
    e.Multi? ==> |e.parts| > 0 && forall i :: 0 <= i < |e.parts| - 1 ==> !e.parts[i].isAssume
  }

  /** The node a CFA edge leads to: for a MultiEdge, that of its last sub-edge. */
  function Successor(e: CfaEdge): nat
    requires WellFormedEdge(e)
  {
    match e
    case Single(x) => x.successor
    case Multi(parts) => parts[|parts| - 1].successor
  }

  datatype Target = Node(id: string) | Sink

  /** One call of the edge appender: `appendNewEdge` when the target is a
   *  node, `appendNewEdgeToSink` otherwise; `states` is the optional
   *  collection of ARG states passed along. */
  datatype Appended = Appended(source: string, target: Target, edge: SimpleEdge, states: Option<set<nat>>)

  // ----- ARG_PATH -----

  /** ARG_PATH `getId`: "A" followed by the state id. */
  function ArgId(state: nat): (r: string)
    ensures |r| >= 2 && r[0] == 'A'
  {
    "A" + NatToString(state)
  }

  /** After the "A", an ARG_PATH id holds decimal digits only. */
  lemma ArgIdDigits(state: nat)
    ensures forall i :: 1 <= i < |ArgId(state)| ==> IsDigit(ArgId(state)[i])
  {
    var r := ArgId(state);
    forall i | 1 <= i < |r|
      ensures IsDigit(r[i])
    {
      assert r[i] == NatToString(state)[i - 1];
    }
  }

  /** The id of the pseudo-state after sub-edge `subStateNo` of the
   *  MultiEdge numbered `subStateCount` leading to `state`: the state's id
   *  followed by "_<subStateNo>_<subStateCount>". */
  function PseudoId(state: nat, subStateNo: nat, subStateCount: nat): string {
    "A" + (NatToString(state) + ("_" + (NatToString(subStateNo) + ("_" + NatToString(subStateCount)))))
  }

  /** A pseudo-state id is its state's id followed by "_" and the numbers. */
  lemma PseudoIdExtendsArgId(state: nat, subStateNo: nat, subStateCount: nat)
    ensures var r := PseudoId(state, subStateNo, subStateCount);
      |r| > |ArgId(state)| && r[..|ArgId(state)|] == ArgId(state) && r[|ArgId(state)|] == '_'
  {
    var r := PseudoId(state, subStateNo, subStateCount);
    assert r == ArgId(state) + ("_" + (NatToString(subStateNo) + ("_" + NatToString(subStateCount))));
  }

  /** Different states have different ids. */
  lemma ArgIdInjective(a: nat, b: nat)
    requires ArgId(a) == ArgId(b)
    ensures a == b
  {
    assert NatToString(a) == ArgId(a)[1..];
    assert NatToString(b) == ArgId(b)[1..];
    NatToStringInjective(a, b);
  }

  /** A pseudo-state id is never the id of a state. */
  lemma PseudoIdIsNoArgId(state: nat, subStateNo: nat, subStateCount: nat, other: nat)
    ensures PseudoId(state, subStateNo, subStateCount) != ArgId(other)
  {
    var p, d, q := PseudoId(state, subStateNo, subStateCount), NatToString(state), ArgId(other);
    assert p[1 + |d|] == '_';
    forall i | 0 <= i < |q|
      ensures q[i] != '_'
    {
      if i > 0 {
        assert q[i] == NatToString(other)[i - 1];
      }
    }
  }

  /** In `x + ("_" + y)` with `x` all digits, the first underscore is at
   *  position `|x|`. */
  lemma FirstUnderscore(x: string, y: string)
    requires forall i :: 0 <= i < |x| ==> IsDigit(x[i])
    ensures (x + ("_" + y))[|x|] == '_'
    ensures forall i :: 0 <= i < |x| ==> (x + ("_" + y))[i] != '_'
  {
    forall i | 0 <= i < |x|
      ensures (x + ("_" + y))[i] != '_'
    {
      assert (x + ("_" + y))[i] == x[i];
    }
  }

  /** A digit string followed by '_' is split at that '_'. */
  lemma SplitAtUnderscore(x: string, y: string, x': string, y': string)
    requires forall i :: 0 <= i < |x| ==> IsDigit(x[i])
    requires forall i :: 0 <= i < |x'| ==> IsDigit(x'[i])
    requires x + ("_" + y) == x' + ("_" + y')
    ensures x == x' && y == y'
  {
    var s := x + ("_" + y);
    FirstUnderscore(x, y);
    FirstUnderscore(x', y');
    assert |x| == |x'|;
    assert x == s[..|x|] && x' == s[..|x'|];
    assert y == s[|x| + 1..] && y' == s[|x'| + 1..];
  }

  /** Pseudo-state ids determine the state, the sub-edge and the MultiEdge
   *  number. */
  lemma PseudoIdInjective(a: nat, i: nat, n: nat, b: nat, j: nat, m: nat)
    requires PseudoId(a, i, n) == PseudoId(b, j, m)
    ensures a == b && i == j && n == m
  {
    var ta, tb := NatToString(i) + ("_" + NatToString(n)), NatToString(j) + ("_" + NatToString(m));
    assert PseudoId(a, i, n)[1..] == NatToString(a) + ("_" + ta);
    assert PseudoId(b, j, m)[1..] == NatToString(b) + ("_" + tb);
    SplitAtUnderscore(NatToString(a), ta, NatToString(b), tb);
    NatToStringInjective(a, b);
    SplitAtUnderscore(NatToString(i), NatToString(n), NatToString(j), NatToString(m));
    NatToStringInjective(i, j);
    NatToStringInjective(n, m);
  }

  /** The last edge of a child leads to the child when the child is a path
   *  state and the edge is relevant, and to the sink otherwise. */
  function FinalTarget(child: nat, toChild: bool): Target {
    if toChild then Node(ArgId(child)) else Sink
  }

  /** The source of sub-edge `i` of a chain that starts at `source`. */
  function ChainSource(source: string, child: nat, i: nat, count: nat): string {
    if i == 0 then source else PseudoId(child, i - 1, count)
  }

  /** Inner edge `i` of a MultiEdge: to a pseudo-state, without states. */
  function ChainEdge(source: string, child: nat, parts: seq<SimpleEdge>, count: nat, i: nat): Appended
    requires i < |parts|
  {
    Appended(ChainSource(source, child, i, count), Node(PseudoId(child, i, count)), parts[i], None)
  }

  /** The first `n` inner edges of a MultiEdge. */
  function Chain(source: string, child: nat, parts: seq<SimpleEdge>, count: nat, n: nat): seq<Appended>
    requires n < |parts|
  {
    if n == 0 then []
    else Chain(source, child, parts, count, n - 1) + [ChainEdge(source, child, parts, count, n - 1)]
  }

  lemma {:induction false} ChainShape(source: string, child: nat, parts: seq<SimpleEdge>, count: nat, n: nat)
    requires n < |parts|
    ensures var t := Chain(source, child, parts, count, n);
            |t| == n && forall i :: 0 <= i < n ==> t[i] == ChainEdge(source, child, parts, count, i)
  {
    if n > 0 {
      ChainShape(source, child, parts, count, n - 1);
      var prev := Chain(source, child, parts, count, n - 1);
      var t := prev + [ChainEdge(source, child, parts, count, n - 1)];
      assert Chain(source, child, parts, count, n) == t;
      forall i | 0 <= i < n
        ensures t[i] == ChainEdge(source, child, parts, count, i)
      {
        if i < n - 1 {
          assert t[i] == prev[i];
        }
      }
    }
  }

  /** What the ARG_PATH builder appends for the child `child` of `s`
   *  reached over `e`; `count` is the MultiEdge number for a MultiEdge. */
  function ChildTrace(s: nat, child: nat, e: CfaEdge, count: nat, toChild: bool): seq<Appended>
    requires WellFormedEdge(e)
  {
    match e
    case Single(x) => [Appended(ArgId(s), FinalTarget(child, toChild), x, Some({s}))]
    case Multi(parts) =>
      Chain(ArgId(s), child, parts, count, |parts| - 1)
      + [Appended(ChainSource(ArgId(s), child, |parts| - 1, count), FinalTarget(child, toChild), parts[|parts| - 1],
                  Some({s}))]
  }

  /** The shape of a child's edges: one edge per sub-edge, in order, chained
   *  from the parent's id through the pseudo-states; inner edges carry no
   *  states and lead to pseudo-states, the last one carries `{s}` and leads
   *  to the child or the sink. */
  lemma ChildTraceShape(s: nat, child: nat, e: CfaEdge, count: nat, toChild: bool)
    requires WellFormedEdge(e)
    ensures var t := ChildTrace(s, child, e, count, toChild);
            var k := if e.Single? then 1 else |e.parts|;
            |t| == k
            && t[0].source == ArgId(s)
            && t[k - 1].target == FinalTarget(child, toChild) && t[k - 1].states == Some({s})
            && (forall i :: 0 <= i < k - 1 ==>
                  t[i].states.None? && t[i].target == Node(PseudoId(child, i, count))
                  && t[i + 1].source == PseudoId(child, i, count))
            && (forall i :: 0 <= i < k ==> t[i].edge == if e.Single? then e.edge else e.parts[i])
  {
    if e.Multi? {
      MultiTraceShape(s, child, e.parts, count, toChild);
    }
  }

  /** The MultiEdge case of ChildTraceShape. */
  lemma MultiTraceShape(s: nat, child: nat, parts: seq<SimpleEdge>, count: nat, toChild: bool)
    requires WellFormedEdge(Multi(parts))
    ensures var t := ChildTrace(s, child, Multi(parts), count, toChild);
            var k := |parts|;
            |t| == k
            && t[0].source == ArgId(s)
            && t[k - 1].target == FinalTarget(child, toChild) && t[k - 1].states == Some({s})
            && (forall i :: 0 <= i < k - 1 ==>
                  t[i].states.None? && t[i].target == Node(PseudoId(child, i, count))
                  && t[i + 1].source == PseudoId(child, i, count))
            && (forall i :: 0 <= i < k ==> t[i].edge == parts[i])
  {
    MultiTraceLinks(s, child, parts, count, toChild);
    MultiTraceEdges(s, child, parts, count, toChild);
  }

  /** A MultiEdge's trace as the chain of its inner edges and the last one. */
  lemma MultiTraceSplit(s: nat, child: nat, parts: seq<SimpleEdge>, count: nat, toChild: bool)
    requires WellFormedEdge(Multi(parts))
    ensures var t := ChildTrace(s, child, Multi(parts), count, toChild);
            var k := |parts|;
            |t| == k
            && (forall i :: 0 <= i < k - 1 ==> t[i] == ChainEdge(ArgId(s), child, parts, count, i))
            && t[k - 1] == Appended(ChainSource(ArgId(s), child, k - 1, count), FinalTarget(child, toChild),
                                    parts[k - 1], Some({s}))
  {
    var k := |parts|;
    ChainShape(ArgId(s), child, parts, count, k - 1);
    var chain := Chain(ArgId(s), child, parts, count, k - 1);
    var last := Appended(ChainSource(ArgId(s), child, k - 1, count), FinalTarget(child, toChild), parts[k - 1], Some({s}));
    assert ChildTrace(s, child, Multi(parts), count, toChild) == chain + [last];
    AppendIndex(chain, last);
  }

  /** The inner edges of a MultiEdge lead to pseudo-states, each the source
   *  of the next edge. */
  lemma MultiTraceLinks(s: nat, child: nat, parts: seq<SimpleEdge>, count: nat, toChild: bool)
    requires WellFormedEdge(Multi(parts))
    ensures var t := ChildTrace(s, child, Multi(parts), count, toChild);
            |t| == |parts|
            && forall i :: 0 <= i < |parts| - 1 ==>
                 t[i].states.None? && t[i].target == Node(PseudoId(child, i, count))
                 && t[i + 1].source == PseudoId(child, i, count)
  {
    MultiTraceSplit(s, child, parts, count, toChild);
  }

  /** A MultiEdge's trace starts at the parent, ends at the child or the
   *  sink with `{s}`, and carries the sub-edges in order. */
  lemma MultiTraceEdges(s: nat, child: nat, parts: seq<SimpleEdge>, count: nat, toChild: bool)
    requires WellFormedEdge(Multi(parts))
    ensures var t := ChildTrace(s, child, Multi(parts), count, toChild);
            var k := |parts|;
            |t| == k
            && t[0].source == ArgId(s)
            && t[k - 1].target == FinalTarget(child, toChild) && t[k - 1].states == Some({s})
            && (forall i :: 0 <= i < k ==> t[i].edge == parts[i])
  {
    MultiTraceSplit(s, child, parts, count, toChild);
  }

  /** The elements of `s + [x]`. */
  lemma AppendIndex<T>(s: seq<T>, x: T)
    ensures |s + [x]| == |s| + 1 && (s + [x])[|s|] == x
    ensures forall i :: 0 <= i < |s| ==> (s + [x])[i] == s[i]
  {
  }

  /** The (state, child) pairs of one entry of the ARG edges, in order. */
  function Pairs(entry: (nat, seq<nat>)): (ps: seq<(nat, nat)>)
    ensures |ps| == |entry.1| && forall k :: 0 <= k < |ps| ==> ps[k] == (entry.0, entry.1[k])
  {
    seq(|entry.1|, k requires 0 <= k < |entry.1| => (entry.0, entry.1[k]))
  }

  /** All (state, child) pairs of the ARG edges, in iteration order. */
  function Flatten(argEdges: seq<(nat, seq<nat>)>): seq<(nat, nat)> {
    if |argEdges| == 0 then [] else Flatten(argEdges[..|argEdges| - 1]) + Pairs(argEdges[|argEdges| - 1])
  }

  /** The number of MultiEdges among the edges of `pairs`. */
  function MultiCount(pairs: seq<(nat, nat)>, edgeToChild: (nat, nat) -> CfaEdge): nat {
    if |pairs| == 0 then 0
    else MultiCount(pairs[..|pairs| - 1], edgeToChild)
         + (if edgeToChild(pairs[|pairs| - 1].0, pairs[|pairs| - 1].1).Multi? then 1 else 0)
  }

  /** Every edge of the ARG is well formed. */
  ghost predicate AllWellFormed(edgeToChild: (nat, nat) -> CfaEdge) {
    forall s, c :: WellFormedEdge(edgeToChild(s, c))
  }

  /** The trace ARG_PATH writes for `pairs`: the children's edges in order,
   *  the k-th MultiEdge numbered k. */
  function ArgPathTrace(pairs: seq<(nat, nat)>, edgeToChild: (nat, nat) -> CfaEdge, pathStates: nat -> bool,
                        isRelevant: (nat, nat) -> bool): seq<Appended>
    requires AllWellFormed(edgeToChild)
  {
    if |pairs| == 0 then []
    else
      var p := pairs[|pairs| - 1];
      ArgPathTrace(pairs[..|pairs| - 1], edgeToChild, pathStates, isRelevant)
      + ChildTrace(p.0, p.1, edgeToChild(p.0, p.1), MultiCount(pairs, edgeToChild), pathStates(p.1) && isRelevant(p.0, p.1))
  }

  /** The MultiEdge count never decreases along the pairs. */
  lemma {:induction false} MultiCountMono(pairs: seq<(nat, nat)>, edgeToChild: (nat, nat) -> CfaEdge, a: nat, b: nat)
    requires a <= b <= |pairs|
    ensures MultiCount(pairs[..a], edgeToChild) <= MultiCount(pairs[..b], edgeToChild)
  {
    if a < b {
      MultiCountMono(pairs, edgeToChild, a, b - 1);
      assert pairs[..b][..b - 1] == pairs[..b - 1];
    }
  }

  /** MultiEdge numbers grow along the pairs: two MultiEdges get different
   *  numbers. */
  lemma MultiCountGrows(pairs: seq<(nat, nat)>, edgeToChild: (nat, nat) -> CfaEdge, k: nat, k': nat)
    requires k < k' < |pairs| && edgeToChild(pairs[k'].0, pairs[k'].1).Multi?
    ensures MultiCount(pairs[..k + 1], edgeToChild) < MultiCount(pairs[..k' + 1], edgeToChild)
  {
    MultiCountMono(pairs, edgeToChild, k + 1, k');
    assert pairs[..k' + 1][..k'] == pairs[..k'];
  }

  /** The pseudo-states of two different MultiEdges have different ids. */
  lemma PseudoStatesDistinct(pairs: seq<(nat, nat)>, edgeToChild: (nat, nat) -> CfaEdge, k: nat, k': nat, i: nat, j: nat)
    requires k < k' < |pairs| && edgeToChild(pairs[k'].0, pairs[k'].1).Multi?
    ensures PseudoId(pairs[k].1, i, MultiCount(pairs[..k + 1], edgeToChild))
            != PseudoId(pairs[k'].1, j, MultiCount(pairs[..k' + 1], edgeToChild))
  {
    MultiCountGrows(pairs, edgeToChild, k, k');
    if PseudoId(pairs[k].1, i, MultiCount(pairs[..k + 1], edgeToChild))
       == PseudoId(pairs[k'].1, j, MultiCount(pairs[..k' + 1], edgeToChild)) {
      PseudoIdInjective(pairs[k].1, i, MultiCount(pairs[..k + 1], edgeToChild),
                        pairs[k'].1, j, MultiCount(pairs[..k' + 1], edgeToChild));
    }
  }

  /** The inner part of a MultiEdge: an edge to a fresh pseudo-state for
   *  each sub-edge but the last. Returns the edges and the id the last
   *  sub-edge starts from. */
  method AppendChain(source: string, child: nat, parts: seq<SimpleEdge>, count: nat)
    returns (appended: seq<Appended>, prevStateId: string)
    requires |parts| > 0
    ensures appended == Chain(source, child, parts, count, |parts| - 1)
    ensures prevStateId == ChainSource(source, child, |parts| - 1, count)
  {
    appended, prevStateId := [], source;
    var i := 0;
    while i < |parts| - 1
      invariant 0 <= i <= |parts| - 1
      invariant appended == Chain(source, child, parts, count, i) && prevStateId == ChainSource(source, child, i, count)
    {
      var pseudoStateId := PseudoId(child, i, count);
      appended := appended + [Appended(prevStateId, Node(pseudoStateId), parts[i], None)];
      prevStateId := pseudoStateId;
      i := i + 1;
    }
  }

  /** The body of the loop over the children of `s`. */
  method AppendChild(s: nat, child: nat, e: CfaEdge, multiEdgeCount: nat, toChild: bool)
    returns (appended: seq<Appended>, multiEdgeCount': nat)
    requires WellFormedEdge(e)
    ensures multiEdgeCount' == multiEdgeCount + if e.Multi? then 1 else 0
    ensures appended == ChildTrace(s, child, e, multiEdgeCount', toChild)
  {
    var prevStateId := ArgId(s);
    multiEdgeCount' := multiEdgeCount;
    appended := [];
    var last: SimpleEdge;
    if e.Multi? {
      multiEdgeCount' := multiEdgeCount' + 1;
      appended, prevStateId := AppendChain(prevStateId, child, e.parts, multiEdgeCount');
      last := e.parts[|e.parts| - 1];
    } else {
      last := e.edge;
    }
    var state := Some({s});
    if toChild {
      appended := appended + [Appended(prevStateId, Node(ArgId(child)), last, state)];
    } else {
      appended := appended + [Appended(prevStateId, Sink, last, state)];
    }
  }

  /** One more pair extends the trace by that child's edges. */
  lemma TraceStep(pairs: seq<(nat, nat)>, p: (nat, nat), edgeToChild: (nat, nat) -> CfaEdge, pathStates: nat -> bool,
                  isRelevant: (nat, nat) -> bool)
    requires AllWellFormed(edgeToChild)
    ensures MultiCount(pairs + [p], edgeToChild)
            == MultiCount(pairs, edgeToChild) + if edgeToChild(p.0, p.1).Multi? then 1 else 0
    ensures ArgPathTrace(pairs + [p], edgeToChild, pathStates, isRelevant)
            == ArgPathTrace(pairs, edgeToChild, pathStates, isRelevant)
               + ChildTrace(p.0, p.1, edgeToChild(p.0, p.1), MultiCount(pairs + [p], edgeToChild),
                            pathStates(p.1) && isRelevant(p.0, p.1))
  {
    assert (pairs + [p])[..|pairs|] == pairs;
  }

  /** Extending a prefix by one element. */
  lemma PrefixStep<T>(before: seq<T>, xs: seq<T>, j: nat)
    requires j < |xs|
    ensures before + xs[..j + 1] == before + xs[..j] + [xs[j]]
  {
    assert xs[..j + 1] == xs[..j] + [xs[j]];
  }

  /** The loop over the children of `s`, continuing the trace of the pairs
   *  `before`. */
  method AppendChildren(s: nat, children: seq<nat>, edgeToChild: (nat, nat) -> CfaEdge, pathStates: nat -> bool,
                        isRelevant: (nat, nat) -> bool, ghost before: seq<(nat, nat)>,
                        trace: seq<Appended>, multiEdgeCount: nat)
    returns (trace': seq<Appended>, multiEdgeCount': nat)
    requires AllWellFormed(edgeToChild)
    requires trace == ArgPathTrace(before, edgeToChild, pathStates, isRelevant)
    requires multiEdgeCount == MultiCount(before, edgeToChild)
    ensures trace' == ArgPathTrace(before + Pairs((s, children)), edgeToChild, pathStates, isRelevant)
    ensures multiEdgeCount' == MultiCount(before + Pairs((s, children)), edgeToChild)
  {
    trace', multiEdgeCount' := trace, multiEdgeCount;
    ghost var pairs := Pairs((s, children));
    ghost var walked := before;
    assert before + pairs[..0] == before;
    var j := 0;
    while j < |children|
      invariant 0 <= j <= |children|
      invariant walked == before + pairs[..j]
      invariant trace' == ArgPathTrace(walked, edgeToChild, pathStates, isRelevant)
      invariant multiEdgeCount' == MultiCount(walked, edgeToChild)
    {
      var child := children[j];
      trace', multiEdgeCount' := AppendPair(s, child, edgeToChild, pathStates, isRelevant, walked, trace', multiEdgeCount');
      PrefixStep(before, pairs, j);
      walked := walked + [(s, child)];
      j := j + 1;
    }
    assert pairs[..j] == pairs;
  }

  /** The body of the loop over the children: the edges of one more child
   *  continue the trace of the pairs `before`. */
  method AppendPair(s: nat, child: nat, edgeToChild: (nat, nat) -> CfaEdge, pathStates: nat -> bool,
                    isRelevant: (nat, nat) -> bool, ghost before: seq<(nat, nat)>,
                    trace: seq<Appended>, multiEdgeCount: nat)
    returns (trace': seq<Appended>, multiEdgeCount': nat)
    requires AllWellFormed(edgeToChild)
    requires trace == ArgPathTrace(before, edgeToChild, pathStates, isRelevant)
    requires multiEdgeCount == MultiCount(before, edgeToChild)
    ensures trace' == ArgPathTrace(before + [(s, child)], edgeToChild, pathStates, isRelevant)
    ensures multiEdgeCount' == MultiCount(before + [(s, child)], edgeToChild)
  {
    TraceStep(before, (s, child), edgeToChild, pathStates, isRelevant);
    var appended;
    appended, multiEdgeCount' := AppendChild(s, child, edgeToChild(s, child), multiEdgeCount,
                                             pathStates(child) && isRelevant(s, child));
    trace' := trace + appended;
  }

  /** ARG_PATH `buildGraph`: for each ARG state and each of its children,
   *  the child's edges, with a running MultiEdge counter. */
  method BuildArgPath(argEdges: seq<(nat, seq<nat>)>, edgeToChild: (nat, nat) -> CfaEdge, pathStates: nat -> bool,
                      isRelevant: (nat, nat) -> bool)
    returns (trace: seq<Appended>)
    requires AllWellFormed(edgeToChild)
    ensures trace == ArgPathTrace(Flatten(argEdges), edgeToChild, pathStates, isRelevant)
  {
    trace := [];
    var multiEdgeCount := 0;
    var i := 0;
    while i < |argEdges|
      invariant 0 <= i <= |argEdges|
      invariant trace == ArgPathTrace(Flatten(argEdges[..i]), edgeToChild, pathStates, isRelevant)
      invariant multiEdgeCount == MultiCount(Flatten(argEdges[..i]), edgeToChild)
    {
      assert argEdges[..i + 1][..i] == argEdges[..i];
      trace, multiEdgeCount := AppendChildren(argEdges[i].0, argEdges[i].1, edgeToChild, pathStates, isRelevant,
                                              Flatten(argEdges[..i]), trace, multiEdgeCount);
      i := i + 1;
    }
    assert argEdges[..i] == argEdges;
  }
}
