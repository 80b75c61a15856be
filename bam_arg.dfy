// ARG utilities of block-abstraction memoisation
// (cpa/bam/BAMARGUtils.java): the deep copy of an abstract reachability
// graph along child and covering links, and the collection of the reached
// sets of all nested blocks.
//
// The ARG is an arena: state `s` is `nodes[s]`. The Java `stateToCopyElem`
// map becomes `copies`, keyed by original state; since each original gets
// one fresh copy, a copy is named by its original, and the copies' parent
// and covering links hold those names.
module BamArgs {
  import Sets

  /** A plain ARG state, or a block-start state with the block it analysed. */
  datatype StateKind = Plain | BlockStart(analyzedBlock: int)

  /** An original ARG state: the wrapped state, its kind, its children and
   *  the state covering it, if any. */
  datatype ArgNode = ArgNode(wrapped: nat, kind: StateKind, children: set<nat>, coveredBy: Option)

  /** A copied ARG state: its covering state is named by the original it
   *  copies. */
  datatype CopyNode = CopyNode(wrapped: nat, kind: StateKind, coveredBy: Option)

  /** A parent link `(a, s)` between two copies: the copy of `a` is a parent
   *  of the copy of `s`. */
  type Link = (nat, nat)

  datatype Option = None | Some(value: nat)

  /** Every link of the ARG points at a state of it. */
  predicate ValidArg(nodes: seq<ArgNode>) {
    forall s :: 0 <= s < |nodes| ==>
      (forall c :: c in nodes[s].children ==> c < |nodes|)
      && (nodes[s].coveredBy.Some? ==> nodes[s].coveredBy.value < |nodes|)
  }

  /** `copyNode`: a fresh state with the same wrapped state and, for a
   *  block-start state, the same analysed block; not covered. */
  function CopyNodeOf(n: ArgNode): (r: CopyNode)
    ensures r.wrapped == n.wrapped && r.kind == n.kind && r.coveredBy.None?
  {
    CopyNode(n.wrapped, n.kind, None)
  }

  /** `b` is reached from `a` along a child or a covering link. */
  predicate Succ(nodes: seq<ArgNode>, a: nat, b: nat)
    requires a < |nodes|
  {
    b in nodes[a].children || nodes[a].coveredBy == Some(b)
  }

  predicate Distinct(s: seq<nat>) {
    forall a, b :: 0 <= a < b < |s| ==> s[a] != s[b]
  }

  /** Every state after the first was found as a successor of an earlier
   *  one, the one at `foundFrom[k]`: the order witnesses that all of them
   *  are reachable from the first. */
  predicate Discovered(nodes: seq<ArgNode>, order: seq<nat>, foundFrom: seq<nat>) {
    |foundFrom| == |order|
    && forall k {:trigger foundFrom[k]} :: 0 < k < |order| ==>
         foundFrom[k] < k && order[foundFrom[k]] < |nodes| && Succ(nodes, order[foundFrom[k]], order[k])
  }

  /** The states below `n`. */
  function Below(n: nat): (r: set<nat>)
    ensures forall x :: x in r ==> x < n
    ensures forall x: nat :: x < n ==> x in r
    ensures |r| == n
  {
    if n == 0 then {} else Below(n - 1) + {n - 1}
  }

  /** The copy is faithful: each copy keeps its original's wrapped state,
   *  kind and covering state, and the parent links between the copies are
   *  exactly the child links of the copied originals. */
  predicate FaithfulCopy(nodes: seq<ArgNode>, copies: map<nat, CopyNode>, links: set<Link>) {
    (forall s :: s in copies ==>
       s < |nodes| && copies[s].wrapped == nodes[s].wrapped && copies[s].kind == nodes[s].kind
       && copies[s].coveredBy == nodes[s].coveredBy)
    && (forall l :: l in links ==> l.0 in copies && l.0 < |nodes| && l.1 in nodes[l.0].children)
    && (forall a, s :: a in copies && a < |nodes| && s in nodes[a].children ==> (a, s) in links)
  }

  /** The visit order: it holds exactly the visited states, without
   *  repetition, from the root on, each found from an earlier one. */
  ghost predicate OrderOk(nodes: seq<ArgNode>, root: nat, visited: set<nat>, order: seq<nat>, foundFrom: seq<nat>) {
    (forall s :: s in visited ==> s < |nodes|)
    && (forall s :: s in visited <==> s in order)
    && |order| > 0 && order[0] == root && Distinct(order) && Discovered(nodes, order, foundFrom)
  }

  /** Every visited state is processed, on the stack or in flight. */
  ghost predicate StackOk(visited: set<nat>, toVisit: seq<nat>, processed: set<nat>, cur: Option) {
    (forall s :: s in visited ==> s in processed || s in toVisit || cur == Some(s))
    && (forall s :: s in processed ==> s in visited)
    && (forall s :: s in toVisit ==> s in visited)
    && (cur.Some? ==> cur.value in visited)
  }

  /** Processed states are copied, and so are their successors. */
  ghost predicate ClosedOk(nodes: seq<ArgNode>, processed: set<nat>, copied: set<nat>) {
    forall s :: s in processed ==>
      s < |nodes| && s in copied
      && (forall c :: c in nodes[s].children ==> c in copied)
      && (nodes[s].coveredBy.Some? ==> nodes[s].coveredBy.value in copied)
  }

  /** The children of the state in flight that are no longer pending are
   *  copied. */
  ghost predicate InFlight(nodes: seq<ArgNode>, copied: set<nat>, cur: nat, pending: set<nat>) {
    cur < |nodes|
    && forall c :: c in nodes[cur].children && c !in pending ==> c in copied
  }

  /** Each copy keeps its original's wrapped state and kind, and exactly the
   *  processed states have their covering link copied. */
  ghost predicate CopiesOk(nodes: seq<ArgNode>, copies: map<nat, CopyNode>, processed: set<nat>) {
    forall s :: s in copies ==>
      s < |nodes| && copies[s].wrapped == nodes[s].wrapped && copies[s].kind == nodes[s].kind
      && copies[s].coveredBy == if s in processed then nodes[s].coveredBy else None
  }

  /** The parent links are exactly the child links of the processed states
   *  and those of the state in flight to children no longer pending. */
  ghost predicate LinksOk(nodes: seq<ArgNode>, links: set<Link>, processed: set<nat>, cur: Option, pending: set<nat>) {
    forall a: nat, s: nat :: (a, s) in links <==>
      a < |nodes| && s in nodes[a].children && (a in processed || (cur == Some(a) && s !in pending))
  }

  /** The invariant while `current` is in flight, with the children in
   *  `pending` still to link. */
  ghost predicate Busy(nodes: seq<ArgNode>, root: nat, copies: map<nat, CopyNode>, links: set<Link>, visited: set<nat>,
                       toVisit: seq<nat>, order: seq<nat>, foundFrom: seq<nat>, processed: set<nat>, current: nat,
                       pending: set<nat>) {
    current < |nodes| && pending <= nodes[current].children && copies.Keys <= visited
    && OrderOk(nodes, root, visited, order, foundFrom) && StackOk(visited, toVisit, processed, Some(current))
    && ClosedOk(nodes, processed, copies.Keys) && InFlight(nodes, copies.Keys, current, pending)
    && CopiesOk(nodes, copies, processed) && LinksOk(nodes, links, processed, Some(current), pending)
  }

  /** The invariant between two states. */
  ghost predicate Idle(nodes: seq<ArgNode>, root: nat, copies: map<nat, CopyNode>, links: set<Link>, visited: set<nat>,
                       toVisit: seq<nat>, order: seq<nat>, foundFrom: seq<nat>, processed: set<nat>) {
    copies.Keys <= visited
    && OrderOk(nodes, root, visited, order, foundFrom) && StackOk(visited, toVisit, processed, None)
    && ClosedOk(nodes, processed, copies.Keys)
    && CopiesOk(nodes, copies, processed) && LinksOk(nodes, links, processed, None, {})
  }

  /** The copy of `s`, made with `copyNode` and put in the map when there is
   *  none yet. */
  method GetOrCopy(nodes: seq<ArgNode>, copies: map<nat, CopyNode>, ghost processed: set<nat>, s: nat)
    returns (copies': map<nat, CopyNode>)
    requires s < |nodes|
    requires CopiesOk(nodes, copies, processed) && ClosedOk(nodes, processed, copies.Keys)
    ensures copies'.Keys == copies.Keys + {s}
    ensures forall a :: a in copies ==> copies'[a] == copies[a]
    ensures s !in copies ==> copies'[s] == CopyNodeOf(nodes[s])
    ensures CopiesOk(nodes, copies', processed) && ClosedOk(nodes, processed, copies'.Keys)
  {
    if s in copies {
      return copies;
    }
    copies' := copies[s := CopyNodeOf(nodes[s])];
  }

  /** `addParent`: the copy of child `c` gets the copy of `current` as a
   *  parent, which reproduces the link from `current` to `c`. */
  lemma AddLink(nodes: seq<ArgNode>, links: set<Link>, processed: set<nat>, current: nat, pending: set<nat>, c: nat)
    requires current < |nodes| && c in pending && c in nodes[current].children
    requires LinksOk(nodes, links, processed, Some(current), pending)
    ensures LinksOk(nodes, links + {(current, c)}, processed, Some(current), pending - {c})
  {
  }

  /** Pushing a newly found successor `c` of the visited state `from`. */
  lemma VisitPush(nodes: seq<ArgNode>, root: nat, visited: set<nat>, order: seq<nat>, foundFrom: seq<nat>,
                  from: nat, c: nat)
    requires OrderOk(nodes, root, visited, order, foundFrom)
    requires from in visited && from < |nodes| && c < |nodes| && Succ(nodes, from, c) && c !in visited
    ensures OrderOk(nodes, root, visited + {c}, order + [c], foundFrom + [IndexOf(order, from)])
  {
    var order', foundFrom' := order + [c], foundFrom + [IndexOf(order, from)];
    forall k | 0 < k < |order'|
      ensures foundFrom'[k] < k && order'[foundFrom'[k]] < |nodes| && Succ(nodes, order'[foundFrom'[k]], order'[k])
    {
      if k < |order| {
        assert foundFrom'[k] == foundFrom[k];
      }
    }
  }

  /** The position of `x` in `s`. */
  function IndexOf(s: seq<nat>, x: nat): (j: nat)
    requires x in s
    ensures j < |s| && s[j] == x
  {
    if s[0] == x then 0 else 1 + IndexOf(s[1..], x)
  }

  /** One child `c` of `current`: copied if need be, linked to the copy of
   *  `current`, and pushed when it was not visited before. */
  method CopyChild(nodes: seq<ArgNode>, root: nat, copies: map<nat, CopyNode>, links: set<Link>, visited: set<nat>,
                   toVisit: seq<nat>, ghost order: seq<nat>, ghost foundFrom: seq<nat>, ghost processed: set<nat>,
                   current: nat, ghost pending: set<nat>, c: nat)
    returns (copies': map<nat, CopyNode>, links': set<Link>, visited': set<nat>, toVisit': seq<nat>,
             ghost order': seq<nat>, ghost foundFrom': seq<nat>)
    requires ValidArg(nodes) && c in pending
    requires Busy(nodes, root, copies, links, visited, toVisit, order, foundFrom, processed, current, pending)
    ensures Busy(nodes, root, copies', links', visited', toVisit', order', foundFrom', processed, current, pending - {c})
    ensures copies.Keys <= copies'.Keys
    ensures |visited'| >= |visited| && |toVisit'| - |toVisit| == |visited'| - |visited|
  {
    copies' := GetOrCopy(nodes, copies, processed, c);
    AddLink(nodes, links, processed, current, pending, c);
    links' := links + {(current, c)};
    visited', toVisit', order', foundFrom' := visited, toVisit, order, foundFrom;
    if c !in visited {
      VisitPush(nodes, root, visited, order, foundFrom, current, c);
      order', foundFrom' := order + [c], foundFrom + [IndexOf(order, current)];
      visited' := visited + {c};
      toVisit' := toVisit + [c];
    }
  }

  /** The loop over the children of `current`. */
  method CopyChildren(nodes: seq<ArgNode>, root: nat, copies: map<nat, CopyNode>, links: set<Link>, visited: set<nat>,
                      toVisit: seq<nat>, ghost order: seq<nat>, ghost foundFrom: seq<nat>, ghost processed: set<nat>,
                      current: nat)
    returns (copies': map<nat, CopyNode>, links': set<Link>, visited': set<nat>, toVisit': seq<nat>,
             ghost order': seq<nat>, ghost foundFrom': seq<nat>)
    requires ValidArg(nodes) && current < |nodes| && current in copies
    requires Busy(nodes, root, copies, links, visited, toVisit, order, foundFrom, processed, current, nodes[current].children)
    ensures current in copies'
    ensures Busy(nodes, root, copies', links', visited', toVisit', order', foundFrom', processed, current, {})
    ensures |visited'| >= |visited| && |toVisit'| - |toVisit| == |visited'| - |visited|
  {
    copies', links', visited', toVisit', order', foundFrom' := copies, links, visited, toVisit, order, foundFrom;
    var pending := nodes[current].children;
    while pending != {}
      invariant current in copies'
      invariant Busy(nodes, root, copies', links', visited', toVisit', order', foundFrom', processed, current, pending)
      invariant |visited'| >= |visited| && |toVisit'| - |toVisit| == |visited'| - |visited|
      decreases pending
    {
      var c :| c in pending;
      copies', links', visited', toVisit', order', foundFrom' :=
        CopyChild(nodes, root, copies', links', visited', toVisit', order', foundFrom', processed, current, pending, c);
      pending := pending - {c};
    }
  }

  /** The covering state of `current`, copied if need be and pushed when it
   *  was not visited before. */
  method CopyCoveringState(nodes: seq<ArgNode>, root: nat, copies: map<nat, CopyNode>, links: set<Link>, visited: set<nat>,
                           toVisit: seq<nat>, ghost order: seq<nat>, ghost foundFrom: seq<nat>, ghost processed: set<nat>,
                           current: nat, covering: nat)
    returns (copies': map<nat, CopyNode>, visited': set<nat>, toVisit': seq<nat>, ghost order': seq<nat>,
             ghost foundFrom': seq<nat>)
    requires ValidArg(nodes) && current in copies
    requires Busy(nodes, root, copies, links, visited, toVisit, order, foundFrom, processed, current, {})
    requires nodes[current].coveredBy == Some(covering)
    ensures current in copies' && covering in copies'
    ensures Busy(nodes, root, copies', links, visited', toVisit', order', foundFrom', processed, current, {})
    ensures |visited'| >= |visited| && |toVisit'| - |toVisit| == |visited'| - |visited|
  {
    copies' := GetOrCopy(nodes, copies, processed, covering);
    visited', toVisit', order', foundFrom' := visited, toVisit, order, foundFrom;
    if covering !in visited {
      VisitPush(nodes, root, visited, order, foundFrom, current, covering);
      order', foundFrom' := order + [covering], foundFrom + [IndexOf(order, current)];
      visited' := visited + {covering};
      toVisit' := toVisit + [covering];
    }
  }

  /** `setCovered` on the copy of `current`, when `current` is covered. */
  function SetCovered(nodes: seq<ArgNode>, copies: map<nat, CopyNode>, current: nat): (copies': map<nat, CopyNode>)
    requires current < |nodes| && current in copies
    ensures copies'.Keys == copies.Keys
    ensures copies'[current].coveredBy == nodes[current].coveredBy || nodes[current].coveredBy.None?
    ensures forall s :: s in copies && s != current ==> copies'[s] == copies[s]
  {
    if nodes[current].coveredBy.Some? then copies[current := copies[current].(coveredBy := nodes[current].coveredBy)]
    else copies
  }

  /** Once its children and its covering state have copies, `current` is
   *  processed: its copy gets its covering link. */
  lemma FinishCurrent(nodes: seq<ArgNode>, root: nat, copies: map<nat, CopyNode>, links: set<Link>, visited: set<nat>,
                      toVisit: seq<nat>, order: seq<nat>, foundFrom: seq<nat>, processed: set<nat>, current: nat)
    requires Busy(nodes, root, copies, links, visited, toVisit, order, foundFrom, processed, current, {})
    requires current in copies && (nodes[current].coveredBy.Some? ==> nodes[current].coveredBy.value in copies)
    ensures Idle(nodes, root, SetCovered(nodes, copies, current), links, visited, toVisit, order, foundFrom, processed + {current})
  {
  }

  /** The covering link of `current`: the covering state is copied and
   *  pushed if need be, and the copy of `current` is covered by its copy.
   *  This ends the processing of `current`. */
  method CopyCovering(nodes: seq<ArgNode>, root: nat, copies: map<nat, CopyNode>, links: set<Link>, visited: set<nat>,
                      toVisit: seq<nat>, ghost order: seq<nat>, ghost foundFrom: seq<nat>, ghost processed: set<nat>,
                      current: nat)
    returns (copies': map<nat, CopyNode>, visited': set<nat>, toVisit': seq<nat>, ghost order': seq<nat>,
             ghost foundFrom': seq<nat>, ghost processed': set<nat>)
    requires ValidArg(nodes) && current in copies
    requires Busy(nodes, root, copies, links, visited, toVisit, order, foundFrom, processed, current, {})
    ensures processed' == processed + {current}
    ensures Idle(nodes, root, copies', links, visited', toVisit', order', foundFrom', processed')
    ensures |visited'| >= |visited| && |toVisit'| - |toVisit| == |visited'| - |visited| && |visited'| <= |nodes|
  {
    copies', visited', toVisit', order', foundFrom' := copies, visited, toVisit, order, foundFrom;
    if nodes[current].coveredBy.Some? {
      copies', visited', toVisit', order', foundFrom' :=
        CopyCoveringState(nodes, root, copies, links, visited, toVisit, order, foundFrom, processed,
                          current, nodes[current].coveredBy.value);
    }
    FinishCurrent(nodes, root, copies', links, visited', toVisit', order', foundFrom', processed, current);
    copies' := SetCovered(nodes, copies', current);
    processed' := processed + {current};
    Sets.SubsetCard(visited', Below(|nodes|));
  }

  /** `copyARG`: the copy of the root, together with the copies of exactly
   *  the states reachable from the root along child and covering links, and
   *  the parent links between them. */
  method CopyArg(nodes: seq<ArgNode>, root: nat)
    returns (copies: map<nat, CopyNode>, links: set<Link>, r: CopyNode, ghost order: seq<nat>, ghost foundFrom: seq<nat>)
    requires ValidArg(nodes) && root < |nodes|
    ensures root in copies && r == copies[root]
    ensures FaithfulCopy(nodes, copies, links)
    ensures forall s :: s in copies <==> s in order
    ensures |order| > 0 && order[0] == root && Distinct(order) && Discovered(nodes, order, foundFrom)
    ensures ClosedUnderSucc(nodes, copies.Keys)
  {
    copies, links := map[], {};
    var visited: set<nat> := {root};
    var toVisit: seq<nat> := [root];
    ghost var processed: set<nat> := {};
    order, foundFrom := [root], [0];
    while |toVisit| > 0
      invariant Idle(nodes, root, copies, links, visited, toVisit, order, foundFrom, processed)
      invariant |visited| <= |nodes|
      decreases |nodes| - |visited|, |toVisit|
    {
      var current;
      current, copies, toVisit := Pop(nodes, root, copies, links, visited, toVisit, order, foundFrom, processed);
      copies, links, visited, toVisit, order, foundFrom :=
        CopyChildren(nodes, root, copies, links, visited, toVisit, order, foundFrom, processed, current);
      copies, visited, toVisit, order, foundFrom, processed :=
        CopyCovering(nodes, root, copies, links, visited, toVisit, order, foundFrom, processed, current);
    }
    CopyFinished(nodes, root, copies, links, visited, order, foundFrom, processed);
    r := copies[root];
  }

  /** Popping the top of the stack puts it in flight, with all its children
   *  pending, and makes sure it has a copy. */
  method Pop(nodes: seq<ArgNode>, root: nat, copies: map<nat, CopyNode>, links: set<Link>, visited: set<nat>,
             toVisit: seq<nat>, ghost order: seq<nat>, ghost foundFrom: seq<nat>, ghost processed: set<nat>)
    returns (current: nat, copies': map<nat, CopyNode>, toVisit': seq<nat>)
    requires |toVisit| > 0
    requires Idle(nodes, root, copies, links, visited, toVisit, order, foundFrom, processed)
    ensures toVisit' == toVisit[..|toVisit| - 1] && current == toVisit[|toVisit| - 1]
    ensures current < |nodes| && current in copies'
    ensures Busy(nodes, root, copies', links, visited, toVisit', order, foundFrom, processed, current, nodes[current].children)
  {
    current := toVisit[|toVisit| - 1];
    toVisit' := toVisit[..|toVisit| - 1];
    assert current in visited;
    forall s | s in visited
      ensures s in processed || s in toVisit' || Some(current) == Some(s)
    {
      if s in toVisit && s != current {
        var j := IndexOf(toVisit, s);
        assert toVisit'[j] == s;
      }
    }
    copies' := GetOrCopy(nodes, copies, processed, current);
  }

  /** With the stack empty, every visited state is processed and copied. */
  lemma CopyFinished(nodes: seq<ArgNode>, root: nat, copies: map<nat, CopyNode>, links: set<Link>, visited: set<nat>,
                     order: seq<nat>, foundFrom: seq<nat>, processed: set<nat>)
    requires Idle(nodes, root, copies, links, visited, [], order, foundFrom, processed)
    ensures root in copies && FaithfulCopy(nodes, copies, links)
    ensures forall s :: s in copies <==> s in order
    ensures ClosedUnderSucc(nodes, copies.Keys)
  {
    assert root in order;
  }

  /** A reached set of a block analysis: its first state and its states,
   *  which are ARG states. */
  datatype ReachedSet = ReachedSet(first: nat, states: set<nat>)

  /** An entry of the multimap from blocks to reached sets: a block and the
   *  index of a reached set. */
  type Entry = (nat, nat)

  /** The ARG and its reached sets: every reached set holds its first state,
   *  and `cached` answers a reached set for every state (the `assert
   *  reachSet != null` of `getCachedReachedSet`). */
  predicate ValidSets(nodes: seq<ArgNode>, reachedSets: seq<ReachedSet>, cached: nat -> Entry) {
    ValidArg(nodes)
    && (forall r :: 0 <= r < |reachedSets| ==>
          reachedSets[r].first in reachedSets[r].states
          && forall s :: s in reachedSets[r].states ==> s < |nodes|)
    && (forall s: nat :: s < |nodes| ==> cached(s).1 < |reachedSets|)
  }

  /** Every summary edge leaving an explored state leads to an entry of `result`:
   *  the entry that `getCachedReachedSet` returns for the state. */
  ghost predicate SummariesIn(nodes: seq<ArgNode>, explored: set<nat>, summary: (nat, nat) -> bool,
                              cached: nat -> Entry, result: set<Entry>) {
    forall p, c :: p in explored && p < |nodes| && c in nodes[p].children && summary(p, c) ==> cached(p) in result
  }

  /** `explored` is a set of states of `rs` that holds its first state and
   *  every child in `rs` of its states, and whose summary edges all lead to
   *  entries of `result`. */
  ghost predicate ClosedExploration(nodes: seq<ArgNode>, rs: ReachedSet, explored: set<nat>, summary: (nat, nat) -> bool,
                                    cached: nat -> Entry, result: set<Entry>) {
    rs.first in explored && explored <= rs.states
    && (forall p, c :: p in explored && p < |nodes| && c in nodes[p].children && c in rs.states ==> c in explored)
    && SummariesIn(nodes, explored, summary, cached, result)
  }

  /** The reached set of entry `q` has been searched completely: the
   *  summary edges of the states found from its first state lead to entries
   *  of `result`. */
  ghost predicate Complete(nodes: seq<ArgNode>, reachedSets: seq<ReachedSet>, summary: (nat, nat) -> bool,
                           cached: nat -> Entry, q: Entry, result: set<Entry>) {
    q.1 < |reachedSets|
    && exists explored :: ClosedExploration(nodes, reachedSets[q.1], explored, summary, cached, result)
  }

  /** A complete entry stays complete when more entries are gathered. */
  lemma CompleteMono(nodes: seq<ArgNode>, reachedSets: seq<ReachedSet>, summary: (nat, nat) -> bool,
                     cached: nat -> Entry, q: Entry, result: set<Entry>, result': set<Entry>)
    requires result <= result' && Complete(nodes, reachedSets, summary, cached, q, result)
    ensures Complete(nodes, reachedSets, summary, cached, q, result')
  {
    var explored :| ClosedExploration(nodes, reachedSets[q.1], explored, summary, cached, result);
    assert ClosedExploration(nodes, reachedSets[q.1], explored, summary, cached, result');
  }

  /** The first state and every child in the reached set of an explored
   *  state are explored or waiting on the worklist. */
  ghost predicate Frontier(nodes: seq<ArgNode>, rs: ReachedSet, explored: set<nat>, worklist: seq<nat>) {
    (rs.first in explored || rs.first in worklist)
    && forall p, c :: p in explored && p < |nodes| && c in nodes[p].children && c in rs.states ==>
         c in explored || c in worklist
  }

  /** The search of reached set `rs` reaches `s`: a path of child links
   *  inside `rs` leads from its first state to `s`. */
  ghost predicate SearchReaches(nodes: seq<ArgNode>, rs: ReachedSet, s: nat) {
    exists path :: IsSearchPath(nodes, rs, path) && path[|path| - 1] == s
  }

  /** The search goes on from a reached state to its children inside the reached set. */
  lemma SearchReachesChild(nodes: seq<ArgNode>, rs: ReachedSet, s: nat, c: nat)
    requires SearchReaches(nodes, rs, s) && s < |nodes| && c in nodes[s].children && c in rs.states
    ensures SearchReaches(nodes, rs, c)
  {
    var path :| IsSearchPath(nodes, rs, path) && path[|path| - 1] == s;
    var path' := path + [c];
    assert IsSearchPath(nodes, rs, path') by {
      forall i | 0 <= i < |path'| - 1
        ensures path'[i] < |nodes| && path'[i + 1] in nodes[path'[i]].children
      {
        if i < |path| - 1 {
          assert path'[i] == path[i] && path'[i + 1] == path[i + 1];
        }
      }
    }
    assert path'[|path'| - 1] == c;
  }

  /** `q` is the reached set cached for a state with a summary edge, the
   *  state being reached by the search of a reached set of an entry of
   *  `result`. */
  ghost predicate Summoned(nodes: seq<ArgNode>, reachedSets: seq<ReachedSet>, summary: (nat, nat) -> bool,
                           cached: nat -> Entry, result: set<Entry>, q: Entry) {
    exists p, s: nat :: p in result && p.1 < |reachedSets| && SearchReaches(nodes, reachedSets[p.1], s) && s < |nodes|
                   && cached(s) == q && exists c :: c in nodes[s].children && summary(s, c)
  }

  lemma SummonedMono(nodes: seq<ArgNode>, reachedSets: seq<ReachedSet>, summary: (nat, nat) -> bool,
                     cached: nat -> Entry, q: Entry, result: set<Entry>, result': set<Entry>)
    requires result <= result' && Summoned(nodes, reachedSets, summary, cached, result, q)
    ensures Summoned(nodes, reachedSets, summary, cached, result', q)
  {
    var p, s: nat :| p in result && p.1 < |reachedSets| && SearchReaches(nodes, reachedSets[p.1], s) && s < |nodes|
                && cached(s) == q && exists c :: c in nodes[s].children && summary(s, c);
    assert p in result';
  }

  ghost function Entries(order: seq<Entry>): set<Entry> {
    set e | e in order
  }

  /** The entries in the order the multimap received them: each entry after
   *  the first is summoned from the entries before it, so no entry is
   *  justified by itself or by a cycle of entries. */
  ghost predicate DiscoveryOrder(nodes: seq<ArgNode>, reachedSets: seq<ReachedSet>, summary: (nat, nat) -> bool,
                                 cached: nat -> Entry, order: seq<Entry>) {
    forall i :: 0 < i < |order| ==> SummonedAt(nodes, reachedSets, summary, cached, order, i)
  }

  /** Entry `i` of the order is summoned from the entries before it. */
  ghost predicate SummonedAt(nodes: seq<ArgNode>, reachedSets: seq<ReachedSet>, summary: (nat, nat) -> bool,
                             cached: nat -> Entry, order: seq<Entry>, i: nat)
    requires i < |order|
  {
    Summoned(nodes, reachedSets, summary, cached, Entries(order[..i]), order[i])
  }

  /** Putting an entry summoned from the entries so far keeps the discovery order. */
  lemma OrderExtend(nodes: seq<ArgNode>, reachedSets: seq<ReachedSet>, summary: (nat, nat) -> bool,
                    cached: nat -> Entry, order: seq<Entry>, q: Entry)
    requires DiscoveryOrder(nodes, reachedSets, summary, cached, order)
    requires order == [] || Summoned(nodes, reachedSets, summary, cached, Entries(order), q)
    ensures DiscoveryOrder(nodes, reachedSets, summary, cached, order + [q])
    ensures Entries(order + [q]) == Entries(order) + {q}
  {
    var order' := order + [q];
    forall i | 0 < i < |order'|
      ensures SummonedAt(nodes, reachedSets, summary, cached, order', i)
    {
      if i < |order| {
        assert SummonedAt(nodes, reachedSets, summary, cached, order, i);
        assert order'[..i] == order[..i] && order'[i] == order[i];
      } else {
        assert order'[..i] == order;
      }
    }
  }

  /** Every entry after the first is summoned from the whole order. */
  lemma OrderSummoned(nodes: seq<ArgNode>, reachedSets: seq<ReachedSet>, summary: (nat, nat) -> bool,
                      cached: nat -> Entry, order: seq<Entry>, i: nat)
    requires DiscoveryOrder(nodes, reachedSets, summary, cached, order) && 0 < i < |order|
    ensures Summoned(nodes, reachedSets, summary, cached, Entries(order), order[i])
  {
    assert SummonedAt(nodes, reachedSets, summary, cached, order, i);
    SummonedMono(nodes, reachedSets, summary, cached, order[i], Entries(order[..i]), Entries(order));
  }

  ghost predicate GatherInv(nodes: seq<ArgNode>, reachedSets: seq<ReachedSet>, summary: (nat, nat) -> bool,
                            cached: nat -> Entry, universe: set<Entry>, block: nat, rs: nat, result: set<Entry>,
                            result': set<Entry>, order: seq<Entry>, order': seq<Entry>,
                            worklist: seq<nat>, explored: set<nat>) {
    rs < |reachedSets|
    && result + {(block, rs)} <= result' <= universe
    && (forall q :: q in result' && q !in result && q != (block, rs) ==>
          Complete(nodes, reachedSets, summary, cached, q, result'))
    && Entries(order') == result' && order + [(block, rs)] <= order'
    && DiscoveryOrder(nodes, reachedSets, summary, cached, order')
    && (forall i :: 0 <= i < |worklist| ==> worklist[i] in reachedSets[rs].states)
    && (forall i :: 0 <= i < |worklist| ==> SearchReaches(nodes, reachedSets[rs], worklist[i]))
    && explored <= reachedSets[rs].states
    && Frontier(nodes, reachedSets[rs], explored, worklist)
    && SummariesIn(nodes, explored, summary, cached, result')
  }

  /** `gatherReachedSets` for one block and reached set: the entry is put
   *  in the multimap unless it is there already (which stops recursive
   *  block calls), then the reached set is searched from its first state
   *  along the children inside it, descending into the reached set of every
   *  summary edge. Every entry it adds is complete, and the entries are
   *  put in a discovery order (`order` before the call, `order'` after). */
  method Gather(nodes: seq<ArgNode>, reachedSets: seq<ReachedSet>, summary: (nat, nat) -> bool, cached: nat -> Entry,
                ghost universe: set<Entry>, block: nat, rs: nat, result: set<Entry>, order: seq<Entry>)
    returns (result': set<Entry>, order': seq<Entry>)
    requires ValidSets(nodes, reachedSets, cached) && rs < |reachedSets|
    requires (block, rs) in universe && result <= universe && forall s: nat :: s < |nodes| ==> cached(s) in universe
    requires Entries(order) == result && DiscoveryOrder(nodes, reachedSets, summary, cached, order)
    requires (block, rs) in result || order == [] || Summoned(nodes, reachedSets, summary, cached, result, (block, rs))
    ensures (block, rs) in result' && result <= result' <= universe
    ensures (block, rs) in result ==> result' == result
    ensures forall q :: q in result' && q !in result ==> Complete(nodes, reachedSets, summary, cached, q, result')
    ensures forall q :: q in result' && q !in result && q != (block, rs) ==>
              Summoned(nodes, reachedSets, summary, cached, result', q)
    ensures Entries(order') == result' && DiscoveryOrder(nodes, reachedSets, summary, cached, order')
    ensures order <= order' && ((block, rs) !in result ==> order + [(block, rs)] <= order')
    decreases universe - result, 1
  {
    if (block, rs) in result {
      return result, order;
    }
    result' := result + {(block, rs)};
    order' := order + [(block, rs)];
    var worklist := [reachedSets[rs].first];
    var processed: set<nat> := {};
    GatherStart(nodes, reachedSets, summary, cached, universe, block, rs, result, order);
    while |worklist| != 0
      invariant GatherInv(nodes, reachedSets, summary, cached, universe, block, rs, result, result', order, order',
                          worklist, processed)
      decreases |reachedSets[rs].states - processed|, |worklist|
    {
      var current := worklist[|worklist| - 1];
      ghost var popped := worklist;
      worklist := worklist[..|worklist| - 1];
      if current in processed {
        Popped(nodes, reachedSets, summary, cached, universe, block, rs, result, result', order, order', popped,
               processed);
        continue;
      }
      ghost var done := processed;
      processed := processed + {current};
      Sets.ProperSubsetCard(reachedSets[rs].states - processed, reachedSets[rs].states - done);
      result', order', worklist := GatherChildren(nodes, reachedSets, summary, cached, universe, block, rs, result,
                                                  result', order, order', done, current, worklist, popped);
    }
    GatherDone(nodes, reachedSets, summary, cached, universe, block, rs, result, result', order, order', processed);
  }

  /** The search starts with the entry recorded and its first state on the worklist. */
  lemma GatherStart(nodes: seq<ArgNode>, reachedSets: seq<ReachedSet>, summary: (nat, nat) -> bool, cached: nat -> Entry,
                    universe: set<Entry>, block: nat, rs: nat, result: set<Entry>, order: seq<Entry>)
    requires ValidSets(nodes, reachedSets, cached) && rs < |reachedSets|
    requires (block, rs) in universe && result <= universe && (block, rs) !in result
    requires Entries(order) == result && DiscoveryOrder(nodes, reachedSets, summary, cached, order)
    requires order == [] || Summoned(nodes, reachedSets, summary, cached, result, (block, rs))
    ensures GatherInv(nodes, reachedSets, summary, cached, universe, block, rs, result, result + {(block, rs)}, order,
                      order + [(block, rs)], [reachedSets[rs].first], {})
  {
    OrderExtend(nodes, reachedSets, summary, cached, order, (block, rs));
    assert IsSearchPath(nodes, reachedSets[rs], [reachedSets[rs].first]);
  }

  /** Popping a state already explored keeps the invariant. */
  lemma Popped(nodes: seq<ArgNode>, reachedSets: seq<ReachedSet>, summary: (nat, nat) -> bool, cached: nat -> Entry,
               universe: set<Entry>, block: nat, rs: nat, result: set<Entry>, result': set<Entry>,
               order: seq<Entry>, order': seq<Entry>, worklist: seq<nat>, explored: set<nat>)
    requires |worklist| > 0 && worklist[|worklist| - 1] in explored
    requires GatherInv(nodes, reachedSets, summary, cached, universe, block, rs, result, result', order, order',
                       worklist, explored)
    ensures GatherInv(nodes, reachedSets, summary, cached, universe, block, rs, result, result', order, order',
                      worklist[..|worklist| - 1], explored)
  {
    var reached, prefix := reachedSets[rs], worklist[..|worklist| - 1];
    forall c | c in reached.states && c !in explored && c in worklist
      ensures c in prefix
    {
      var j := IndexOf(worklist, c);
      assert prefix[j] == c;
    }
  }

  /** With the worklist empty, the entry itself is complete. */
  lemma GatherDone(nodes: seq<ArgNode>, reachedSets: seq<ReachedSet>, summary: (nat, nat) -> bool, cached: nat -> Entry,
                   universe: set<Entry>, block: nat, rs: nat, result: set<Entry>, result': set<Entry>,
                   order: seq<Entry>, order': seq<Entry>, explored: set<nat>)
    requires Entries(order) == result
    requires GatherInv(nodes, reachedSets, summary, cached, universe, block, rs, result, result', order, order', [],
                       explored)
    ensures (block, rs) in result' && result <= result' <= universe
    ensures forall q :: q in result' && q !in result ==> Complete(nodes, reachedSets, summary, cached, q, result')
    ensures forall q :: q in result' && q !in result && q != (block, rs) ==>
              Summoned(nodes, reachedSets, summary, cached, result', q)
  {
    assert ClosedExploration(nodes, reachedSets[rs], explored, summary, cached, result');
    forall q | q in result' && q !in result && q != (block, rs)
      ensures Summoned(nodes, reachedSets, summary, cached, result', q)
    {
      var i :| 0 <= i < |order'| && order'[i] == q;
      if i <= |order| {
        assert order'[i] == (order + [(block, rs)])[i];
      }
      OrderSummoned(nodes, reachedSets, summary, cached, order', i);
    }
  }

  /** Exploring the popped state `current` and pushing its children in the
   *  reached set keeps the invariant. */
  lemma Pushed(nodes: seq<ArgNode>, reachedSets: seq<ReachedSet>, summary: (nat, nat) -> bool, cached: nat -> Entry,
               universe: set<Entry>, block: nat, rs: nat, result: set<Entry>, result': set<Entry>,
               popped: seq<nat>, explored: set<nat>, worklist: seq<nat>)
    requires rs < |reachedSets| && |popped| > 0 && popped[|popped| - 1] < |nodes|
    requires Frontier(nodes, reachedSets[rs], explored, popped)
    requires |worklist| >= |popped| - 1 && worklist[..|popped| - 1] == popped[..|popped| - 1]
    requires forall c :: c in nodes[popped[|popped| - 1]].children && c in reachedSets[rs].states ==> c in worklist
    ensures Frontier(nodes, reachedSets[rs], explored + {popped[|popped| - 1]}, worklist)
  {
    var reached, current := reachedSets[rs], popped[|popped| - 1];
    forall c | c in reached.states && c !in explored + {current} && c in popped
      ensures c in worklist
    {
      var j := IndexOf(popped, c);
      assert worklist[j] == c;
    }
  }

  /** The loop over the children of the popped state `current`: a summary
   *  edge makes the search descend into the reached set cached for
   *  `current`, and a child in the reached set that is not on the worklist
   *  is pushed. */
  method GatherChildren(nodes: seq<ArgNode>, reachedSets: seq<ReachedSet>, summary: (nat, nat) -> bool,
                        cached: nat -> Entry, ghost universe: set<Entry>, block: nat, rs: nat, ghost entry: set<Entry>,
                        result: set<Entry>, ghost entryOrder: seq<Entry>, order: seq<Entry>,
                        ghost done: set<nat>, current: nat, worklist: seq<nat>, ghost popped: seq<nat>)
    returns (result': set<Entry>, order': seq<Entry>, worklist': seq<nat>)
    requires ValidSets(nodes, reachedSets, cached) && forall s: nat :: s < |nodes| ==> cached(s) in universe
    requires (block, rs) in universe && (block, rs) !in entry
    requires GatherInv(nodes, reachedSets, summary, cached, universe, block, rs, entry, result, entryOrder, order,
                       popped, done)
    requires popped == worklist + [current] && current !in done
    ensures GatherInv(nodes, reachedSets, summary, cached, universe, block, rs, entry, result', entryOrder, order',
                      worklist', done + {current})
    decreases universe - entry, 0
  {
    result', order', worklist' := result, order, worklist;
    assert forall i :: 0 <= i < |worklist| ==> worklist[i] == popped[i];
    assert popped[|worklist|] == current && current in reachedSets[rs].states;
    assert SearchReaches(nodes, reachedSets[rs], current);
    var pending := nodes[current].children;
    while pending != {}
      invariant pending <= nodes[current].children
      invariant entry + {(block, rs)} <= result' <= universe
      invariant forall q :: q in result' && q !in entry && q != (block, rs) ==>
                  Complete(nodes, reachedSets, summary, cached, q, result')
      invariant Entries(order') == result' && entryOrder + [(block, rs)] <= order'
      invariant DiscoveryOrder(nodes, reachedSets, summary, cached, order')
      invariant SummariesIn(nodes, done, summary, cached, result')
      invariant forall c :: c in nodes[current].children && c !in pending && summary(current, c) ==> cached(current) in result'
      invariant |worklist'| >= |worklist| && worklist'[..|worklist|] == worklist
      invariant forall i :: 0 <= i < |worklist'| ==> worklist'[i] in reachedSets[rs].states
      invariant forall i :: 0 <= i < |worklist'| ==> SearchReaches(nodes, reachedSets[rs], worklist'[i])
      invariant forall c :: c in nodes[current].children && c !in pending && c in reachedSets[rs].states ==> c in worklist'
      decreases pending
    {
      var c :| c in pending;
      if summary(current, c) {
        var pair := cached(current);
        ghost var before, orderBefore := result', order';
        assert Summoned(nodes, reachedSets, summary, cached, result', pair) by {
          assert (block, rs) in result' && c in nodes[current].children;
        }
        result', order' := Gather(nodes, reachedSets, summary, cached, universe, pair.0, pair.1, result', order');
        forall q | q in before && q !in entry && q != (block, rs)
          ensures Complete(nodes, reachedSets, summary, cached, q, result')
        {
          CompleteMono(nodes, reachedSets, summary, cached, q, before, result');
        }
        assert entryOrder + [(block, rs)] <= orderBefore <= order';
      }
      if c !in worklist' && c in reachedSets[rs].states {
        SearchReachesChild(nodes, reachedSets[rs], current, c);
        worklist' := worklist' + [c];
      }
      pending := pending - {c};
    }
    Pushed(nodes, reachedSets, summary, cached, universe, block, rs, entry, result', popped, done, worklist');
  }

  /** `gatherReachedSets`: the multimap gathered from the main block and the
   *  final reached set. It holds that entry, and every entry in it is
   *  complete with respect to it: the multimap is closed under descending
   *  into summary edges. Conversely, in the order `order` the entries were
   *  put, every entry after the main one is the reached set cached for a
   *  state with a summary edge that the search of an earlier entry reaches. */
  method GatherReachedSets(nodes: seq<ArgNode>, reachedSets: seq<ReachedSet>, summary: (nat, nat) -> bool,
                           cached: nat -> Entry, mainBlock: nat, finalReached: nat)
    returns (result: set<Entry>, order: seq<Entry>)
    requires ValidSets(nodes, reachedSets, cached) && finalReached < |reachedSets|
    ensures (mainBlock, finalReached) in result
    ensures forall q :: q in result ==> Complete(nodes, reachedSets, summary, cached, q, result)
    ensures forall q :: q in result ==> q == (mainBlock, finalReached) || Summoned(nodes, reachedSets, summary, cached, result, q)
    ensures |order| > 0 && order[0] == (mainBlock, finalReached) && Entries(order) == result
    ensures DiscoveryOrder(nodes, reachedSets, summary, cached, order)
  {
    ghost var universe := {(mainBlock, finalReached)} + set s | 0 <= s < |nodes| :: cached(s);
    result, order := Gather(nodes, reachedSets, summary, cached, universe, mainBlock, finalReached, {}, []);
    assert [(mainBlock, finalReached)] <= order;
  }

  /** When the search of the final reached set meets no summary edge, the
   *  discovery order of `GatherReachedSets` holds the main entry alone. */
  lemma GatherOnlyMain(nodes: seq<ArgNode>, reachedSets: seq<ReachedSet>, summary: (nat, nat) -> bool,
                       cached: nat -> Entry, main: Entry, order: seq<Entry>)
    requires main.1 < |reachedSets| && |order| > 0 && order[0] == main
    requires DiscoveryOrder(nodes, reachedSets, summary, cached, order)
    requires forall s: nat, c :: SearchReaches(nodes, reachedSets[main.1], s) && s < |nodes| && c in nodes[s].children
                                 ==> !summary(s, c)
    ensures order == [main] && Entries(order) == {main}
  {
    if |order| > 1 {
      SecondSummoned(nodes, reachedSets, summary, cached, order);
      assert false;
    }
  }

  /** The second entry of a discovery order is summoned from the first. */
  lemma SecondSummoned(nodes: seq<ArgNode>, reachedSets: seq<ReachedSet>, summary: (nat, nat) -> bool,
                       cached: nat -> Entry, order: seq<Entry>)
    requires |order| > 1 && DiscoveryOrder(nodes, reachedSets, summary, cached, order)
    ensures Summoned(nodes, reachedSets, summary, cached, {order[0]}, order[1])
  {
    assert SummonedAt(nodes, reachedSets, summary, cached, order, 1);
    assert Entries(order[..1]) == {order[0]};
  }

  /** `path` follows child and covering links of the ARG. */
  predicate IsPath(nodes: seq<ArgNode>, path: seq<nat>) {
    forall i :: 0 <= i < |path| - 1 ==> path[i] < |nodes| && Succ(nodes, path[i], path[i + 1])
  }

  /** The states closed under child and covering links. */
  predicate ClosedUnderSucc(nodes: seq<ArgNode>, states: set<nat>) {
    forall s :: s in states ==>
      s < |nodes| && (forall c :: c in nodes[s].children ==> c in states)
      && (nodes[s].coveredBy.Some? ==> nodes[s].coveredBy.value in states)
  }

  /** A set closed under the links holds every state reachable from one of
   *  its states; with the closure `CopyArg` ensures, every state reachable
   *  from the root has a copy. */
  lemma {:induction false} ClosedHoldsReachable(nodes: seq<ArgNode>, states: set<nat>, path: seq<nat>)
    requires ClosedUnderSucc(nodes, states) && IsPath(nodes, path) && |path| > 0 && path[0] in states
    ensures path[|path| - 1] in states
  {
    if |path| > 1 {
      var prefix := path[..|path| - 1];
      assert IsPath(nodes, prefix) by {
        forall i | 0 <= i < |prefix| - 1
          ensures prefix[i] < |nodes| && Succ(nodes, prefix[i], prefix[i + 1])
        {
          assert prefix[i] == path[i] && prefix[i + 1] == path[i + 1];
        }
      }
      ClosedHoldsReachable(nodes, states, prefix);
      assert Succ(nodes, path[|path| - 2], path[|path| - 1]);
    }
  }

  /** `path` follows child links inside the reached set `rs` from its first
   *  state. */
  predicate IsSearchPath(nodes: seq<ArgNode>, rs: ReachedSet, path: seq<nat>) {
    |path| > 0 && path[0] == rs.first
    && (forall i :: 0 <= i < |path| ==> path[i] in rs.states)
    && forall i :: 0 <= i < |path| - 1 ==> path[i] < |nodes| && path[i + 1] in nodes[path[i]].children
  }

  /** A closed exploration holds every state the search can reach, so a
   *  summary edge leaving any such state leads to an entry of `result`. */
  lemma {:induction false} ExplorationHoldsReachable(nodes: seq<ArgNode>, rs: ReachedSet, explored: set<nat>,
                                                     summary: (nat, nat) -> bool, cached: nat -> Entry,
                                                     result: set<Entry>, path: seq<nat>)
    requires ClosedExploration(nodes, rs, explored, summary, cached, result) && IsSearchPath(nodes, rs, path)
    ensures path[|path| - 1] in explored
    ensures SummariesIn(nodes, {path[|path| - 1]}, summary, cached, result)
  {
    if |path| > 1 {
      var prefix := path[..|path| - 1];
      assert IsSearchPath(nodes, rs, prefix) by {
        forall i | 0 <= i < |prefix| - 1
          ensures prefix[i] < |nodes| && prefix[i + 1] in nodes[prefix[i]].children
        {
          assert prefix[i] == path[i] && prefix[i + 1] == path[i + 1];
        }
      }
      ExplorationHoldsReachable(nodes, rs, explored, summary, cached, result, prefix);
      assert path[|path| - 1] in nodes[path[|path| - 2]].children;
    }
  }
}
