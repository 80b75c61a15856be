// The reduction of the witness graph before it is written
// (cpa/arg/ARGPathExporter.java): the transition conditions that label the
// edges, the walk that hands the ARG edges to the graph builder, and the
// witness writer that keeps its edges in two multimaps, prunes redundant
// edges to the sink and merges nodes joined by redundant edges.
module WitnessGraphs {
  import opened Wrappers
  import Sets

  // ----- transition conditions -----

  /** A GraphML key, by its ordinal in the `KeyDef` enumeration. */
  type KeyDef = nat

  const ASSUMPTION: KeyDef := 0
  const ASSUMPTIONSCOPE: KeyDef := 1
  const INVARIANT: KeyDef := 2
  const INVARIANTSCOPE: KeyDef := 3
  const FUNCTIONEXIT: KeyDef := 4

  /** A `TransitionCondition`: its sorted map from keys to values. */
  type Label = map<KeyDef, string>

  /** `keyValues.get(k)`: absent keys give no value. */
  function Lookup(cond: Label, k: KeyDef): Option<string> {
    if k in cond then Some(cond[k]) else None
  }

  /** `hasTransitionRestrictions`. */
  function HasTransitionRestrictions(cond: Label): (r: bool)
    ensures r <==> exists k :: k in cond
  {
    if cond == map[] then false else (assert cond.Keys != {}; var k :| k in cond; true)
  }

  /** The keys `summarizes` leaves out: assumptions and invariants always,
   *  their scopes when either side has no assumption (invariant). */
  predicate IgnoredKey(a: Label, b: Label, k: KeyDef) {
    var ignoreAssumptionScope := ASSUMPTION !in a || ASSUMPTION !in b;
    var ignoreInvariantScope := INVARIANT !in a || INVARIANT !in b;
    k == ASSUMPTION || k == INVARIANT
    || (ignoreAssumptionScope && k == ASSUMPTIONSCOPE) || (ignoreInvariantScope && k == INVARIANTSCOPE)
  }

  /** `a.summarizes(b)`: equal labels, or labels that agree on every key
   *  that is not ignored. */
  predicate Summarizes(a: Label, b: Label) {
    a == b || forall k | k in a.Keys + b.Keys :: !IgnoredKey(a, b, k) ==> Lookup(a, k) == Lookup(b, k)
  }

  /** The shortcut for equal labels agrees with the key-by-key test, so
   *  `summarizes` is reflexive and depends only on the compared keys. */
  lemma SummarizesMeaning(a: Label, b: Label)
    ensures Summarizes(a, a)
    ensures Summarizes(a, b) <==> forall k :: !IgnoredKey(a, b, k) ==> Lookup(a, k) == Lookup(b, k)
  {
    if Summarizes(a, b) && a != b {
      forall k | !IgnoredKey(a, b, k)
        ensures Lookup(a, k) == Lookup(b, k)
      {
        if k !in a.Keys + b.Keys {
          assert Lookup(a, k) == None == Lookup(b, k);
        }
      }
    }
  }

  /** Changing the assumption and invariant values of the summarized label,
   *  but not whether it has them, does not change the outcome. */
  lemma SummarizesIgnoresValues(a: Label, b: Label, b': Label)
    requires forall k :: k != ASSUMPTION && k != INVARIANT ==> Lookup(b, k) == Lookup(b', k)
    requires (ASSUMPTION in b <==> ASSUMPTION in b') && (INVARIANT in b <==> INVARIANT in b')
    ensures Summarizes(a, b) <==> Summarizes(a, b')
  {
    SummarizesMeaning(a, b);
    SummarizesMeaning(a, b');
    assert forall k :: IgnoredKey(a, b, k) <==> IgnoredKey(a, b', k);
  }

  /** When either side has no assumption, the assumption scope is not
   *  compared. */
  lemma SummarizesIgnoresScopeWithoutAssumption(a: Label, b: Label, v: string)
    requires ASSUMPTION !in a && a != b[ASSUMPTIONSCOPE := v] && a != b
    ensures Summarizes(a, b) <==> Summarizes(a, b[ASSUMPTIONSCOPE := v])
  {
    SummarizesMeaning(a, b);
    SummarizesMeaning(a, b[ASSUMPTIONSCOPE := v]);
    var b' := b[ASSUMPTIONSCOPE := v];
    assert forall k :: k != ASSUMPTIONSCOPE ==> Lookup(b, k) == Lookup(b', k);
    assert forall k :: IgnoredKey(a, b, k) <==> IgnoredKey(a, b', k);
  }

  /** `summarizes`, with its loop over all keys: `keyDefs` is
   *  `KeyDef.values()`. */
  method SummarizesLoop(a: Label, b: Label, keyDefs: seq<KeyDef>) returns (r: bool)
    requires forall k :: k in a || k in b ==> k in keyDefs
    ensures r == Summarizes(a, b)
  {
    SummarizesMeaning(a, b);
    if a == b {
      return true;
    }
    var ignoreAssumptionScope := ASSUMPTION !in a || ASSUMPTION !in b;
    var ignoreInvariantScope := INVARIANT !in a || INVARIANT !in b;
    var i := 0;
    while i < |keyDefs|
      invariant 0 <= i <= |keyDefs|
      invariant forall j :: 0 <= j < i ==> !IgnoredKey(a, b, keyDefs[j]) ==> Lookup(a, keyDefs[j]) == Lookup(b, keyDefs[j])
    {
      var keyDef := keyDefs[i];
      if keyDef != ASSUMPTION && keyDef != INVARIANT
         && !(ignoreAssumptionScope && keyDef == ASSUMPTIONSCOPE)
         && !(ignoreInvariantScope && keyDef == INVARIANTSCOPE)
         && Lookup(a, keyDef) != Lookup(b, keyDef) {
        return false;
      }
      i := i + 1;
    }
    forall k | !IgnoredKey(a, b, k)
      ensures Lookup(a, k) == Lookup(b, k)
    {
      if k in a || k in b {
        var j :| 0 <= j < |keyDefs| && keyDefs[j] == k;
      }
    }
    r := true;
  }

  // ----- comparing conditions -----

  /** `String.compareTo`: the difference of the first differing characters,
   *  or of the lengths. */
  function JavaCompare(s: string, t: string): int {
    if |s| == 0 || |t| == 0 then |s| - |t|
    else if s[0] != t[0] then s[0] as int - t[0] as int
    else JavaCompare(s[1..], t[1..])
  }

  lemma {:induction false} JavaCompareAntisymmetric(s: string, t: string)
    ensures JavaCompare(s, t) == -JavaCompare(t, s)
    ensures JavaCompare(s, t) == 0 <==> s == t
  {
    if |s| > 0 && |t| > 0 && s[0] == t[0] {
      JavaCompareAntisymmetric(s[1..], t[1..]);
      if s[1..] == t[1..] {
        assert s == [s[0]] + s[1..] && t == [t[0]] + t[1..];
      }
    }
  }

  lemma {:induction false} JavaCompareTransitive(s: string, t: string, u: string)
    requires JavaCompare(s, t) < 0 && JavaCompare(t, u) < 0
    ensures JavaCompare(s, u) < 0
  {
    if |s| > 0 && |t| > 0 && |u| > 0 && s[0] == t[0] && t[0] == u[0] {
      JavaCompareTransitive(s[1..], t[1..], u[1..]);
    }
  }

  /** The least key of a non-empty set: the first in a sorted map. */
  ghost function Least(keys: set<KeyDef>): (m: KeyDef)
    requires keys != {}
    ensures m in keys && forall k :: k in keys ==> m <= k
    decreases |keys|
  {
    var k :| k in keys;
    var rest := keys - {k};
    if rest == {} then
      assert keys == {k};
      k
    else
      Sets.ProperSubsetCard(rest, keys);
      var m := Least(rest);
      assert m in rest && forall j :: j in rest ==> m <= j;
      if k < m then
        assert forall j :: j in keys ==> j == k || j in rest;
        k
      else
        assert forall j :: j in keys ==> j == k || j in rest;
        m
  }

  datatype CompareError = NoSuchElement

  /** `TransitionCondition.compareTo` as written: equal maps compare equal;
   *  a map whose keys all occur on the other side is smaller, whatever the
   *  values; the other way round it is larger; otherwise the first value
   *  differing on a common key decides, and when there is none the
   *  iterator's `next` throws. */
  ghost function CompareAsWritten(a: Label, b: Label): (r: Result<int, CompareError>)
    ensures r == Ok(0) <==> a == b
  {
    if a == b then Ok(0)
    else if a.Keys <= b.Keys then Ok(-1)
    else if b.Keys <= a.Keys then Ok(1)
    else
      var differing := set k | k in a && k in b && a[k] != b[k];
      if differing == {} then Err(NoSuchElement)
      else
        var k := Least(differing);
        JavaCompareAntisymmetric(a[k], b[k]);
        Ok(JavaCompare(a[k], b[k]))
  }

  /** Two labels with one key and different values are each smaller than
   *  the other. */
  lemma CompareAsWrittenNotAntisymmetric()
    ensures CompareAsWritten(map[ASSUMPTION := "x"], map[ASSUMPTION := "y"]) == Ok(-1)
    ensures CompareAsWritten(map[ASSUMPTION := "y"], map[ASSUMPTION := "x"]) == Ok(-1)
  {
    assert map[ASSUMPTION := "x"] != map[ASSUMPTION := "y"] by {
      assert map[ASSUMPTION := "x"][ASSUMPTION] != map[ASSUMPTION := "y"][ASSUMPTION];
    }
  }

  /** Two labels with one different key each cannot be compared. */
  lemma CompareAsWrittenThrows()
    ensures CompareAsWritten(map[ASSUMPTION := "x"], map[INVARIANT := "x"]) == Err(NoSuchElement)
  {
    var a: Label, b: Label := map[ASSUMPTION := "x"], map[INVARIANT := "x"];
    assert ASSUMPTION in a && ASSUMPTION !in b && INVARIANT in b && INVARIANT !in a;
    assert (set k | k in a && k in b && a[k] != b[k]) == {};
  }

  /** A missing value is smaller than any value. */
  function CompareValues(x: Option<string>, y: Option<string>): int {
    match (x, y)
    case (None, None) => 0
    case (None, Some(_)) => -1
    case (Some(_), None) => 1
    case (Some(v), Some(w)) => JavaCompare(v, w)
  }

  /** The keys on which two labels differ, by presence or by value. */
  function Differences(a: Label, b: Label): (d: set<KeyDef>)
    ensures forall k :: k in d <==> Lookup(a, k) != Lookup(b, k)
  {
    set k | k in a.Keys + b.Keys && Lookup(a, k) != Lookup(b, k)
  }

  /** `TransitionCondition.compareTo` as evidently intended: the order of
   *  sorted maps, decided at the first key where the labels differ. */
  ghost function Compare(a: Label, b: Label): int {
    var d := Differences(a, b);
    if d == {} then 0 else var k := Least(d); CompareValues(Lookup(a, k), Lookup(b, k))
  }

  lemma NoDifferences(a: Label, b: Label)
    ensures Differences(a, b) == {} <==> a == b
  {
    if Differences(a, b) == {} {
      assert forall k :: k in a <==> k in b by {
        forall k ensures k in a <==> k in b {
          assert Lookup(a, k) == Lookup(b, k);
        }
      }
      assert forall k :: k in a ==> a[k] == b[k] by {
        forall k | k in a ensures a[k] == b[k] {
          assert Lookup(a, k) == Lookup(b, k);
        }
      }
    }
  }

  lemma CompareValuesAntisymmetric(x: Option<string>, y: Option<string>)
    ensures CompareValues(x, y) == -CompareValues(y, x)
    ensures CompareValues(x, y) == 0 <==> x == y
  {
    if x.Some? && y.Some? {
      JavaCompareAntisymmetric(x.value, y.value);
    }
  }

  /** The intended comparison is a total order's: it never fails, it is
   *  zero exactly on equal labels, and swapping the sides flips the
   *  sign. */
  lemma CompareAntisymmetric(a: Label, b: Label)
    ensures Compare(a, b) == 0 <==> a == b
    ensures Compare(a, b) == -Compare(b, a)
  {
    NoDifferences(a, b);
    assert Differences(a, b) == Differences(b, a);
    if Differences(a, b) != {} {
      var k := Least(Differences(a, b));
      CompareValuesAntisymmetric(Lookup(a, k), Lookup(b, k));
    }
  }

  lemma CompareValuesTransitive(x: Option<string>, y: Option<string>, z: Option<string>)
    requires CompareValues(x, y) < 0 && CompareValues(y, z) < 0
    ensures CompareValues(x, z) < 0
  {
    if x.Some? && y.Some? && z.Some? {
      JavaCompareTransitive(x.value, y.value, z.value);
    }
  }

  /** ... and it is transitive. */
  lemma CompareTransitive(a: Label, b: Label, c: Label)
    requires Compare(a, b) < 0 && Compare(b, c) < 0
    ensures Compare(a, c) < 0
  {
    NoDifferences(a, b);
    NoDifferences(b, c);
    var k1, k2 := Least(Differences(a, b)), Least(Differences(b, c));
    if k1 < k2 {
      assert Lookup(b, k1) == Lookup(c, k1);
      assert forall k :: k < k1 ==> Lookup(a, k) == Lookup(c, k);
      assert k1 == Least(Differences(a, c));
    } else if k2 < k1 {
      assert Lookup(a, k2) == Lookup(b, k2);
      assert forall k :: k < k2 ==> Lookup(a, k) == Lookup(c, k);
      assert k2 == Least(Differences(a, c));
    } else {
      CompareValuesTransitive(Lookup(a, k1), Lookup(b, k1), Lookup(c, k1));
      CompareValuesAntisymmetric(Lookup(a, k1), Lookup(c, k1));
      assert forall k :: k < k1 ==> Lookup(a, k) == Lookup(c, k);
      assert k1 == Least(Differences(a, c));
    }
  }

  // ----- the ARG walk handed to the graph builder -----

  /** An ARG state in an arena: state `s` is `nodes[s]`, with its children
   *  in order and the state covering it, if any. */
  datatype ArgState = ArgState(children: seq<nat>, coveredBy: Option<nat>)

  /** Every link points into the arena, and a covering state is not itself
   *  covered. */
  predicate ValidArg(nodes: seq<ArgState>) {
    forall s :: 0 <= s < |nodes| ==>
      (forall j :: 0 <= j < |nodes[s].children| ==> nodes[s].children[j] < |nodes|)
      && (nodes[s].coveredBy.Some? ==> nodes[s].coveredBy.value < |nodes| && nodes[nodes[s].coveredBy.value].coveredBy.None?)
  }

  /** `COVERED_TO_COVERING`: a covered state stands for the state covering
   *  it, which is not covered. */
  function CoveredToCovering(nodes: seq<ArgState>, s: nat): (c: nat)
    requires ValidArg(nodes) && s < |nodes|
    ensures c < |nodes| && nodes[c].coveredBy.None?
    ensures c == s || nodes[s].coveredBy == Some(c)
    ensures nodes[s].coveredBy.None? ==> c == s
  {
    if nodes[s].coveredBy.Some? then nodes[s].coveredBy.value else s
  }

  /** The successors `children`, each mapped from covered to covering, kept
   *  when they are children of `parent`. */
  function Reported(nodes: seq<ArgState>, children: seq<nat>, parent: nat): (r: seq<nat>)
    requires ValidArg(nodes) && parent < |nodes| && forall j :: 0 <= j < |children| ==> children[j] < |nodes|
    ensures forall m :: 0 <= m < |r| ==> r[m] < |nodes| && nodes[r[m]].coveredBy.None? && r[m] in nodes[parent].children
    ensures |r| <= |children|
  {
    if children == [] then []
    else
      var c := CoveredToCovering(nodes, children[0]);
      (if c in nodes[parent].children then [c] else []) + Reported(nodes, children[1..], parent)
  }

  /** A state is reported exactly when it is a child of the parent and
   *  stands for one of the successors. */
  lemma {:induction false} ReportedMeaning(nodes: seq<ArgState>, children: seq<nat>, parent: nat)
    requires ValidArg(nodes) && parent < |nodes| && forall j :: 0 <= j < |children| ==> children[j] < |nodes|
    ensures forall c :: c in Reported(nodes, children, parent) <==>
              c in nodes[parent].children && exists j :: 0 <= j < |children| && c == CoveredToCovering(nodes, children[j])
  {
    if children != [] {
      ReportedMeaning(nodes, children[1..], parent);
      assert forall j :: 0 <= j < |children[1..]| ==> children[1..][j] == children[j + 1];
      forall c | c in nodes[parent].children && (exists j :: 0 <= j < |children| && c == CoveredToCovering(nodes, children[j]))
        ensures c in Reported(nodes, children, parent)
      {
        var j :| 0 <= j < |children| && c == CoveredToCovering(nodes, children[j]);
        if j > 0 {
          assert c == CoveredToCovering(nodes, children[1..][j - 1]);
        }
      }
    }
  }

  /** The children reported for a parent in `collectPathEdges`. */
  function ReportedChildren(nodes: seq<ArgState>, parent: nat): (r: seq<nat>)
    requires ValidArg(nodes) && parent < |nodes|
  {
    Reported(nodes, nodes[parent].children, parent)
  }

  /** Reported children are genuine, uncovered children of their parent,
   *  and every uncovered child is reported. */
  lemma ReportedChildrenGenuine(nodes: seq<ArgState>, parent: nat)
    requires ValidArg(nodes) && parent < |nodes|
    ensures forall c :: c in ReportedChildren(nodes, parent) ==> c in nodes[parent].children && c < |nodes| && nodes[c].coveredBy.None?
    ensures forall c :: c in nodes[parent].children && c < |nodes| && nodes[c].coveredBy.None? ==> c in ReportedChildren(nodes, parent)
  {
    var children := nodes[parent].children;
    ReportedMeaning(nodes, children, parent);
    forall c | c in children && c < |nodes| && nodes[c].coveredBy.None?
      ensures c in ReportedChildren(nodes, parent)
    {
      var j :| 0 <= j < |children| && children[j] == c;
      assert c == CoveredToCovering(nodes, children[j]);
    }
  }

  /** A covered child stands for its covering state, which is reported
   *  exactly when it is a child of the same parent. */
  lemma CoveredChildReported(nodes: seq<ArgState>, parent: nat, j: nat)
    requires ValidArg(nodes) && parent < |nodes| && j < |nodes[parent].children|
    requires nodes[nodes[parent].children[j]].coveredBy.Some?
    ensures var covering := nodes[nodes[parent].children[j]].coveredBy.value;
            covering in ReportedChildren(nodes, parent) <==> covering in nodes[parent].children
  {
    ReportedMeaning(nodes, nodes[parent].children, parent);
    assert nodes[nodes[parent].children[j]].coveredBy.value == CoveredToCovering(nodes, nodes[parent].children[j]);
  }

  predicate Distinct(s: seq<nat>) {
    forall a, b :: 0 <= a < b < |s| ==> s[a] != s[b]
  }

  /** The state of the walk with `done` parents reported: `seen` are the
   *  visited states in the order they were found, the first `done` of them
   *  reported; every state after the first was found as a reported
   *  path-state child of the state at `from`. */
  ghost predicate Walk(nodes: seq<ArgState>, pathStates: nat -> bool, initial: nat, done: nat,
                       seen: seq<nat>, from: seq<nat>, visited: set<nat>)
    requires ValidArg(nodes)
  {
    && 0 < |seen| && seen[0] == initial && done <= |seen| && |from| == |seen|
    && Distinct(seen)
    && (forall j :: 0 <= j < |seen| ==> seen[j] < |nodes|)
    && (forall x :: x in visited <==> x in seen)
    && (forall i, c :: 0 <= i < done && c in ReportedChildren(nodes, seen[i]) && pathStates(c) ==> c in visited)
    && (forall j {:trigger from[j]} :: 0 < j < |seen| ==>
          (from[j] < j && from[j] <= done && pathStates(seen[j]) && seen[j] in ReportedChildren(nodes, seen[from[j]])))
  }

  /** The pairs `collectPathEdges` yields: each parent once, starting with
   *  the initial state, with its reported children; every reported child
   *  that is a path state is a parent itself, and every parent after the
   *  first is a reported path-state child of an earlier one. */
  ghost predicate PathEdges(nodes: seq<ArgState>, pathStates: nat -> bool, initial: nat, pairs: seq<(nat, seq<nat>)>)
    requires ValidArg(nodes)
  {
    && 0 < |pairs| && pairs[0].0 == initial
    && (forall a, b :: 0 <= a < b < |pairs| ==> pairs[a].0 != pairs[b].0)
    && (forall i :: 0 <= i < |pairs| ==> pairs[i].0 < |nodes| && pairs[i].1 == ReportedChildren(nodes, pairs[i].0))
    && (forall i, c :: 0 <= i < |pairs| && c in pairs[i].1 && pathStates(c) ==> exists j :: 0 <= j < |pairs| && pairs[j].0 == c)
    && (forall j :: 0 < j < |pairs| ==> pathStates(pairs[j].0) && exists i :: 0 <= i < j && pairs[j].0 in pairs[i].1)
  }

  /** The states of an arena of `n` states. */
  function States(n: nat): (r: set<nat>)
    ensures forall x: nat :: x in r <==> x < n
  {
    if n == 0 then {} else States(n - 1) + {n - 1}
  }

  /** The walk inside the loop over the reported children of the parent
   *  `seen[done]`, polled from the waitlist when `seen0` were seen and
   *  `visited0` visited: the first `k` children are dealt with. */
  ghost predicate Busy(nodes: seq<ArgState>, pathStates: nat -> bool, initial: nat, done: nat,
                       seen0: seq<nat>, visited0: set<nat>, seen: seq<nat>, from: seq<nat>, visited: set<nat>,
                       waitlist: seq<nat>, children: seq<nat>, k: nat)
    requires ValidArg(nodes)
  {
    && Walk(nodes, pathStates, initial, done, seen, from, visited)
    && done < |seen0| && seen0 <= seen && waitlist == seen[done + 1..]
    && visited0 <= visited && (visited == visited0 ==> seen == seen0)
    && children == ReportedChildren(nodes, seen[done]) && k <= |children|
    && (forall m :: 0 <= m < k && pathStates(children[m]) ==> children[m] in visited)
  }

  /** Polling the next parent starts the loop over its children. */
  lemma BusyStart(nodes: seq<ArgState>, pathStates: nat -> bool, initial: nat, done: nat,
                  seen: seq<nat>, from: seq<nat>, visited: set<nat>, waitlist: seq<nat>)
    requires ValidArg(nodes)
    requires Walk(nodes, pathStates, initial, done, seen, from, visited) && waitlist == seen[done..] && waitlist != []
    ensures waitlist[0] == seen[done] && waitlist[0] < |nodes|
    ensures Busy(nodes, pathStates, initial, done, seen, visited, seen, from, visited, waitlist[1..],
                 ReportedChildren(nodes, seen[done]), 0)
  {
  }

  /** A child that is no path state, or was visited, changes nothing. */
  lemma BusySkip(nodes: seq<ArgState>, pathStates: nat -> bool, initial: nat, done: nat,
                 seen0: seq<nat>, visited0: set<nat>, seen: seq<nat>, from: seq<nat>, visited: set<nat>,
                 waitlist: seq<nat>, children: seq<nat>, k: nat)
    requires ValidArg(nodes)
    requires Busy(nodes, pathStates, initial, done, seen0, visited0, seen, from, visited, waitlist, children, k)
    requires k < |children| && (!pathStates(children[k]) || children[k] in visited)
    ensures Busy(nodes, pathStates, initial, done, seen0, visited0, seen, from, visited, waitlist, children, k + 1)
  {
  }

  /** A new path-state child is visited and offered to the waitlist. */
  lemma BusyPush(nodes: seq<ArgState>, pathStates: nat -> bool, initial: nat, done: nat,
                 seen0: seq<nat>, visited0: set<nat>, seen: seq<nat>, from: seq<nat>, visited: set<nat>,
                 waitlist: seq<nat>, children: seq<nat>, k: nat)
    requires ValidArg(nodes)
    requires Busy(nodes, pathStates, initial, done, seen0, visited0, seen, from, visited, waitlist, children, k)
    requires k < |children| && pathStates(children[k]) && children[k] !in visited
    ensures Busy(nodes, pathStates, initial, done, seen0, visited0, seen + [children[k]], from + [done],
                 visited + {children[k]}, waitlist + [children[k]], children, k + 1)
  {
    WalkPush(nodes, pathStates, initial, done, seen, from, visited, children[k]);
    SliceAppend(seen, children[k], done + 1);
  }

  /** Visiting a new path-state child of the parent being handled keeps
   *  the walk state. */
  lemma WalkPush(nodes: seq<ArgState>, pathStates: nat -> bool, initial: nat, done: nat,
                 seen: seq<nat>, from: seq<nat>, visited: set<nat>, child: nat)
    requires ValidArg(nodes)
    requires Walk(nodes, pathStates, initial, done, seen, from, visited) && done < |seen|
    requires child in ReportedChildren(nodes, seen[done]) && pathStates(child) && child !in visited
    ensures Walk(nodes, pathStates, initial, done, seen + [child], from + [done], visited + {child})
  {
    var seen', from' := seen + [child], from + [done];
    DistinctAppend(seen, child);
    forall j | 0 < j < |seen'|
      ensures from'[j] < j && from'[j] <= done && pathStates(seen'[j]) && seen'[j] in ReportedChildren(nodes, seen'[from'[j]])
    {
      if j < |seen| {
        assert from'[j] == from[j] && seen'[j] == seen[j] && seen'[from[j]] == seen[from[j]];
      }
    }
    assert forall i :: 0 <= i < done ==> seen'[i] == seen[i];
  }

  lemma DistinctAppend(s: seq<nat>, x: nat)
    requires Distinct(s) && x !in s
    ensures Distinct(s + [x])
  {
  }

  lemma SliceAppend<T>(s: seq<T>, x: T, i: nat)
    requires i <= |s|
    ensures (s + [x])[i..] == s[i..] + [x]
  {
  }

  /** With all children dealt with, the parent is reported. */
  lemma BusyDone(nodes: seq<ArgState>, pathStates: nat -> bool, initial: nat, done: nat,
                 seen0: seq<nat>, visited0: set<nat>, seen: seq<nat>, from: seq<nat>, visited: set<nat>,
                 waitlist: seq<nat>, children: seq<nat>)
    requires ValidArg(nodes)
    requires Busy(nodes, pathStates, initial, done, seen0, visited0, seen, from, visited, waitlist, children, |children|)
    ensures Walk(nodes, pathStates, initial, done + 1, seen, from, visited)
    ensures visited <= States(|nodes|) && waitlist == seen[done + 1..]
    ensures visited0 < visited || seen == seen0
    ensures forall i :: 0 <= i < |seen0| ==> seen[i] == seen0[i]
  {
    forall c | c in children && pathStates(c)
      ensures c in visited
    {
      var m :| 0 <= m < |children| && children[m] == c;
    }
    forall i, c | 0 <= i < done + 1 && c in ReportedChildren(nodes, seen[i]) && pathStates(c)
      ensures c in visited
    {
      if i == done {
        assert c in children;
      }
    }
  }

  /** The pairs reported so far are the first parents in `seen`, each with
   *  its reported children. */
  ghost predicate Reporting(nodes: seq<ArgState>, pairs: seq<(nat, seq<nat>)>, seen: seq<nat>)
    requires ValidArg(nodes)
  {
    |pairs| <= |seen| && (forall j :: 0 <= j < |seen| ==> seen[j] < |nodes|)
    && forall i :: 0 <= i < |pairs| ==> pairs[i] == (seen[i], ReportedChildren(nodes, seen[i]))
  }

  lemma ReportingStep(nodes: seq<ArgState>, pairs: seq<(nat, seq<nat>)>, seen0: seq<nat>, seen: seq<nat>)
    requires ValidArg(nodes) && Reporting(nodes, pairs, seen0) && seen0 <= seen && |pairs| < |seen0|
    requires forall j :: 0 <= j < |seen| ==> seen[j] < |nodes|
    ensures Reporting(nodes, pairs + [(seen0[|pairs|], ReportedChildren(nodes, seen0[|pairs|]))], seen)
  {
  }

  /** The walk between two polls of the waitlist. */
  ghost predicate Idle(nodes: seq<ArgState>, pathStates: nat -> bool, initial: nat, pairs: seq<(nat, seq<nat>)>,
                       seen: seq<nat>, from: seq<nat>, visited: set<nat>, waitlist: seq<nat>)
    requires ValidArg(nodes)
  {
    Walk(nodes, pathStates, initial, |pairs|, seen, from, visited)
    && waitlist == seen[|pairs|..] && visited <= States(|nodes|) && Reporting(nodes, pairs, seen)
  }

  /** `collectPathEdges`, run to the end: a breadth-first walk from the
   *  initial state that reports each parent with its children and goes on
   *  from the children that are path states. */
  method CollectPathEdges(nodes: seq<ArgState>, initial: nat, pathStates: nat -> bool) returns (pairs: seq<(nat, seq<nat>)>)
    requires ValidArg(nodes) && initial < |nodes|
    ensures PathEdges(nodes, pathStates, initial, pairs)
  {
    var visited: set<nat> := {initial};
    var waitlist: seq<nat> := [initial];
    pairs := [];
    ghost var seen: seq<nat> := [initial];
    ghost var from: seq<nat> := [0];
    while waitlist != []
      invariant Idle(nodes, pathStates, initial, pairs, seen, from, visited, waitlist)
      decreases States(|nodes|) - visited, |waitlist|
    {
      pairs, visited, waitlist, seen, from := ReportNext(nodes, pathStates, initial, pairs, seen, from, visited, waitlist);
    }
    WalkEnd(nodes, pathStates, initial, pairs, seen, from, visited);
  }

  /** One `next()` of the iterator: polls a parent, visits its new
   *  path-state children and reports it. */
  method ReportNext(nodes: seq<ArgState>, pathStates: nat -> bool, initial: nat, pairs0: seq<(nat, seq<nat>)>,
                    ghost seen0: seq<nat>, ghost from0: seq<nat>, visited0: set<nat>, waitlist0: seq<nat>)
    returns (pairs: seq<(nat, seq<nat>)>, visited: set<nat>, waitlist: seq<nat>, ghost seen: seq<nat>, ghost from: seq<nat>)
    requires ValidArg(nodes) && Idle(nodes, pathStates, initial, pairs0, seen0, from0, visited0, waitlist0) && waitlist0 != []
    ensures Idle(nodes, pathStates, initial, pairs, seen, from, visited, waitlist)
    ensures visited0 < visited || (visited == visited0 && |waitlist| < |waitlist0|)
  {
    BusyStart(nodes, pathStates, initial, |pairs0|, seen0, from0, visited0, waitlist0);
    var parent := waitlist0[0];
    var children := ReportedChildren(nodes, parent);
    visited, waitlist, seen, from := VisitChildren(nodes, pathStates, initial, |pairs0|, children, seen0, visited0, waitlist0[1..], from0);
    BusyDone(nodes, pathStates, initial, |pairs0|, seen0, visited0, seen, from, visited, waitlist, children);
    ReportingStep(nodes, pairs0, seen0, seen);
    pairs := pairs0 + [(parent, children)];
  }

  /** The loop over the reported children of `seen0[done]`: each new
   *  path-state child is visited and offered to the waitlist. */
  method VisitChildren(nodes: seq<ArgState>, pathStates: nat -> bool, initial: nat, done: nat, children: seq<nat>,
                       ghost seen0: seq<nat>, visited0: set<nat>, waitlist0: seq<nat>, ghost from0: seq<nat>)
    returns (visited: set<nat>, waitlist: seq<nat>, ghost seen: seq<nat>, ghost from: seq<nat>)
    requires ValidArg(nodes)
    requires Busy(nodes, pathStates, initial, done, seen0, visited0, seen0, from0, visited0, waitlist0, children, 0)
    ensures Busy(nodes, pathStates, initial, done, seen0, visited0, seen, from, visited, waitlist, children, |children|)
  {
    visited, waitlist, seen, from := visited0, waitlist0, seen0, from0;
    var k := 0;
    while k < |children|
      invariant Busy(nodes, pathStates, initial, done, seen0, visited0, seen, from, visited, waitlist, children, k)
    {
      var child := children[k];
      if pathStates(child) && child !in visited {
        BusyPush(nodes, pathStates, initial, done, seen0, visited0, seen, from, visited, waitlist, children, k);
        visited := visited + {child};
        waitlist := waitlist + [child];
        seen := seen + [child];
        from := from + [done];
      } else {
        BusySkip(nodes, pathStates, initial, done, seen0, visited0, seen, from, visited, waitlist, children, k);
      }
      k := k + 1;
    }
  }

  /** A walk with nothing left to report yields the path edges. */
  lemma WalkEnd(nodes: seq<ArgState>, pathStates: nat -> bool, initial: nat,
                pairs: seq<(nat, seq<nat>)>, seen: seq<nat>, from: seq<nat>, visited: set<nat>)
    requires ValidArg(nodes)
    requires Idle(nodes, pathStates, initial, pairs, seen, from, visited, [])
    ensures PathEdges(nodes, pathStates, initial, pairs)
  {
    forall i, c | 0 <= i < |pairs| && c in pairs[i].1 && pathStates(c)
      ensures exists j :: 0 <= j < |pairs| && pairs[j].0 == c
    {
      var j :| 0 <= j < |seen| && seen[j] == c;
      assert pairs[j].0 == c;
    }
    forall j | 0 < j < |pairs|
      ensures pathStates(pairs[j].0) && exists i :: 0 <= i < j && pairs[j].0 in pairs[i].1
    {
      assert pairs[j].0 in pairs[from[j]].1;
    }
  }

  // ----- witness edges -----

  /** An `Edge` of the witness automaton, between two node ids. */
  datatype Edge = Edge(source: string, target: string, cond: Label)

  /** `Edge.compareTo` as written: by source, then target, then label, with
   *  the label comparison as written. */
  ghost function EdgeCompareAsWritten(e: Edge, f: Edge): (r: Result<int, CompareError>)
    ensures r == Ok(0) <==> e == f
  {
    JavaCompareAntisymmetric(e.source, f.source);
    JavaCompareAntisymmetric(e.target, f.target);
    if JavaCompare(e.source, f.source) != 0 then Ok(JavaCompare(e.source, f.source))
    else if JavaCompare(e.target, f.target) != 0 then Ok(JavaCompare(e.target, f.target))
    else CompareAsWritten(e.cond, f.cond)
  }

  /** Two parallel edges whose labels differ in one value are each smaller
   *  than the other, so the sorted edge sets of the multimaps are not
   *  ordered consistently. */
  lemma EdgeCompareAsWrittenNotAntisymmetric()
    ensures EdgeCompareAsWritten(Edge("A", "B", map[ASSUMPTION := "x"]), Edge("A", "B", map[ASSUMPTION := "y"])) == Ok(-1)
    ensures EdgeCompareAsWritten(Edge("A", "B", map[ASSUMPTION := "y"]), Edge("A", "B", map[ASSUMPTION := "x"])) == Ok(-1)
  {
    JavaCompareAntisymmetric("A", "A");
    JavaCompareAntisymmetric("B", "B");
    CompareAsWrittenNotAntisymmetric();
  }

  /** `Edge.compareTo` with the intended label order. */
  ghost function EdgeCompare(e: Edge, f: Edge): int {
    if JavaCompare(e.source, f.source) != 0 then JavaCompare(e.source, f.source)
    else if JavaCompare(e.target, f.target) != 0 then JavaCompare(e.target, f.target)
    else Compare(e.cond, f.cond)
  }

  /** The corrected edge order is zero exactly on equal edges and flips
   *  sign when the sides are swapped. */
  lemma EdgeCompareAntisymmetric(e: Edge, f: Edge)
    ensures EdgeCompare(e, f) == 0 <==> e == f
    ensures EdgeCompare(e, f) == -EdgeCompare(f, e)
  {
    JavaCompareAntisymmetric(e.source, f.source);
    JavaCompareAntisymmetric(e.target, f.target);
    CompareAntisymmetric(e.cond, f.cond);
  }

  /** ... and it is transitive. */
  lemma EdgeCompareTransitive(e: Edge, f: Edge, g: Edge)
    requires EdgeCompare(e, f) < 0 && EdgeCompare(f, g) < 0
    ensures EdgeCompare(e, g) < 0
  {
    JavaCompareAntisymmetric(e.source, f.source);
    JavaCompareAntisymmetric(f.source, g.source);
    JavaCompareAntisymmetric(e.target, f.target);
    JavaCompareAntisymmetric(f.target, g.target);
    var c1, c2 := JavaCompare(e.source, f.source), JavaCompare(f.source, g.source);
    if c1 != 0 && c2 != 0 {
      JavaCompareTransitive(e.source, f.source, g.source);
    } else if c1 != 0 || c2 != 0 {
      assert JavaCompare(e.source, g.source) < 0;
    } else {
      assert e.source == g.source;
      var d1, d2 := JavaCompare(e.target, f.target), JavaCompare(f.target, g.target);
      if d1 != 0 && d2 != 0 {
        JavaCompareTransitive(e.target, f.target, g.target);
      } else if d1 != 0 || d2 != 0 {
        assert JavaCompare(e.target, g.target) < 0;
      } else {
        assert e.target == g.target;
        JavaCompareAntisymmetric(e.target, g.target);
        JavaCompareAntisymmetric(e.source, g.source);
        CompareTransitive(e.cond, f.cond, g.cond);
      }
    }
  }

  // ----- the witness writer's graph -----

  /** `multimap.get(key)`: the empty collection for an absent key. */
  function Get<V>(m: map<string, set<V>>, key: string): set<V> {
    if key in m then m[key] else {}
  }

  /** The edges of a set that leave (enter) a node. */
  function Leaving(edges: set<Edge>, node: string): (r: set<Edge>)
    ensures forall x :: x in r <==> x in edges && x.source == node
  {
    set x | x in edges && x.source == node
  }

  function Entering(edges: set<Edge>, node: string): (r: set<Edge>)
    ensures forall x :: x in r <==> x in edges && x.target == node
  {
    set x | x in edges && x.target == node
  }

  /** `nodeFlags.putAll(source, nodeFlags.removeAll(target))`, and the same
   *  for the violated properties: the target's entries move to the source. */
  function Absorb<V>(m: map<string, set<V>>, source: string, target: string): (r: map<string, set<V>>)
    ensures Get(r, source) == Get(m, source) + Get(m, target)
    ensures source != target ==> Get(r, target) == {}
    ensures forall n :: n != source && n != target ==> Get(r, n) == Get(m, n)
  {
    var m' := m - {target};
    m'[source := Get(m', source) + Get(m, target)]
  }

  /** The sink edges that the pruning after `buildGraph` removes: edges to
   *  the sink whose source has another leaving edge with an equal label. */
  ghost function SinkRedundant(edges: set<Edge>, sink: string): (r: set<Edge>)
    ensures r <= edges
  {
    set x | x in edges && x.target == sink && exists y :: y in edges && y.source == x.source && y != x && y.cond == x.cond
  }

  /** Every pruned edge has a surviving sibling with the same label, so the
   *  pruning loses no label of any node. */
  lemma PruneKeepsLabels(edges: set<Edge>, sink: string, x: Edge)
    requires x in SinkRedundant(edges, sink)
    ensures exists y :: y in edges - SinkRedundant(edges, sink) && y.source == x.source && y.cond == x.cond && y.target != sink
  {
    var y :| y in edges && y.source == x.source && y != x && y.cond == x.cond;
    assert y.target != sink;
    assert y !in SinkRedundant(edges, sink);
  }

  /** Pruning once leaves nothing to prune. */
  lemma PruneIdempotent(edges: set<Edge>, sink: string)
    ensures SinkRedundant(edges - SinkRedundant(edges, sink), sink) == {}
  {
  }

  /** The target's leaving edges, moved to leave the source, their labels
   *  put over `cond`. */
  function Rerouted(out: set<Edge>, source: string, cond: Label): set<Edge> {
    set x | x in out :: Edge(source, x.target, cond + x.cond)
  }

  /** The target's entering edges, moved to enter the source. */
  function Redirected(into: set<Edge>, source: string, cond: Label): set<Edge> {
    set x | x in into :: Edge(x.source, source, cond + x.cond)
  }

  /** The edge set after the first half of `mergeNodes`: the target's
   *  leaving edges now leave the source. */
  function MoveLeaving(edges: set<Edge>, source: string, target: string, cond: Label): set<Edge> {
    var out := Leaving(edges, target);
    (edges - out) + Rerouted(out, source, cond)
  }

  /** The second half: the target's entering edges, other than the merged
   *  edge, now enter the source. */
  function MoveEntering(edges: set<Edge>, source: string, target: string, merged: Edge): set<Edge> {
    var into := Entering(edges, target);
    (edges - into) + Redirected(into - {merged}, source, merged.cond)
  }

  /** The edges after `mergeNodes(e)`. */
  function MergedEdges(edges: set<Edge>, e: Edge): set<Edge> {
    MoveEntering(MoveLeaving(edges - {e}, e.source, e.target, e.cond), e.source, e.target, e)
  }

  /** A merge removes at least the merged edge, so the merge loop ends. */
  lemma MergeShrinks(edges: set<Edge>, e: Edge)
    requires e in edges
    ensures |MergedEdges(edges, e)| < |edges|
  {
    var e1 := edges - {e};
    MoveLeavingCard(e1, e.source, e.target, e.cond);
    MoveEnteringCard(MoveLeaving(e1, e.source, e.target, e.cond), e.source, e.target, e);
  }

  lemma {:induction false} ReroutedCard(out: set<Edge>, source: string, cond: Label)
    ensures |Rerouted(out, source, cond)| <= |out|
    decreases out
  {
    if out != {} {
      var y :| y in out;
      ReroutedCard(out - {y}, source, cond);
      assert Rerouted(out, source, cond) == Rerouted(out - {y}, source, cond) + {Edge(source, y.target, cond + y.cond)};
    }
  }

  lemma {:induction false} RedirectedCard(into: set<Edge>, source: string, cond: Label)
    ensures |Redirected(into, source, cond)| <= |into|
    decreases into
  {
    if into != {} {
      var y :| y in into;
      RedirectedCard(into - {y}, source, cond);
      assert Redirected(into, source, cond) == Redirected(into - {y}, source, cond) + {Edge(y.source, source, cond + y.cond)};
    }
  }

  lemma MoveLeavingCard(edges: set<Edge>, source: string, target: string, cond: Label)
    ensures |MoveLeaving(edges, source, target, cond)| <= |edges|
  {
    var out := Leaving(edges, target);
    ReroutedCard(out, source, cond);
    ReplaceCard(edges, out, Rerouted(out, source, cond));
  }

  lemma MoveEnteringCard(edges: set<Edge>, source: string, target: string, merged: Edge)
    ensures |MoveEntering(edges, source, target, merged)| <= |edges|
  {
    var into := Entering(edges, target);
    RedirectedCard(into - {merged}, source, merged.cond);
    Sets.SubsetCard(into - {merged}, into);
    ReplaceCard(edges, into, Redirected(into - {merged}, source, merged.cond));
  }

  /** Replacing a part of a set by no more elements does not grow it. */
  lemma ReplaceCard<T>(a: set<T>, part: set<T>, replacement: set<T>)
    requires part <= a && |replacement| <= |part|
    ensures |(a - part) + replacement| <= |a|
  {
    assert a == (a - part) + part;
    assert |a| == |a - part| + |part|;
  }

  /** After merging an edge between two different nodes, no edge touches
   *  the target. */
  lemma MergeEmptiesTarget(edges: set<Edge>, e: Edge)
    requires e.source != e.target
    ensures forall y :: y in MergedEdges(edges, e) ==> y.source != e.target && y.target != e.target
  {
    var e3 := MoveLeaving(edges - {e}, e.source, e.target, e.cond);
    assert forall y :: y in e3 ==> y.source != e.target;
  }

  /** Edges not touching the target, other than the merged one, stay. */
  lemma MergeKeepsOthers(edges: set<Edge>, e: Edge, x: Edge)
    requires x in edges && x != e && x.source != e.target && x.target != e.target
    ensures x in MergedEdges(edges, e)
  {
  }

  /** A leaving edge of the target, other than a loop, leaves the source
   *  afterwards, with the old edge's entries winning on the
   *  merged edge's keys. */
  lemma MergeReroutesLeaving(edges: set<Edge>, e: Edge, x: Edge)
    requires x in edges && x != e && x.source == e.target && x.target != e.target
    ensures Edge(e.source, x.target, e.cond + x.cond) in MergedEdges(edges, e)
    ensures forall k :: k in x.cond ==> (e.cond + x.cond)[k] == x.cond[k]
  {
    var e3 := MoveLeaving(edges - {e}, e.source, e.target, e.cond);
    assert Edge(e.source, x.target, e.cond + x.cond) in Rerouted(Leaving(edges - {e}, e.target), e.source, e.cond);
    assert Edge(e.source, x.target, e.cond + x.cond) in e3;
  }

  /** An entering edge of the target from elsewhere enters the source
   *  afterwards, labelled the same way. */
  lemma MergeReroutesEntering(edges: set<Edge>, e: Edge, x: Edge)
    requires x in edges && x != e && x.target == e.target && x.source != e.target
    ensures Edge(x.source, e.source, e.cond + x.cond) in MergedEdges(edges, e)
  {
    var e3 := MoveLeaving(edges - {e}, e.source, e.target, e.cond);
    assert x in Entering(e3, e.target) - {e};
    assert Edge(x.source, e.source, e.cond + x.cond) in Redirected(Entering(e3, e.target) - {e}, e.source, e.cond);
  }

  /** A merge adds edges only at the source. */
  lemma MergeAddsOnlyAtSource(edges: set<Edge>, e: Edge, y: Edge)
    requires y in MergedEdges(edges, e) && y !in edges
    ensures y.source == e.source || y.target == e.source
  {
  }

  /** The first condition of `mergeNodes`: the edge is unrestricted, or
   *  summarized by an edge entering its source, or carries only a function
   *  exit; and it is its source's only leaving edge. */
  predicate Redundant(leaving: map<string, set<Edge>>, entering: map<string, set<Edge>>, e: Edge) {
    (!HasTransitionRestrictions(e.cond)
     || (exists p | p in Get(entering, e.source) :: Summarizes(p.cond, e.cond))
     || (|e.cond| == 1 && FUNCTIONEXIT in e.cond))
    && |Get(leaving, e.source)| == 1
  }

  /** `Redundant` read off an edge set rather than its two indexes: an edge
   *  of the set the merge loop may pick. */
  predicate RedundantIn(edges: set<Edge>, e: Edge) {
    e in edges
    && (!HasTransitionRestrictions(e.cond)
        || (exists p | p in Entering(edges, e.source) :: Summarizes(p.cond, e.cond))
        || (|e.cond| == 1 && FUNCTIONEXIT in e.cond))
    && |Leaving(edges, e.source)| == 1
  }

  /** The edges after merging each of `merged` in turn. */
  function MergedAll(edges: set<Edge>, merged: seq<Edge>): set<Edge> {
    if merged == [] then edges
    else MergedEdges(MergedAll(edges, merged[..|merged| - 1]), merged[|merged| - 1])
  }

  /** A node map after each of `merged` moved its target's entries to its
   *  source, in turn. */
  function AbsorbedAll<V>(m: map<string, set<V>>, merged: seq<Edge>): map<string, set<V>> {
    if merged == [] then m
    else
      var last := merged[|merged| - 1];
      Absorb(AbsorbedAll(m, merged[..|merged| - 1]), last.source, last.target)
  }

  /** Each of `merged` was redundant in the graph left by the merges before it. */
  predicate MergedInOrder(edges: set<Edge>, merged: seq<Edge>) {
    forall i :: 0 <= i < |merged| ==> RedundantIn(MergedAll(edges, merged[..i]), merged[i])
  }

  /** Appending a merge of an edge redundant in the current graph keeps the
   *  merge order valid. */
  lemma MergedInOrderStep(edges: set<Edge>, merged: seq<Edge>, x: Edge)
    requires MergedInOrder(edges, merged) && RedundantIn(MergedAll(edges, merged), x)
    ensures MergedInOrder(edges, merged + [x])
  {
    var merged' := merged + [x];
    forall i | 0 <= i < |merged'| ensures RedundantIn(MergedAll(edges, merged'[..i]), merged'[i]) {
      if i < |merged| {
        assert merged'[..i] == merged[..i];
      } else {
        assert merged'[..i] == merged;
      }
    }
  }

  /** The id of the sink node, a constant of the GraphML helpers. */
  const SINK_NODE_ID: string := "sink"

  /** The `WitnessWriter`'s graph: edges indexed by source and by target,
   *  node flags and violated properties by node id. `edges` is the set both
   *  indexes describe. */
  class WitnessWriter {
    var leaving: map<string, set<Edge>>
    var entering: map<string, set<Edge>>
    var nodeFlags: map<string, set<string>>
    var violated: map<string, set<string>>
    ghost var edges: set<Edge>

    /** Each edge is listed under its source in `leaving` and under its
     *  target in `entering`, and nothing else is listed. */
    ghost predicate Valid()
      reads this`leaving, this`entering, this`edges
    {
      (forall n, x :: x in Get(leaving, n) <==> x in edges && x.source == n)
      && (forall n, x :: x in Get(entering, n) <==> x in edges && x.target == n)
    }

    constructor ()
      ensures Valid() && edges == {} && nodeFlags == map[] && violated == map[]
    {
      leaving, entering, nodeFlags, violated := map[], map[], map[], map[];
      edges := {};
    }

    /** The two multimaps agree: an edge is listed as leaving its source
     *  exactly when it is listed as entering its target. */
    lemma InSync(x: Edge)
      requires Valid()
      ensures x in Get(leaving, x.source) <==> x in Get(entering, x.target)
    {
    }

    /** `putEdge`. */
    method PutEdge(e: Edge)
      requires Valid()
      modifies this
      ensures Valid() && edges == old(edges) + {e}
      ensures nodeFlags == old(nodeFlags) && violated == old(violated)
    {
      leaving := leaving[e.source := Get(leaving, e.source) + {e}];
      entering := entering[e.target := Get(entering, e.target) + {e}];
      edges := edges + {e};
      forall n, x ensures x in Get(leaving, n) <==> x in edges && x.source == n {
        assert Get(leaving, n) == Get(old(leaving), n) + (if n == e.source then {e} else {});
      }
      forall n, x ensures x in Get(entering, n) <==> x in edges && x.target == n {
        assert Get(entering, n) == Get(old(entering), n) + (if n == e.target then {e} else {});
      }
    }

    /** `removeEdge`: true exactly when the edge was there. */
    method RemoveEdge(e: Edge) returns (removed: bool)
      requires Valid()
      modifies this
      ensures Valid() && edges == old(edges) - {e}
      ensures removed <==> e in old(edges)
      ensures nodeFlags == old(nodeFlags) && violated == old(violated)
    {
      if e in Get(leaving, e.source) {
        leaving := leaving[e.source := Get(leaving, e.source) - {e}];
        entering := entering[e.target := Get(entering, e.target) - {e}];
        edges := edges - {e};
        removed := true;
        forall n, x ensures x in Get(leaving, n) <==> x in edges && x.source == n {
          assert Get(leaving, n) == Get(old(leaving), n) - (if n == e.source then {e} else {});
        }
        forall n, x ensures x in Get(entering, n) <==> x in edges && x.target == n {
          assert Get(entering, n) == Get(old(entering), n) - (if n == e.target then {e} else {});
        }
      } else {
        removed := false;
      }
    }

    /** `appendNewEdge`, with the transition condition built by the caller. */
    method AppendNewEdge(from: string, to: string, cond: Label)
      requires Valid()
      modifies this
      ensures Valid() && edges == old(edges) + {Edge(from, to, cond)}
      ensures nodeFlags == old(nodeFlags) && violated == old(violated)
    {
      PutEdge(Edge(from, to, cond));
    }

    /** `appendNewEdgeToSink`. */
    method AppendNewEdgeToSink(from: string, cond: Label)
      requires Valid()
      modifies this
      ensures Valid() && edges == old(edges) + {Edge(from, SINK_NODE_ID, cond)}
      ensures nodeFlags == old(nodeFlags) && violated == old(violated)
    {
      AppendNewEdge(from, SINK_NODE_ID, cond);
    }

    /** Removes each of `xs` in turn. */
    method RemoveAll(xs: set<Edge>)
      requires Valid()
      modifies this
      ensures Valid() && edges == old(edges) - xs
      ensures nodeFlags == old(nodeFlags) && violated == old(violated)
    {
      var todo := xs;
      while todo != {}
        invariant Valid() && todo <= xs && edges == old(edges) - (xs - todo)
        invariant nodeFlags == old(nodeFlags) && violated == old(violated)
        decreases todo
      {
        var x :| x in todo;
        var _ := RemoveEdge(x);
        todo := todo - {x};
      }
    }

    /** Puts each of `xs` in turn. */
    method PutAll(xs: set<Edge>)
      requires Valid()
      modifies this
      ensures Valid() && edges == old(edges) + xs
      ensures nodeFlags == old(nodeFlags) && violated == old(violated)
    {
      var todo := xs;
      while todo != {}
        invariant Valid() && todo <= xs && edges == old(edges) + (xs - todo)
        invariant nodeFlags == old(nodeFlags) && violated == old(violated)
        decreases todo
      {
        var x :| x in todo;
        PutEdge(x);
        todo := todo - {x};
      }
    }

    /** The sink-edge pruning of `writePath`: the edges to remove are
     *  chosen on the graph before any is removed. */
    method PruneSinkEdges()
      requires Valid()
      modifies this
      ensures Valid() && edges == old(edges) - SinkRedundant(old(edges), SINK_NODE_ID)
      ensures nodeFlags == old(nodeFlags) && violated == old(violated)
    {
      var toRemove := set n, x | n in leaving && x in leaving[n] && x.target == SINK_NODE_ID
                                 && (exists y | y in Get(leaving, x.source) :: y != x && y.cond == x.cond) :: x;
      assert toRemove == SinkRedundant(edges, SINK_NODE_ID) by {
        forall x | x in SinkRedundant(edges, SINK_NODE_ID)
          ensures x in toRemove
        {
          var y :| y in edges && y.source == x.source && y != x && y.cond == x.cond;
          assert x in Get(leaving, x.source) && y in Get(leaving, x.source);
        }
        forall x | x in toRemove
          ensures x in SinkRedundant(edges, SINK_NODE_ID)
        {
          var n :| n in leaving && x in leaving[n];
          assert x in Get(leaving, n);
          var y :| y in Get(leaving, x.source) && y != x && y.cond == x.cond;
        }
      }
      RemoveAll(toRemove);
    }

    /** `mergeNodes`: removes the redundant edge, moves the target's flags,
     *  violated properties and edges to the source. */
    method MergeNodes(e: Edge)
      requires Valid() && Redundant(leaving, entering, e) && e in edges
      modifies this
      ensures Valid() && edges == MergedEdges(old(edges), e)
      ensures nodeFlags == Absorb(old(nodeFlags), e.source, e.target)
      ensures violated == Absorb(old(violated), e.source, e.target)
    {
      var source, target := e.source, e.target;
      var removed := RemoveEdge(e);
      assert removed;
      nodeFlags := Absorb(nodeFlags, source, target);
      violated := Absorb(violated, source, target);
      ghost var e1 := edges;
      var out := Get(leaving, target);
      assert out == Leaving(e1, target);
      RemoveAll(out);
      PutAll(Rerouted(out, source, e.cond));
      ghost var e3 := edges;
      assert e3 == MoveLeaving(e1, source, target, e.cond);
      var into := Get(entering, target);
      assert into == Entering(e3, target);
      RemoveAll(into);
      PutAll(Redirected(into - {e}, source, e.cond));
    }

    /** The edges the merge loop of `writePath` may pick next. */
    function RedundantEdges(): (r: set<Edge>)
      reads this
      requires Valid()
      ensures forall x :: x in r <==> x in edges && Redundant(leaving, entering, x)
      ensures forall x :: x in r <==> RedundantIn(edges, x)
    {
      forall n ensures Get(leaving, n) == Leaving(edges, n) && Get(entering, n) == Entering(edges, n) { }
      assert forall x :: x in edges ==> x in Get(leaving, x.source);
      assert forall n, x :: n in leaving && x in leaving[n] ==> x in Get(leaving, n);
      set n, x | n in leaving && x in leaving[n] && Redundant(leaving, entering, x) :: x
    }

    /** The merge loop of `writePath`: merges redundant edges until none is
     *  left. The graph, the node flags and the violated properties are those
     *  of merging `merged` in turn, each redundant when it was picked. Every
     *  merge removes an edge, so the loop ends. */
    method MergeRedundantEdges() returns (ghost merged: seq<Edge>)
      requires Valid()
      modifies this
      ensures Valid() && forall x :: x in edges ==> !Redundant(leaving, entering, x)
      ensures MergedInOrder(old(edges), merged)
      ensures edges == MergedAll(old(edges), merged)
      ensures nodeFlags == AbsorbedAll(old(nodeFlags), merged)
      ensures violated == AbsorbedAll(old(violated), merged)
      ensures |edges| + |merged| <= |old(edges)|
    {
      merged := [];
      var candidates := RedundantEdges();
      while candidates != {}
        invariant Valid() && candidates == RedundantEdges()
        invariant MergedInOrder(old(edges), merged)
        invariant edges == MergedAll(old(edges), merged)
        invariant nodeFlags == AbsorbedAll(old(nodeFlags), merged)
        invariant violated == AbsorbedAll(old(violated), merged)
        invariant |edges| + |merged| <= |old(edges)|
        decreases |edges|
      {
        var x :| x in candidates;
        MergeShrinks(edges, x);
        MergedInOrderStep(old(edges), merged, x);
        MergeNodes(x);
        ghost var before := merged;
        merged := merged + [x];
        assert merged[..|merged| - 1] == before;
        candidates := RedundantEdges();
      }
    }

    /** The node-flag loop of `writePath`, then the sink's `ISSINKNODE`. */
    method CollectNodeFlags(nodeIds: seq<string>, entryId: string, flagsOf: string -> set<string>, propertiesOf: string -> set<string>)
      requires Valid()
      modifies this`nodeFlags, this`violated
      ensures Valid()
      ensures forall n ::
        Get(nodeFlags, n) == Get(old(nodeFlags), n) + (if n in nodeIds then NodeFlagsOf(n, entryId, flagsOf) else {})
                             + (if n == SINK_NODE_ID then {"ISSINKNODE"} else {})
      ensures forall n :: Get(violated, n) == Get(old(violated), n) + (if n in nodeIds then propertiesOf(n) else {})
    {
      var flags, properties := AddNodeFlags(nodeFlags, violated, nodeIds, entryId, flagsOf, propertiesOf);
      AddStep(flags, SINK_NODE_ID, {"ISSINKNODE"});
      nodeFlags, violated := flags[SINK_NODE_ID := Get(flags, SINK_NODE_ID) + {"ISSINKNODE"}], properties;
    }
  }

  /** Adding values under one key of a multimap. */
  lemma AddStep<V>(m: map<string, set<V>>, key: string, xs: set<V>)
    ensures forall n :: Get(m[key := Get(m, key) + xs], n) == Get(m, n) + (if n == key then xs else {})
  {
  }

  /** The node-flag loop of `writePath`: every path node gets `ISENTRY`
   *  when it is the entry node and the flags its state yields, and the
   *  properties its state violates. */
  method AddNodeFlags(nodeFlags: map<string, set<string>>, violated: map<string, set<string>>, nodeIds: seq<string>,
                      entryId: string, flagsOf: string -> set<string>, propertiesOf: string -> set<string>)
    returns (flags: map<string, set<string>>, properties: map<string, set<string>>)
    ensures forall n :: Get(flags, n) == Get(nodeFlags, n) + (if n in nodeIds then NodeFlagsOf(n, entryId, flagsOf) else {})
    ensures forall n :: Get(properties, n) == Get(violated, n) + (if n in nodeIds then propertiesOf(n) else {})
  {
    flags := PutAllUnder(nodeFlags, nodeIds, id => NodeFlagsOf(id, entryId, flagsOf));
    properties := PutAllUnder(violated, nodeIds, propertiesOf);
  }

  /** `putAll(id, valuesOf(id))` for each id in turn. */
  method PutAllUnder<V>(m: map<string, set<V>>, ids: seq<string>, valuesOf: string -> set<V>) returns (r: map<string, set<V>>)
    ensures forall n :: Get(r, n) == Get(m, n) + (if n in ids then valuesOf(n) else {})
  {
    r := m;
    var i := 0;
    while i < |ids|
      invariant 0 <= i <= |ids|
      invariant forall n :: Get(r, n) == Get(m, n) + (if n in ids[..i] then valuesOf(n) else {})
    {
      var id := ids[i];
      assert ids[..i + 1] == ids[..i] + [id];
      AddStep(r, id, valuesOf(id));
      r := r[id := Get(r, id) + valuesOf(id)];
      i := i + 1;
    }
    assert ids[..i] == ids;
  }

  /** The flags a path node gets: `ISENTRY` for the entry node, plus those
   *  its state yields. */
  function NodeFlagsOf(id: string, entryId: string, flagsOf: string -> set<string>): (r: set<string>)
    ensures "ISENTRY" in r <==> id == entryId || "ISENTRY" in flagsOf(id)
    ensures flagsOf(id) <= r
  {
    (if id == entryId then {"ISENTRY"} else {}) + flagsOf(id)
  }
}
