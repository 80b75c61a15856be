// The abstracted states of policy iteration
// (cpa/policyiteration/PolicyAbstractedState.java): immutable template
// bounds, plus a transient "latest version" pointer per state that is
// chased, with cycle detection and path compression, like a union-find
// parent pointer.
module PolicyIteration {
  import opened Wrappers

  type Template = string
  type StateId = nat

  /** A bound on a template, with the formula it came from left opaque. */
  datatype PolicyBound = PolicyBound(bound: int, formulaId: nat)

  /** The immutable part of a `PolicyAbstractedState`; the solver-side
   *  objects (congruence, SSA map, pointer-target set, extra invariant,
   *  predecessor) are identified by number. The node stands for a CFA node. */
  datatype PolicyAbstractedState = PolicyAbstractedState(
    node: nat,
    abstraction: map<Template, PolicyBound>,
    congruence: nat,
    locationID: int,
    ssaMap: nat,
    pointerTargetSet: nat,
    extraInvariant: nat,
    predecessor: Option<nat>)

  /** The state failures `getLatestVersion` raises. */
  datatype Error = IllegalState(message: string)

  /** `of`: a state built from its parts always has a predecessor. */
  function Of(data: map<Template, PolicyBound>, node: nat, congruence: nat, locationID: int, ssaMap: nat,
              pointerTargetSet: nat, invariantId: nat, predecessor: nat): (r: PolicyAbstractedState)
    ensures r.abstraction == data && r.node == node && r.locationID == locationID
    ensures r.predecessor == Some(predecessor)
  {
    PolicyAbstractedState(node, data, congruence, locationID, ssaMap, pointerTargetSet, invariantId, Some(predecessor))
  }

  /** `replaceAbstraction`: only the bounds change. */
  function ReplaceAbstraction(s: PolicyAbstractedState, newAbstraction: map<Template, PolicyBound>)
    : (r: PolicyAbstractedState)
    ensures r.abstraction == newAbstraction
    ensures r.node == s.node && r.congruence == s.congruence && r.locationID == s.locationID
    ensures r.ssaMap == s.ssaMap && r.pointerTargetSet == s.pointerTargetSet
    ensures r.extraInvariant == s.extraInvariant && r.predecessor == s.predecessor
  {
    s.(abstraction := newAbstraction)
  }

  /** `getBound`: absent exactly for an unbounded template. */
  function GetBound(s: PolicyAbstractedState, t: Template): (r: Option<PolicyBound>)
    ensures r.None? <==> t !in s.abstraction
    ensures r.Some? ==> r.value == s.abstraction[t]
  {
    if t in s.abstraction then Some(s.abstraction[t]) else None
  }

  /** `empty`: no bounds, location id -1, empty SSA map and pointer-target
   *  set (number 0), no predecessor. */
  function Empty(node: nat, invariantId: nat): (r: PolicyAbstractedState)
    ensures r.abstraction == map[] && r.locationID == -1 && r.predecessor.None?
    ensures r.node == node && r.extraInvariant == invariantId
  {
    PolicyAbstractedState(node, map[], 0, -1, 0, 0, invariantId, None)
  }

  /** `size`: the number of bounded templates. */
  function Size(s: PolicyAbstractedState): (r: nat)
    ensures r == |s.abstraction.Keys|
  {
    |s.abstraction|
  }

  /** Bounds after `replaceAbstraction` are those of the new map. */
  lemma ReplacedBounds(s: PolicyAbstractedState, a: map<Template, PolicyBound>, t: Template)
    ensures GetBound(ReplaceAbstraction(s, a), t) == if t in a then Some(a[t]) else None
    ensures Size(ReplaceAbstraction(s, a)) == |a|
  {
  }

  // --------------------------------------------------- latest versions

  /** Every pointer leads to a known state. */
  predicate Closed(m: map<StateId, StateId>) {
    m.Values <= m.Keys
  }

  /** The loop of `getLatestVersion` from `cur`, having visited `visited`:
   *  the first state pointing to itself, or a failure on a revisit. */
  function Chase(m: map<StateId, StateId>, cur: StateId, visited: set<StateId>): (r: Result<StateId, Error>)
    requires Closed(m) && cur in m && visited <= m.Keys
    ensures r.Ok? ==> r.value in m && m[r.value] == r.value
    decreases |m.Keys - visited|
  {
    if m[cur] == cur then Ok(cur)
    else if cur in visited then Err(IllegalState("getLatestVersion should not be cyclic"))
    else
      ChaseDecreases(m.Keys, visited, cur);
      Chase(m, m[cur], visited + {cur})
  }

  lemma ChaseDecreases(keys: set<StateId>, visited: set<StateId>, cur: StateId)
    requires cur in keys && cur !in visited
    ensures |keys - (visited + {cur})| < |keys - visited|
  {
    var a := keys - (visited + {cur});
    var b := keys - visited;
    assert b == a + {cur};
  }

  /** The states the loop of `getLatestVersion` adds to `toUpdate`. */
  function Trail(m: map<StateId, StateId>, cur: StateId, visited: set<StateId>): set<StateId>
    requires Closed(m) && cur in m && visited <= m.Keys
    decreases |m.Keys - visited|
  {
    if m[cur] == cur || cur in visited then visited
    else
      ChaseDecreases(m.Keys, visited, cur);
      Trail(m, m[cur], visited + {cur})
  }

  /** The visited states lead, one pointer at a time, to the current one. */
  predicate TrailShape(m: map<StateId, StateId>, visited: set<StateId>, cur: StateId)
    requires Closed(m) && visited <= m.Keys
  {
    forall y {:trigger m[y]} :: y in visited ==> m[y] != y && (m[y] in visited || m[y] == cur)
  }

  /** What the chase finds: on success a state that is its own latest
   *  version, reached through the trail alone; on failure a trail that is
   *  closed under the pointers and holds no state that is its own latest
   *  version, i.e. a cycle. */
  lemma {:induction false} ChaseSpec(m: map<StateId, StateId>, cur: StateId, visited: set<StateId>)
    requires Closed(m) && cur in m && visited <= m.Keys && TrailShape(m, visited, cur)
    ensures visited <= Trail(m, cur, visited) <= m.Keys
    ensures Chase(m, cur, visited).Ok? ==>
              var r := Chase(m, cur, visited).value;
              var t := Trail(m, cur, visited);
              m[r] == r && r !in t && (cur in t || cur == r)
              && forall y {:trigger m[y]} :: y in t ==> m[y] != y && (m[y] in t || m[y] == r)
    ensures Chase(m, cur, visited).Err? ==>
              var t := Trail(m, cur, visited);
              cur in t && forall y {:trigger m[y]} :: y in t ==> m[y] != y && m[y] in t
    decreases |m.Keys - visited|
  {
    if m[cur] != cur && cur !in visited {
      ChaseDecreases(m.Keys, visited, cur);
      ChaseSpec(m, m[cur], visited + {cur});
    }
  }

  /** No state of `cycle` is its own latest version, and the pointers stay
   *  inside it. */
  predicate IsCycle(m: map<StateId, StateId>, cycle: set<StateId>) {
    forall y {:trigger m[y]} :: y in cycle ==> y in m && m[y] != y && m[y] in cycle
  }

  /** A state inside a cycle of states none of which is its own latest
   *  version makes the chase fail: the failure happens exactly on cycles. */
  lemma {:induction false} CycleFails(m: map<StateId, StateId>, cur: StateId, visited: set<StateId>,
                                      cycle: set<StateId>)
    requires Closed(m) && cur in m && visited <= m.Keys
    requires cur in cycle && IsCycle(m, cycle)
    ensures Chase(m, cur, visited).Err?
    decreases |m.Keys - visited|
  {
    if cur !in visited {
      ChaseDecreases(m.Keys, visited, cur);
      assert m[cur] in cycle;
      CycleFails(m, m[cur], visited + {cur}, cycle);
    }
  }

  /** After compressing the trail onto the result, the chase from the same
   *  state finds the same result at once. */
  lemma CompressedChase(m: map<StateId, StateId>, id: StateId, r: StateId, t: set<StateId>,
                        m': map<StateId, StateId>)
    requires Closed(m) && id in m && r in m && m[r] == r && r !in t && (id in t || id == r)
    requires m'.Keys == m.Keys && forall k :: k in m' ==> m'[k] == if k in t then r else m[k]
    ensures Closed(m') && Chase(m', id, {}) == Ok(r)
  {
    if id != r {
      assert m'[id] == r && m'[r] == r;
      assert Chase(m', id, {}) == Chase(m', r, {id});
    }
  }

  /** The transient `latestVersion` pointers of all states of one analysis,
   *  with the states themselves. */
  class VersionStore {
    var states: map<StateId, PolicyAbstractedState>
    var latest: map<StateId, StateId>
    /** `shouldUseLatestVersion` of the state-formula conversion manager. */
    const useLatestVersion: bool

    ghost predicate Valid()
      reads this
    {
      latest.Keys == states.Keys && Closed(latest)
    }

    constructor(useLatestVersion: bool)
      ensures Valid() && states == map[] && latest == map[]
      ensures this.useLatestVersion == useLatestVersion
    {
      states := map[];
      latest := map[];
      this.useLatestVersion := useLatestVersion;
    }

    /** A new state, under a new identity `id`, is its own latest version. */
    method Add(id: StateId, s: PolicyAbstractedState)
      requires Valid() && id !in states
      modifies this
      ensures Valid()
      ensures states == old(states)[id := s] && latest == old(latest)[id := id]
    {
      states := states[id := s];
      latest := latest[id := id];
    }

    /** `getLatestVersion`. With the option off it is `this` and nothing
     *  changes; otherwise it follows the pointers to a state pointing to
     *  itself, fails on a revisit, and then points every state it passed
     *  directly at the result. */
    method GetLatestVersion(id: StateId) returns (r: Result<StateId, Error>)
      requires Valid() && id in latest
      modifies this
      ensures Valid() && states == old(states)
      ensures !useLatestVersion ==> r == Ok(id) && latest == old(latest)
      ensures useLatestVersion ==> r == Chase(old(latest), id, {})
      ensures r.Err? ==> latest == old(latest)
      ensures useLatestVersion && r.Ok? ==>
                latest.Keys == old(latest).Keys
                && forall k :: k in latest ==>
                     latest[k] == if k in Trail(old(latest), id, {}) then r.value else old(latest)[k]
      ensures useLatestVersion && r.Ok? ==> r.value in latest && latest[r.value] == r.value
    {
      if !useLatestVersion {
        return Ok(id);
      }
      ghost var m := latest;
      ChaseSpec(m, id, {});
      var cur := id;
      var toUpdate: set<StateId> := {};
      while latest[cur] != cur
        invariant cur in m && toUpdate <= m.Keys && latest == m && states == old(states)
        invariant Chase(m, id, {}) == Chase(m, cur, toUpdate)
        invariant Trail(m, id, {}) == Trail(m, cur, toUpdate)
        decreases |m.Keys - toUpdate|
      {
        var changed := cur !in toUpdate;
        toUpdate := toUpdate + {cur};
        if !changed {
          return Err(IllegalState("getLatestVersion should not be cyclic"));
        }
        cur := latest[cur];
      }
      PointAll(toUpdate, cur);
      r := Ok(cur);
    }

    /** The update loop of `getLatestVersion`: every state of `toUpdate`
     *  now points at `target`. */
    method PointAll(toUpdate: set<StateId>, target: StateId)
      requires Valid() && toUpdate <= latest.Keys && target in latest
      modifies this
      ensures Valid() && states == old(states) && latest.Keys == old(latest).Keys
      ensures forall k :: k in latest ==> latest[k] == if k in toUpdate then target else old(latest)[k]
    {
      var t := toUpdate;
      while t != {}
        invariant t <= toUpdate && latest.Keys == old(latest).Keys && Closed(latest) && states == old(states)
        invariant forall k :: k in latest ==>
                    latest[k] == if k in toUpdate && k !in t then target else old(latest)[k]
        decreases |t|
      {
        var u :| u in t;
        latest := latest[u := target];
        t := t - {u};
      }
    }

    /** `setLatestVersion(p)`: stores the latest version of `p`, not `p`. */
    method SetLatestVersion(id: StateId, p: StateId) returns (r: Result<StateId, Error>)
      requires Valid() && id in latest && p in latest
      modifies this
      ensures Valid() && states == old(states)
      ensures !useLatestVersion ==> r == Ok(p) && latest == old(latest)[id := p]
      ensures useLatestVersion ==> r == Chase(old(latest), p, {})
      ensures r.Err? ==> latest == old(latest)
      ensures r.Ok? ==> latest[id] == r.value
      ensures r.Ok? ==> latest.Keys == old(latest).Keys
      ensures useLatestVersion && r.Ok? ==>
                forall k :: k in latest && k != id ==>
                  latest[k] == if k in Trail(old(latest), p, {}) then r.value else old(latest)[k]
    {
      r := GetLatestVersion(p);
      if r.Ok? {
        latest := latest[id := r.value];
      }
    }
  }
}
