// Location-bound candidate invariants for bounded model checking
// (core/algorithm/bmc/LocationFormulaInvariant.java).
module LocationInvariants {
  type CfaNode = nat

  /** Boolean formulas as far as this file inspects them: the constants
   *  made by `makeBoolean`, and any other formula. */
  datatype BooleanFormula = Constant(value: bool) | Other(id: nat)

  /** `BooleanFormulaManager.isFalse`: the formula is the constant false. */
  predicate IsFalse(f: BooleanFormula) {
    f == Constant(false)
  }

  /** Only the constant false is false; no other formula is recognised. */
  lemma IsFalseMeaning(f: BooleanFormula)
    ensures IsFalse(f) <==> f.Constant? && !f.value
    ensures f.Other? ==> !IsFalse(f)
  {
  }

  /** An abstract state of the reached set, with the CFA node it is at
   *  and whether it is an ARG state. */
  datatype AbstractState = AbstractState(id: nat, location: CfaNode, isArgState: bool)

  /** The states of `states` located at `loc` (`AbstractStates.filterLocation`). */
  function StatesAt(states: set<AbstractState>, loc: CfaNode): (r: set<AbstractState>)
    ensures r <= states
    ensures forall s :: s in states ==> (s in r <==> s.location == loc)
  {
    set s | s in states && s.location == loc
  }

  /** The reached set together with the states still attached to the ARG. */
  class ReachedSet {
    var states: set<AbstractState>
    var argStates: set<AbstractState>

    constructor (initial: set<AbstractState>)
      ensures states == initial
      ensures argStates == set s | s in initial && s.isArgState
    {
      states := initial;
      argStates := set s | s in initial && s.isArgState;
    }
  }

  /** Which anonymous subclass built the invariant. */
  datatype Kind =
    | BooleanInvariant(value: bool)
    | FormulaInvariant(location: CfaNode, formula: BooleanFormula)

  class LocationFormulaInvariant {
    const locations: set<CfaNode>
    const kind: Kind
    /** `isDefinitelyBooleanFalse` of `makeLocationInvariant`. */
    var isDefinitelyBooleanFalse: bool

    /** `LocationFormulaInvariant(CFANode)`: a singleton location set. */
    constructor Single(location: CfaNode, k: Kind)
      ensures locations == {location} && kind == k
      ensures !isDefinitelyBooleanFalse
    {
      locations := {location};
      kind := k;
      isDefinitelyBooleanFalse := false;
    }

    /** `LocationFormulaInvariant(Set<CFANode>)`: an immutable copy of the given set. */
    constructor OfSet(locs: set<CfaNode>, k: Kind)
      ensures locations == locs && kind == k
      ensures !isDefinitelyBooleanFalse
    {
      locations := locs;
      kind := k;
      isDefinitelyBooleanFalse := false;
    }

    /** `getFormula`. The boolean invariant is the constant at every call; the
     *  location invariant returns its formula unchanged and raises the flag,
     *  for good, once the formula is literally false. */
    method GetFormula() returns (f: BooleanFormula)
      modifies this`isDefinitelyBooleanFalse
      ensures kind.BooleanInvariant? ==>
                f == Constant(kind.value) && isDefinitelyBooleanFalse == old(isDefinitelyBooleanFalse)
      ensures kind.FormulaInvariant? ==>
                f == kind.formula
                && isDefinitelyBooleanFalse == (old(isDefinitelyBooleanFalse) || IsFalse(kind.formula))
    {
      match kind
      case BooleanInvariant(v) =>
        f := Constant(v);
      case FormulaInvariant(_, inv) =>
        if !isDefinitelyBooleanFalse && IsFalse(inv) {
          isDefinitelyBooleanFalse := true;
        }
        f := inv;
    }

    /** `assumeTruth`. The default does nothing; the location invariant, once
     *  known to be false, removes the states at its location from the reached
     *  set and detaches those that are ARG states from the ARG. */
    method AssumeTruth(reached: ReachedSet)
      modifies reached
      ensures (kind.BooleanInvariant? || !isDefinitelyBooleanFalse) ==>
                reached.states == old(reached.states) && reached.argStates == old(reached.argStates)
      ensures kind.FormulaInvariant? && isDefinitelyBooleanFalse ==>
                reached.states == old(reached.states) - StatesAt(old(reached.states), kind.location)
                && reached.argStates == old(reached.argStates)
                     - set s | s in StatesAt(old(reached.states), kind.location) && s.isArgState
    {
      if kind.FormulaInvariant? && isDefinitelyBooleanFalse {
        var targetStates := StatesAt(reached.states, kind.location);
        reached.states := reached.states - targetStates;
        var todo := targetStates;
        ghost var done: set<AbstractState> := {};
        while todo != {}
          invariant todo + done == targetStates && todo !! done
          invariant reached.states == old(reached.states) - targetStates
          invariant reached.argStates == old(reached.argStates) - set s | s in done && s.isArgState
          decreases |todo|
        {
          var s :| s in todo;
          if s.isArgState {
            reached.argStates := reached.argStates - {s};
          }
          todo := todo - {s};
          done := done + {s};
        }
      }
    }
  }

  /** `makeBooleanInvariant`. */
  method MakeBooleanInvariant(location: CfaNode, value: bool) returns (inv: LocationFormulaInvariant)
    ensures fresh(inv) && inv.locations == {location} && inv.kind == BooleanInvariant(value)
  {
    inv := new LocationFormulaInvariant.Single(location, BooleanInvariant(value));
  }

  /** `makeLocationInvariant`: the flag starts lowered. */
  method MakeLocationInvariant(location: CfaNode, formula: BooleanFormula) returns (inv: LocationFormulaInvariant)
    ensures fresh(inv) && inv.locations == {location}
    ensures inv.kind == FormulaInvariant(location, formula) && !inv.isDefinitelyBooleanFalse
  {
    inv := new LocationFormulaInvariant.Single(location, FormulaInvariant(location, formula));
  }

  /** Pruning keeps every state at another location and removes every state at this one. */
  lemma PruningIsExact(states: set<AbstractState>, loc: CfaNode, s: AbstractState)
    requires s in states
    ensures s in states - StatesAt(states, loc) <==> s.location != loc
  {
  }
}
