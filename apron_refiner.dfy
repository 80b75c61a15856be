// The refiner of the Apron analysis that delegates to value-analysis
// interpolation first and to the octagon feasibility check second
// (cpa/apron/refiner/ApronDelegatingRefiner.java): two detectors of
// repeated refinements, the success counters and the sticky flag that
// turns value-analysis refinement off.
module ApronRefinement {
  import opened Wrappers
  import Sets

  /** A tracked variable at a CFA node: one entry of a precision increment. */
  type Tracked = (nat, string)

  /** A variable-tracking precision, as the set of its entries:
   *  `withIncrement` is union and `getSize` is the number of entries. */
  type Precision = set<Tracked>

  /** A refinement root: the ARG state to cut at and the node number of the
   *  successor of its edge. */
  datatype RefinementRoot = RefinementRoot(state: nat, successorNodeNumber: int)

  /** What the collaborators answer about one error path: the value-analysis
   *  feasibility check, the interpolator (increment and the two roots it
   *  would choose), `errorPath.toString().hashCode()`, the current precision,
   *  the octagon feasibility check and its increment, and the first child of
   *  the reached set's first state. */
  datatype PathFacts = PathFacts(
    valueFeasible: bool,
    increment: set<Tracked>,
    root: RefinementRoot,
    rootForRepeated: RefinementRoot,
    pathHash: int,
    precision: Precision,
    apronFeasible: bool,
    apronIncrement: set<Tracked>,
    firstChild: Option<nat>)

  datatype CounterexampleInfo = Spurious | Feasible

  datatype Error = NoSuchElement

  /** One call of `removeSubtree` on the ARG reached set. */
  datatype Removal = Removal(root: nat, precision: Precision)

  /** A precision grows under an increment exactly when the increment tracks
   *  something new. */
  lemma PrecisionGrows(p: Precision, increment: set<Tracked>)
    ensures |p + increment| > |p| <==> !(increment <= p)
  {
    Sets.SubsetCard(p, p + increment);
    if increment <= p {
      assert p + increment == p;
    } else {
      Sets.ProperSubsetCard(p, p + increment);
    }
  }

  /** Whether `performValueAnalysisRefinement` runs on a path and succeeds,
   *  given the sticky flag and the stored error-path hash before the call:
   *  it runs only on a path the value analysis finds infeasible while no
   *  octagon refinement has happened, and succeeds on a non-empty increment
   *  with a new error path or a larger precision. */
  predicate ValueRefinementSucceeds(facts: PathFacts, apronRefined: bool, previousErrorPathID: int) {
    !apronRefined && !facts.valueFeasible && facts.increment != {}
    && (facts.pathHash != previousErrorPathID || !(facts.increment <= facts.precision))
  }

  /** The root the value-analysis refinement prunes at: the interpolator's
   *  alternative when the repeated-refinement check finds the same successor
   *  number as last time, the usual root otherwise. */
  function ValueRefinementRoot(facts: PathFacts, checkForRepeatedRefinements: bool, previousRefinementId: int)
    : (root: RefinementRoot)
    ensures root == facts.root || root == facts.rootForRepeated
    ensures !checkForRepeatedRefinements ==> root == facts.root
  {
    if checkForRepeatedRefinements && previousRefinementId == facts.root.successorNodeNumber
    then facts.rootForRepeated else facts.root
  }

  class ApronDelegatingRefiner {
    const checkForRepeatedRefinements: bool
    var previousErrorPathID: int
    var numberOfValueAnalysisRefinements: nat
    var numberOfSuccessfulValueAnalysisRefinements: nat
    var previousRefinementId: int
    var existsExplicitApronRefinement: bool
    /** The subtree removals performed on the reached set, in order. */
    var removals: seq<Removal>

    /** Every successful value-analysis refinement is a refinement. */
    ghost predicate Valid()
      reads this
    {
      numberOfSuccessfulValueAnalysisRefinements <= numberOfValueAnalysisRefinements
    }

    constructor(checkForRepeatedRefinements: bool)
      ensures Valid()
      ensures this.checkForRepeatedRefinements == checkForRepeatedRefinements
      ensures previousErrorPathID == -1 && previousRefinementId == 0
      ensures numberOfValueAnalysisRefinements == 0 && numberOfSuccessfulValueAnalysisRefinements == 0
      ensures !existsExplicitApronRefinement && removals == []
    {
      this.checkForRepeatedRefinements := checkForRepeatedRefinements;
      previousErrorPathID := -1;
      numberOfValueAnalysisRefinements := 0;
      numberOfSuccessfulValueAnalysisRefinements := 0;
      previousRefinementId := 0;
      existsExplicitApronRefinement := false;
      removals := [];
    }

    /** `isRepeatedRefinement`: the root's successor number equals the stored
     *  one; the current number is stored either way. */
    method IsRepeatedRefinement(root: RefinementRoot) returns (result: bool)
      modifies this`previousRefinementId
      ensures result <==> old(previousRefinementId) == root.successorNodeNumber
      ensures previousRefinementId == root.successorNodeNumber
    {
      var currentRefinementId := root.successorNodeNumber;
      result := previousRefinementId == currentRefinementId;
      previousRefinementId := currentRefinementId;
    }

    /** `valueAnalysisRefinementWasSuccessful`: a new error path or a larger
     *  precision; the path's hash is stored either way. */
    method ValueAnalysisRefinementWasSuccessful(pathHash: int, precision: Precision, refined: Precision)
      returns (success: bool)
      modifies this`previousErrorPathID
      ensures success <==> pathHash != old(previousErrorPathID) || |refined| > |precision|
      ensures previousErrorPathID == pathHash
    {
      success := pathHash != previousErrorPathID || |refined| > |precision|;
      previousErrorPathID := pathHash;
    }

    /** `performValueAnalysisRefinement`. An empty increment fails before
     *  any detector runs; a repeated root is replaced by the interpolator's
     *  alternative; on success the subtree below the root is removed with
     *  the refined precision and the success is counted. */
    method PerformValueAnalysisRefinement(facts: PathFacts) returns (success: bool)
      requires Valid()
      modifies this
      ensures Valid()
      ensures numberOfValueAnalysisRefinements == old(numberOfValueAnalysisRefinements) + 1
      ensures existsExplicitApronRefinement == old(existsExplicitApronRefinement)
      ensures facts.increment == {} ==>
                !success && removals == old(removals)
                && previousErrorPathID == old(previousErrorPathID)
                && previousRefinementId == old(previousRefinementId)
      ensures facts.increment != {} ==>
                previousErrorPathID == facts.pathHash
                && (success <==> facts.pathHash != old(previousErrorPathID) || !(facts.increment <= facts.precision))
                && previousRefinementId == (if checkForRepeatedRefinements then facts.root.successorNodeNumber
                                            else old(previousRefinementId))
      ensures success ==>
                var root := ValueRefinementRoot(facts, checkForRepeatedRefinements, old(previousRefinementId));
                removals == old(removals) + [Removal(root.state, facts.precision + facts.increment)]
                && numberOfSuccessfulValueAnalysisRefinements == old(numberOfSuccessfulValueAnalysisRefinements) + 1
      ensures !success ==>
                removals == old(removals)
                && numberOfSuccessfulValueAnalysisRefinements == old(numberOfSuccessfulValueAnalysisRefinements)
    {
      numberOfValueAnalysisRefinements := numberOfValueAnalysisRefinements + 1;
      var refinementRoot := facts.root;
      if facts.increment == {} {
        return false;
      }
      if checkForRepeatedRefinements {
        var repeated := IsRepeatedRefinement(refinementRoot);
        if repeated {
          refinementRoot := facts.rootForRepeated;
        }
      }
      var refined := facts.precision + facts.increment;
      PrecisionGrows(facts.precision, facts.increment);
      success := ValueAnalysisRefinementWasSuccessful(facts.pathHash, facts.precision, refined);
      if success {
        numberOfSuccessfulValueAnalysisRefinements := numberOfSuccessfulValueAnalysisRefinements + 1;
        removals := removals + [Removal(refinementRoot.state, refined)];
      }
    }

    /** `performApronAnalysisRefinement`: always succeeds, pruning at the
     *  first child of the first state; a first state without children is
     *  the `NoSuchElementException` of the child iterator. */
    method PerformApronAnalysisRefinement(facts: PathFacts) returns (r: Result<bool, Error>)
      modifies this`removals
      ensures facts.firstChild.None? ==> r == Err(NoSuchElement) && removals == old(removals)
      ensures facts.firstChild.Some? ==>
                r == Ok(true)
                && removals == old(removals) + [Removal(facts.firstChild.value, facts.precision + facts.apronIncrement)]
    {
      if facts.firstChild.None? {
        return Err(NoSuchElement);
      }
      removals := removals + [Removal(facts.firstChild.value, facts.precision + facts.apronIncrement)];
      r := Ok(true);
    }

    /** `performRefinement`: spurious when either refinement succeeds,
     *  feasible otherwise. Value-analysis refinement runs only on a path it
     *  finds infeasible and only while no octagon refinement has happened;
     *  after the first octagon refinement the flag stays set. */
    method PerformRefinement(facts: PathFacts) returns (r: Result<CounterexampleInfo, Error>)
      requires Valid()
      modifies this
      ensures Valid()
      ensures old(existsExplicitApronRefinement) ==> existsExplicitApronRefinement
      ensures old(existsExplicitApronRefinement) || facts.valueFeasible ==>
                numberOfValueAnalysisRefinements == old(numberOfValueAnalysisRefinements)
      ensures !old(existsExplicitApronRefinement) && !facts.valueFeasible ==>
                numberOfValueAnalysisRefinements == old(numberOfValueAnalysisRefinements) + 1
      ensures r == Ok(Feasible) ==> removals == old(removals)
      ensures r.Ok? && removals == old(removals) ==> r == Ok(Feasible)
      ensures existsExplicitApronRefinement && !old(existsExplicitApronRefinement) ==> r == Ok(Spurious)
      ensures facts.valueFeasible && facts.apronFeasible ==> r == Ok(Feasible)
      ensures |removals| <= |old(removals)| + 1
      ensures ValueRefinementSucceeds(facts, old(existsExplicitApronRefinement), old(previousErrorPathID)) ==>
                var root := ValueRefinementRoot(facts, checkForRepeatedRefinements, old(previousRefinementId));
                r == Ok(Spurious) && existsExplicitApronRefinement == old(existsExplicitApronRefinement)
                && removals == old(removals) + [Removal(root.state, facts.precision + facts.increment)]
      ensures var tried := !old(existsExplicitApronRefinement) && !facts.valueFeasible && facts.increment != {};
              previousErrorPathID == (if tried then facts.pathHash else old(previousErrorPathID))
              && previousRefinementId == (if tried && checkForRepeatedRefinements then facts.root.successorNodeNumber
                                          else old(previousRefinementId))
      ensures numberOfSuccessfulValueAnalysisRefinements
              == old(numberOfSuccessfulValueAnalysisRefinements)
                 + (if ValueRefinementSucceeds(facts, old(existsExplicitApronRefinement), old(previousErrorPathID))
                    then 1 else 0)
      ensures !ValueRefinementSucceeds(facts, old(existsExplicitApronRefinement), old(previousErrorPathID)) ==>
                if facts.apronFeasible then
                  r == Ok(Feasible) && removals == old(removals)
                  && existsExplicitApronRefinement == old(existsExplicitApronRefinement)
                else if facts.firstChild.None? then
                  r == Err(NoSuchElement) && removals == old(removals)
                  && existsExplicitApronRefinement == old(existsExplicitApronRefinement)
                else
                  r == Ok(Spurious) && existsExplicitApronRefinement
                  && removals == old(removals) + [Removal(facts.firstChild.value, facts.precision + facts.apronIncrement)]
    {
      if !facts.valueFeasible && !existsExplicitApronRefinement {
        var refined := PerformValueAnalysisRefinement(facts);
        if refined {
          return Ok(Spurious);
        }
      }
      if !facts.apronFeasible {
        var refined := PerformApronAnalysisRefinement(facts);
        if refined.Err? {
          return Err(refined.error);
        }
        if refined.value {
          existsExplicitApronRefinement := true;
          return Ok(Spurious);
        }
      }
      r := Ok(Feasible);
    }
  }
}
