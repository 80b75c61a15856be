// Infeasible-prefix extraction for the predicate analysis
// (cpa/predicate/PredicateBasedPrefixProvider.java). The block formulas of
// the abstraction states on an error path are pushed on an interpolating
// prover one by one; a block that makes the stack unsatisfiable closes a
// prefix, and is then replaced by "true" on the stack and in the path
// formula, up to a cap on the number of prefixes.
module PredicatePrefixes {
  import opened Wrappers

  /** Boolean formulas, opaque but for the constant "true". */
  datatype Formula = TrueFormula | Atom(id: nat)

  /** A path formula: a formula with the SSA index its variables reached. */
  datatype PathFormula = PathFormula(formula: Formula, ssa: nat)

  /** The solver and path-formula manager: conjoining a block formula onto
   *  an empty path formula that keeps the SSA index, unsatisfiability of the
   *  prover stack, and the interpolant for the first `i` terms of it. */
  datatype Solver = Solver(
    makeAnd: (nat, Formula) -> PathFormula,
    isUnsat: seq<Formula> -> bool,
    interpolant: (seq<Formula>, nat) -> Formula)

  /** An error path: its ARG states, which of them are abstraction states,
   *  and which of its edges are assume edges. */
  datatype ArgPath = ArgPath(states: seq<nat>, abstraction: seq<bool>, assumeEdges: seq<bool>)

  predicate WellFormed(p: ArgPath) {
    |p.states| == |p.abstraction| == |p.assumeEdges| + 1
  }

  /** A prefix: `ARGUtils.getOnePathTo` of the state where it was found, the
   *  interpolant sequence and the path formula up to the failing block. */
  datatype InfeasiblePrefix = InfeasiblePrefix(path: seq<nat>, interpolants: seq<Formula>, pathFormula: seq<Formula>)

  /** `isSingleBlockEncoded`: every state of the path is an abstraction state. */
  predicate IsSingleBlockEncoded(p: ArgPath) {
    forall i :: 0 <= i < |p.abstraction| ==> p.abstraction[i]
  }

  /** `checkUnsat`: always off single-block encoding, else only before an
   *  assume edge. */
  predicate CheckUnsat(p: ArgPath, i: nat)
    requires WellFormed(p) && i < |p.assumeEdges|
  {
    !IsSingleBlockEncoded(p) || p.assumeEdges[i]
  }

  /** The number of abstraction states strictly before position `i`. */
  function AbstractionCount(p: ArgPath, i: nat): (n: nat)
    requires i <= |p.abstraction|
    ensures n <= i
  {
    if i == 0 then 0 else AbstractionCount(p, i - 1) + if p.abstraction[i - 1] then 1 else 0
  }

  /** The path formula list after the blocks in `failed` were replaced by
   *  "true": one entry per block, in order. */
  function FormulaList(blockFormulas: seq<Formula>, failed: set<nat>, n: nat): (r: seq<Formula>)
    requires n <= |blockFormulas|
    ensures |r| == n
    ensures forall j :: 0 <= j < n ==> r[j] == if j in failed then TrueFormula else blockFormulas[j]
  {
    if n == 0 then []
    else FormulaList(blockFormulas, failed, n - 1) + [if n - 1 in failed then TrueFormula else blockFormulas[n - 1]]
  }

  /** Marking a block failed leaves the entries of the earlier blocks alone
   *  and turns its own entry into "true". */
  lemma FormulaListFrame(blockFormulas: seq<Formula>, failed: set<nat>, n: nat)
    requires n < |blockFormulas|
    ensures forall m :: 0 <= m <= n ==> FormulaList(blockFormulas, failed + {n}, m) == FormulaList(blockFormulas, failed, m)
    ensures FormulaList(blockFormulas, failed + {n}, n + 1) == FormulaList(blockFormulas, failed, n) + [TrueFormula]
  {
  }

  /** The prover stack after some blocks: the pushed terms and the path
   *  formula of the last push. */
  datatype ProverStack = ProverStack(terms: seq<Formula>, last: PathFormula)

  /** The prover stack after the first `n` blocks, those in `failed` having
   *  been popped and replaced by "true" on top of their own push. */
  function StackOf(solver: Solver, blockFormulas: seq<Formula>, failed: set<nat>, n: nat): (s: ProverStack)
    requires n <= |blockFormulas|
    ensures |s.terms| == n
  {
    if n == 0 then ProverStack([], PathFormula(TrueFormula, 0))
    else
      var before := StackOf(solver, blockFormulas, failed, n - 1);
      var pushed := solver.makeAnd(before.last.ssa, blockFormulas[n - 1]);
      var top := if n - 1 in failed then solver.makeAnd(pushed.ssa, TrueFormula) else pushed;
      ProverStack(before.terms + [top.formula], top)
  }

  /** The stack the prover checks when block `n` is pushed. */
  function PushedTerms(solver: Solver, blockFormulas: seq<Formula>, failed: set<nat>, n: nat): (terms: seq<Formula>)
    requires n < |blockFormulas|
    ensures |terms| == n + 1
  {
    var s := StackOf(solver, blockFormulas, failed, n);
    s.terms + [solver.makeAnd(s.last.ssa, blockFormulas[n]).formula]
  }

  /** Marking block `n` failed leaves the stacks of blocks 0..n alone. */
  lemma {:induction false} StackFrame(solver: Solver, blockFormulas: seq<Formula>, failed: set<nat>, n: nat, m: nat)
    requires m <= n < |blockFormulas|
    ensures StackOf(solver, blockFormulas, failed + {n}, m) == StackOf(solver, blockFormulas, failed, m)
  {
    if m > 0 {
      StackFrame(solver, blockFormulas, failed, n, m - 1);
    }
  }

  /** `extractInterpolantSequence`: for i = 1 .. |terms|-1, the interpolant
   *  of the first i terms. */
  method ExtractInterpolantSequence(solver: Solver, terms: seq<Formula>) returns (r: seq<Formula>)
    ensures |terms| > 0 ==> |r| == |terms| - 1
    ensures |terms| == 0 ==> r == []
    ensures forall i :: 1 <= i < |terms| ==> r[i - 1] == solver.interpolant(terms, i)
  {
    r := [];
    var i := 1;
    while i < |terms|
      invariant 1 <= i <= if |terms| == 0 then 1 else |terms|
      invariant |r| == i - 1
      invariant forall k :: 1 <= k < i ==> r[k - 1] == solver.interpolant(terms, k)
    {
      r := r + [solver.interpolant(terms, i)];
      i := i + 1;
    }
  }

  /** The prefixes found at the given positions: increasing positions, each
   *  an abstraction state where the prover was asked. */
  predicate FoundAt(p: ArgPath, positions: seq<nat>, bound: nat)
    requires WellFormed(p) && bound <= |p.assumeEdges|
  {
    (forall k :: 0 <= k < |positions| ==>
       positions[k] < bound && p.abstraction[positions[k]] && CheckUnsat(p, positions[k]))
    && forall a, b :: 0 <= a < b < |positions| ==> positions[a] < positions[b]
  }

  /** One abstraction state of the walk: its block formula is conjoined onto
   *  the stack and the path formula; when the prover is asked and finds the
   *  stack unsatisfiable, a prefix with the path formula as it stood is
   *  returned and the block is replaced by "true" in both. */
  method PushBlock(solver: Solver, checkUnsat: bool, terms: seq<Formula>, pathFormula: seq<Formula>,
                   formula: PathFormula, block: Formula, pathToState: seq<nat>)
    returns (terms': seq<Formula>, pathFormula': seq<Formula>, formula': PathFormula, found: Option<InfeasiblePrefix>)
    ensures var pushed := solver.makeAnd(formula.ssa, block);
            found.Some? <==> checkUnsat && solver.isUnsat(terms + [pushed.formula])
    ensures |terms'| == |terms| + 1 && terms'[..|terms|] == terms
    ensures var pushed := solver.makeAnd(formula.ssa, block);
            var top := if found.Some? then solver.makeAnd(pushed.ssa, TrueFormula) else pushed;
            terms' == terms + [top.formula] && formula' == top
    ensures found.None? ==> pathFormula' == pathFormula + [block]
    ensures found.Some? ==>
              var stack := terms + [solver.makeAnd(formula.ssa, block).formula];
              pathFormula' == pathFormula + [TrueFormula]
              && found.value.path == pathToState
              && found.value.pathFormula == pathFormula + [block]
              && |found.value.interpolants| == |terms|
              && forall k :: 1 <= k <= |terms| ==> found.value.interpolants[k - 1] == solver.interpolant(stack, k)
  {
    pathFormula' := pathFormula + [block];
    formula' := solver.makeAnd(formula.ssa, block);
    terms' := terms + [formula'.formula];
    found := None;
    if checkUnsat && solver.isUnsat(terms') {
      var interpolantSequence := ExtractInterpolantSequence(solver, terms');
      var finalPathFormula := pathFormula';
      found := Some(InfeasiblePrefix(pathToState, interpolantSequence, finalPathFormula));
      terms' := terms'[..|terms'| - 1];
      formula' := solver.makeAnd(formula'.ssa, TrueFormula);
      terms' := terms' + [formula'.formula];
      pathFormula' := pathFormula'[..|pathFormula'| - 1] + [TrueFormula];
    }
  }

  /** Prefix `prefix` was recorded at position `pos`: it carries the path to
   *  that state, the path formula of the blocks before it (those in
   *  `failed` as "true") followed by its own block formula, and the
   *  interpolants of the stack the prover found unsatisfiable there. */
  ghost predicate Recorded(p: ArgPath, solver: Solver, blockFormulas: seq<Formula>, failed: set<nat>,
                           onePathTo: nat -> seq<nat>, prefix: InfeasiblePrefix, pos: nat)
    requires WellFormed(p)
  {
    pos < |p.assumeEdges|
    && var b := AbstractionCount(p, pos);
       b < |blockFormulas|
       && prefix.path == onePathTo(p.states[pos])
       && prefix.pathFormula == FormulaList(blockFormulas, failed, b) + [blockFormulas[b]]
       && |prefix.interpolants| == b
       && forall k :: 1 <= k <= b ==>
            prefix.interpolants[k - 1] == solver.interpolant(PushedTerms(solver, blockFormulas, failed, b), k)
  }

  /** The prover is asked at abstraction state `j` and finds the stack,
   *  with that state's block pushed, unsatisfiable. */
  ghost predicate UnsatAt(p: ArgPath, solver: Solver, blockFormulas: seq<Formula>, failed: set<nat>, j: nat)
  {
    WellFormed(p) && j < |p.assumeEdges| && AbstractionCount(p, j) < |blockFormulas|
    && CheckUnsat(p, j) && solver.isUnsat(PushedTerms(solver, blockFormulas, failed, AbstractionCount(p, j)))
  }

  /** Where the walk stops: at the end of the path, or right after the
   *  abstraction state whose prefix makes the count equal `maxPrefixCount`.
   *  A negative cap never stops the walk; a cap of 0 stops it after the
   *  first state unless a prefix was found there. */
  predicate StopsAt(maxPrefixCount: int, p: ArgPath, positions: seq<nat>, stop: nat) {
    if maxPrefixCount < 0 then stop == |p.assumeEdges|
    else if maxPrefixCount == 0 then stop == if |p.assumeEdges| > 0 && positions == [] then 1 else |p.assumeEdges|
    else if |positions| == maxPrefixCount then stop == positions[|positions| - 1] + 1
    else |positions| < maxPrefixCount && stop == |p.assumeEdges|
  }

  /** `extractInfeasiblePrefixes`. `blockFormulas` holds the block formula of
   *  every abstraction state the walk meets, in order, and the path starts
   *  at an abstraction state. The ghost `positions` says where each prefix
   *  was found, and the walk visits the positions before `stop`. A prefix is
   *  found at an abstraction state exactly when the prover is asked there
   *  and the stack is unsatisfiable. */
  method ExtractInfeasiblePrefixes(maxPrefixCount: int, solver: Solver, p: ArgPath, blockFormulas: seq<Formula>,
                                   onePathTo: nat -> seq<nat>)
    returns (prefixes: seq<InfeasiblePrefix>, ghost positions: seq<nat>, ghost failed: set<nat>, ghost stop: nat)
    requires WellFormed(p)
    requires p.abstraction[0]
    requires AbstractionCount(p, |p.assumeEdges|) <= |blockFormulas|
    ensures |prefixes| == |positions| && stop <= |p.assumeEdges| && FoundAt(p, positions, stop)
    ensures StopsAt(maxPrefixCount, p, positions, stop)
    ensures maxPrefixCount >= 1 ==> |prefixes| <= maxPrefixCount
    ensures |prefixes| <= AbstractionCount(p, |p.assumeEdges|)
    ensures FoundExactlyWhereUnsat(p, solver, blockFormulas, stop, failed, positions)
    ensures forall x :: x in failed ==> x < AbstractionCount(p, stop)
    ensures forall k :: 0 <= k < |prefixes| ==>
              Recorded(p, solver, blockFormulas, failed, onePathTo, prefixes[k], positions[k])
  {
    var terms: seq<Formula> := [];
    var pathFormula: seq<Formula> := [];
    var formula := PathFormula(TrueFormula, 0);
    var currentBlockIndex := 0;
    failed := {};
    prefixes := [];
    positions := [];
    var i := 0;
    while i < |p.assumeEdges|
      invariant WalkInv(p, solver, blockFormulas, onePathTo, i, currentBlockIndex, terms, formula, pathFormula,
                        failed, prefixes, positions)
      invariant maxPrefixCount >= 1 ==> |prefixes| < maxPrefixCount
      invariant maxPrefixCount == 0 && i > 0 ==> |positions| > 0
    {
      ghost var positionsBefore := positions;
      var isAbstraction := p.abstraction[i];
      terms, formula, pathFormula, failed, prefixes, positions, currentBlockIndex :=
        VisitState(solver, p, blockFormulas, onePathTo, i, currentBlockIndex, terms, formula, pathFormula,
                   failed, prefixes, positions);
      i := i + 1;
      if isAbstraction && |prefixes| == maxPrefixCount {
        assert maxPrefixCount >= 1 ==> positions == positionsBefore + [i - 1];
        break;
      }
    }
    stop := i;
    WalkDone(p, solver, blockFormulas, onePathTo, stop, currentBlockIndex, terms, formula, pathFormula, failed,
             prefixes, positions);
  }

  /** One state of the walk. At an abstraction state its block formula is
   *  pushed, a prefix is closed there when the prover finds the stack
   *  unsatisfiable, and the block index moves on; any other state is
   *  passed over. */
  method VisitState(solver: Solver, p: ArgPath, blockFormulas: seq<Formula>, onePathTo: nat -> seq<nat>,
                    i: nat, currentBlockIndex: nat, terms: seq<Formula>, formula: PathFormula,
                    pathFormula: seq<Formula>, ghost failed: set<nat>, prefixes: seq<InfeasiblePrefix>,
                    ghost positions: seq<nat>)
    returns (terms': seq<Formula>, formula': PathFormula, pathFormula': seq<Formula>, ghost failed': set<nat>,
             prefixes': seq<InfeasiblePrefix>, ghost positions': seq<nat>, currentBlockIndex': nat)
    requires WalkInv(p, solver, blockFormulas, onePathTo, i, currentBlockIndex, terms, formula, pathFormula,
                     failed, prefixes, positions)
    requires i < |p.assumeEdges|
    ensures WalkInv(p, solver, blockFormulas, onePathTo, i + 1, currentBlockIndex', terms', formula', pathFormula',
                    failed', prefixes', positions')
    ensures (prefixes' == prefixes && positions' == positions)
            || (p.abstraction[i] && |prefixes'| == |prefixes| + 1 && positions' == positions + [i])
  {
    if p.abstraction[i] {
      terms', formula', pathFormula', failed', prefixes', positions' :=
        VisitAbstractionState(solver, p, blockFormulas, onePathTo, i, currentBlockIndex, terms, formula, pathFormula,
                              failed, prefixes, positions);
      currentBlockIndex' := currentBlockIndex + 1;
    } else {
      StepSkip(p, solver, blockFormulas, onePathTo, i, currentBlockIndex, terms, formula, pathFormula,
               failed, prefixes, positions);
      terms', formula', pathFormula', failed', prefixes', positions', currentBlockIndex' :=
        terms, formula, pathFormula, failed, prefixes, positions, currentBlockIndex;
    }
  }

  /** The body of the walk at abstraction state `i`: its block formula is
   *  pushed, and a prefix is closed there when the prover finds the stack
   *  unsatisfiable. */
  method VisitAbstractionState(solver: Solver, p: ArgPath, blockFormulas: seq<Formula>, onePathTo: nat -> seq<nat>,
                               i: nat, currentBlockIndex: nat, terms: seq<Formula>, formula: PathFormula,
                               pathFormula: seq<Formula>, ghost failed: set<nat>, prefixes: seq<InfeasiblePrefix>,
                               ghost positions: seq<nat>)
    returns (terms': seq<Formula>, formula': PathFormula, pathFormula': seq<Formula>, ghost failed': set<nat>,
             prefixes': seq<InfeasiblePrefix>, ghost positions': seq<nat>)
    requires WalkInv(p, solver, blockFormulas, onePathTo, i, currentBlockIndex, terms, formula, pathFormula,
                     failed, prefixes, positions)
    requires i < |p.assumeEdges| && p.abstraction[i]
    ensures WalkInv(p, solver, blockFormulas, onePathTo, i + 1, currentBlockIndex + 1, terms', formula', pathFormula',
                    failed', prefixes', positions')
    ensures (prefixes' == prefixes && positions' == positions)
            || (|prefixes'| == |prefixes| + 1 && positions' == positions + [i])
  {
    WalkBound(p, solver, blockFormulas, onePathTo, i, currentBlockIndex, terms, formula, pathFormula,
              failed, prefixes, positions);
    var found;
    terms', pathFormula', formula', found :=
      PushBlock(solver, CheckUnsat(p, i), terms, pathFormula, formula, blockFormulas[currentBlockIndex],
                onePathTo(p.states[i]));
    if found.Some? {
      StepFound(p, solver, blockFormulas, onePathTo, i, currentBlockIndex, terms, formula,
                pathFormula, failed, prefixes, positions, found.value);
      prefixes' := prefixes + [found.value];
      positions' := positions + [i];
      failed' := failed + {currentBlockIndex};
    } else {
      StepKeep(p, solver, blockFormulas, onePathTo, i, currentBlockIndex, terms, formula,
               pathFormula, failed, prefixes, positions);
      prefixes' := prefixes;
      positions' := positions;
      failed' := failed;
    }
  }

  /** The invariant at the end of the walk gives the method's promises. */
  lemma WalkDone(p: ArgPath, solver: Solver, blockFormulas: seq<Formula>, onePathTo: nat -> seq<nat>,
                 i: nat, idx: nat, terms: seq<Formula>, formula: PathFormula, pathFormula: seq<Formula>,
                 failed: set<nat>, prefixes: seq<InfeasiblePrefix>, positions: seq<nat>)
    requires WalkInv(p, solver, blockFormulas, onePathTo, i, idx, terms, formula, pathFormula, failed, prefixes, positions)
    ensures |prefixes| == |positions| && i <= |p.assumeEdges| && FoundAt(p, positions, i)
    ensures |prefixes| <= AbstractionCount(p, |p.assumeEdges|)
    ensures FoundExactlyWhereUnsat(p, solver, blockFormulas, i, failed, positions)
    ensures forall x :: x in failed ==> x < AbstractionCount(p, i)
    ensures forall k :: 0 <= k < |prefixes| ==>
              Recorded(p, solver, blockFormulas, failed, onePathTo, prefixes[k], positions[k])
  {
  }

  /** The loop invariant of the walk after the positions before `i`. */
  ghost predicate WalkInv(p: ArgPath, solver: Solver, blockFormulas: seq<Formula>, onePathTo: nat -> seq<nat>,
                          i: nat, idx: nat, terms: seq<Formula>, formula: PathFormula, pathFormula: seq<Formula>,
                          failed: set<nat>, prefixes: seq<InfeasiblePrefix>, positions: seq<nat>)
  {
    Passed(p, blockFormulas, i, idx)
    && StackInv(solver, blockFormulas, idx, terms, formula, pathFormula, failed)
    && FoundInv(p, solver, blockFormulas, onePathTo, i, idx, failed, prefixes, positions)
    && FoundExactlyWhereUnsat(p, solver, blockFormulas, i, failed, positions)
  }

  /** The block index counts the abstraction states before `i`. */
  ghost predicate Passed(p: ArgPath, blockFormulas: seq<Formula>, i: nat, idx: nat) {
    WellFormed(p)
    && i <= |p.assumeEdges|
    && idx == AbstractionCount(p, i) <= AbstractionCount(p, |p.assumeEdges|) <= |blockFormulas|
  }

  /** The prover stack and the path formula hold one entry per block, with
   *  the failed ones as "true". */
  ghost predicate StackInv(solver: Solver, blockFormulas: seq<Formula>, idx: nat, terms: seq<Formula>,
                           formula: PathFormula, pathFormula: seq<Formula>, failed: set<nat>)
  {
    idx <= |blockFormulas|
    && ProverStack(terms, formula) == StackOf(solver, blockFormulas, failed, idx)
    && pathFormula == FormulaList(blockFormulas, failed, idx)
    && (forall x :: x in failed ==> x < idx)
  }

  /** The failed blocks are those of the prefixes, and every prefix was
   *  recorded at an abstraction state passed. */
  ghost predicate FoundInv(p: ArgPath, solver: Solver, blockFormulas: seq<Formula>, onePathTo: nat -> seq<nat>,
                           i: nat, idx: nat, failed: set<nat>, prefixes: seq<InfeasiblePrefix>, positions: seq<nat>)
  {
    WellFormed(p) && i <= |p.assumeEdges|
    && |prefixes| == |positions| && FoundAt(p, positions, i)
    && |prefixes| <= idx
    && forall k :: 0 <= k < |prefixes| ==>
         Recorded(p, solver, blockFormulas, failed, onePathTo, prefixes[k], positions[k])
         && AbstractionCount(p, positions[k]) < idx
  }

  /** Among the abstraction states before `i`, a prefix was found exactly
   *  at those where the prover was asked and the stack was unsatisfiable;
   *  their blocks are the failed ones. */
  ghost predicate FoundExactlyWhereUnsat(p: ArgPath, solver: Solver, blockFormulas: seq<Formula>, i: nat, failed: set<nat>,
                             positions: seq<nat>)
  {
    i <= |p.abstraction|
    && forall j {:trigger UnsatAt(p, solver, blockFormulas, failed, j)} ::
         0 <= j < i && p.abstraction[j] ==>
           (j in positions <==> AbstractionCount(p, j) in failed)
           && (j in positions <==> UnsatAt(p, solver, blockFormulas, failed, j))
  }

  /** An abstraction state ahead of the walk has its block formula. */
  lemma WalkBound(p: ArgPath, solver: Solver, blockFormulas: seq<Formula>, onePathTo: nat -> seq<nat>, i: nat, idx: nat,
                  terms: seq<Formula>, formula: PathFormula, pathFormula: seq<Formula>,
                  failed: set<nat>, prefixes: seq<InfeasiblePrefix>, positions: seq<nat>)
    requires WalkInv(p, solver, blockFormulas, onePathTo, i, idx, terms, formula, pathFormula, failed, prefixes, positions)
    requires i < |p.assumeEdges| && p.abstraction[i]
    ensures idx < |blockFormulas|
  {
    AbstractionCountGrows(p, i, |p.assumeEdges|);
  }

  /** Passing a state that is no abstraction state. */
  lemma StepSkip(p: ArgPath, solver: Solver, blockFormulas: seq<Formula>, onePathTo: nat -> seq<nat>, i: nat, idx: nat,
                 terms: seq<Formula>, formula: PathFormula, pathFormula: seq<Formula>,
                 failed: set<nat>, prefixes: seq<InfeasiblePrefix>, positions: seq<nat>)
    requires WalkInv(p, solver, blockFormulas, onePathTo, i, idx, terms, formula, pathFormula, failed, prefixes, positions)
    requires i < |p.assumeEdges| && !p.abstraction[i]
    ensures WalkInv(p, solver, blockFormulas, onePathTo, i + 1, idx, terms, formula, pathFormula, failed, prefixes, positions)
  {
    assert FoundInv(p, solver, blockFormulas, onePathTo, i + 1, idx, failed, prefixes, positions);
    VerdictSkip(p, solver, blockFormulas, i, failed, positions);
  }

  lemma VerdictSkip(p: ArgPath, solver: Solver, blockFormulas: seq<Formula>, i: nat, failed: set<nat>,
                    positions: seq<nat>)
    requires FoundExactlyWhereUnsat(p, solver, blockFormulas, i, failed, positions)
    requires i < |p.abstraction| && !p.abstraction[i]
    ensures FoundExactlyWhereUnsat(p, solver, blockFormulas, i + 1, failed, positions)
  {
    forall j | 0 <= j < i + 1 && p.abstraction[j]
      ensures (j in positions <==> AbstractionCount(p, j) in failed)
              && (j in positions <==> UnsatAt(p, solver, blockFormulas, failed, j))
    {
      ghost var unsat := UnsatAt(p, solver, blockFormulas, failed, j);
      assert j < i;
    }
  }

  /** An abstraction state whose block keeps the stack satisfiable, or
   *  where the prover is not asked. */
  lemma StepKeep(p: ArgPath, solver: Solver, blockFormulas: seq<Formula>, onePathTo: nat -> seq<nat>, i: nat, idx: nat,
                 terms: seq<Formula>, formula: PathFormula, pathFormula: seq<Formula>,
                 failed: set<nat>, prefixes: seq<InfeasiblePrefix>, positions: seq<nat>)
    requires WalkInv(p, solver, blockFormulas, onePathTo, i, idx, terms, formula, pathFormula, failed, prefixes, positions)
    requires i < |p.assumeEdges| && p.abstraction[i] && idx < |blockFormulas|
    requires !(CheckUnsat(p, i) && solver.isUnsat(terms + [solver.makeAnd(formula.ssa, blockFormulas[idx]).formula]))
    ensures var pushed := solver.makeAnd(formula.ssa, blockFormulas[idx]);
            WalkInv(p, solver, blockFormulas, onePathTo, i + 1, idx + 1, terms + [pushed.formula], pushed,
                    pathFormula + [blockFormulas[idx]], failed, prefixes, positions)
  {
    PassedStep(p, blockFormulas, i, idx);
    StackKeep(solver, blockFormulas, idx, terms, formula, pathFormula, failed);
    FoundKeep(p, solver, blockFormulas, onePathTo, i, idx, failed, prefixes, positions);
    VerdictKeep(p, solver, blockFormulas, i, idx, terms, formula, failed, positions);
  }

  /** Passing an abstraction state consumes one block index. */
  lemma PassedStep(p: ArgPath, blockFormulas: seq<Formula>, i: nat, idx: nat)
    requires Passed(p, blockFormulas, i, idx)
    requires i < |p.assumeEdges| && p.abstraction[i]
    ensures Passed(p, blockFormulas, i + 1, idx + 1)
  {
    AbstractionCountGrows(p, i, |p.assumeEdges|);
  }

  lemma StackKeep(solver: Solver, blockFormulas: seq<Formula>, idx: nat, terms: seq<Formula>,
                  formula: PathFormula, pathFormula: seq<Formula>, failed: set<nat>)
    requires StackInv(solver, blockFormulas, idx, terms, formula, pathFormula, failed)
    requires idx < |blockFormulas|
    ensures var pushed := solver.makeAnd(formula.ssa, blockFormulas[idx]);
            StackInv(solver, blockFormulas, idx + 1, terms + [pushed.formula], pushed,
                     pathFormula + [blockFormulas[idx]], failed)
  {
  }

  lemma FoundKeep(p: ArgPath, solver: Solver, blockFormulas: seq<Formula>, onePathTo: nat -> seq<nat>,
                  i: nat, idx: nat, failed: set<nat>, prefixes: seq<InfeasiblePrefix>, positions: seq<nat>)
    requires FoundInv(p, solver, blockFormulas, onePathTo, i, idx, failed, prefixes, positions)
    requires i < |p.assumeEdges|
    ensures FoundInv(p, solver, blockFormulas, onePathTo, i + 1, idx + 1, failed, prefixes, positions)
  {
  }

  lemma VerdictKeep(p: ArgPath, solver: Solver, blockFormulas: seq<Formula>, i: nat, idx: nat,
                    terms: seq<Formula>, formula: PathFormula, failed: set<nat>, positions: seq<nat>)
    requires WellFormed(p) && FoundExactlyWhereUnsat(p, solver, blockFormulas, i, failed, positions)
    requires forall k :: 0 <= k < |positions| ==> positions[k] < i
    requires i < |p.assumeEdges| && p.abstraction[i] && idx == AbstractionCount(p, i) < |blockFormulas|
    requires ProverStack(terms, formula) == StackOf(solver, blockFormulas, failed, idx)
    requires !(CheckUnsat(p, i) && solver.isUnsat(terms + [solver.makeAnd(formula.ssa, blockFormulas[idx]).formula]))
    requires forall x :: x in failed ==> x < idx
    ensures FoundExactlyWhereUnsat(p, solver, blockFormulas, i + 1, failed, positions)
  {
    assert !UnsatAt(p, solver, blockFormulas, failed, i);
  }

  /** An abstraction state whose block closes a prefix. */
  lemma StepFound(p: ArgPath, solver: Solver, blockFormulas: seq<Formula>, onePathTo: nat -> seq<nat>, i: nat, idx: nat,
                  terms: seq<Formula>, formula: PathFormula, pathFormula: seq<Formula>,
                  failed: set<nat>, prefixes: seq<InfeasiblePrefix>, positions: seq<nat>, prefix: InfeasiblePrefix)
    requires WalkInv(p, solver, blockFormulas, onePathTo, i, idx, terms, formula, pathFormula, failed, prefixes, positions)
    requires i < |p.assumeEdges| && p.abstraction[i] && idx < |blockFormulas|
    requires CheckUnsat(p, i) && solver.isUnsat(terms + [solver.makeAnd(formula.ssa, blockFormulas[idx]).formula])
    requires prefix.path == onePathTo(p.states[i])
    requires prefix.pathFormula == pathFormula + [blockFormulas[idx]]
    requires |prefix.interpolants| == idx
    requires forall k :: 1 <= k <= idx ==>
               prefix.interpolants[k - 1]
               == solver.interpolant(terms + [solver.makeAnd(formula.ssa, blockFormulas[idx]).formula], k)
    ensures var top := solver.makeAnd(solver.makeAnd(formula.ssa, blockFormulas[idx]).ssa, TrueFormula);
            WalkInv(p, solver, blockFormulas, onePathTo, i + 1, idx + 1, terms + [top.formula], top,
                    pathFormula + [TrueFormula], failed + {idx}, prefixes + [prefix], positions + [i])
  {
    PassedStep(p, blockFormulas, i, idx);
    StackFound(solver, blockFormulas, idx, terms, formula, pathFormula, failed);
    FoundStep(p, solver, blockFormulas, onePathTo, i, idx, terms, formula, pathFormula, failed, prefixes, positions, prefix);
    VerdictFound(p, solver, blockFormulas, i, idx, terms, formula, failed, positions);
  }

  lemma StackFound(solver: Solver, blockFormulas: seq<Formula>, idx: nat, terms: seq<Formula>,
                   formula: PathFormula, pathFormula: seq<Formula>, failed: set<nat>)
    requires StackInv(solver, blockFormulas, idx, terms, formula, pathFormula, failed)
    requires idx < |blockFormulas|
    ensures var top := solver.makeAnd(solver.makeAnd(formula.ssa, blockFormulas[idx]).ssa, TrueFormula);
            StackInv(solver, blockFormulas, idx + 1, terms + [top.formula], top, pathFormula + [TrueFormula], failed + {idx})
  {
    StackFrame(solver, blockFormulas, failed, idx, idx);
    FormulaListFrame(blockFormulas, failed, idx);
  }

  lemma VerdictFound(p: ArgPath, solver: Solver, blockFormulas: seq<Formula>, i: nat, idx: nat,
                     terms: seq<Formula>, formula: PathFormula, failed: set<nat>, positions: seq<nat>)
    requires WellFormed(p) && FoundExactlyWhereUnsat(p, solver, blockFormulas, i, failed, positions)
    requires forall k :: 0 <= k < |positions| ==> positions[k] < i
    requires i < |p.assumeEdges| && p.abstraction[i] && idx == AbstractionCount(p, i) < |blockFormulas|
    requires ProverStack(terms, formula) == StackOf(solver, blockFormulas, failed, idx)
    requires CheckUnsat(p, i) && solver.isUnsat(terms + [solver.makeAnd(formula.ssa, blockFormulas[idx]).formula])
    ensures FoundExactlyWhereUnsat(p, solver, blockFormulas, i + 1, failed + {idx}, positions + [i])
  {
    StackFrame(solver, blockFormulas, failed, idx, idx);
    forall j | 0 <= j < i + 1 && p.abstraction[j]
      ensures j in positions + [i] <==> AbstractionCount(p, j) in failed + {idx}
      ensures j in positions + [i] <==> UnsatAt(p, solver, blockFormulas, failed + {idx}, j)
    {
      UnsatFrame(p, solver, blockFormulas, failed, i, idx, j);
      if j < i {
        AbstractionCountGrows(p, j, i);
      }
    }
  }

  /** The prefix closed at `i` joins the recorded ones. */
  lemma FoundStep(p: ArgPath, solver: Solver, blockFormulas: seq<Formula>, onePathTo: nat -> seq<nat>, i: nat, idx: nat,
                  terms: seq<Formula>, formula: PathFormula, pathFormula: seq<Formula>,
                  failed: set<nat>, prefixes: seq<InfeasiblePrefix>, positions: seq<nat>, prefix: InfeasiblePrefix)
    requires Passed(p, blockFormulas, i, idx)
    requires StackInv(solver, blockFormulas, idx, terms, formula, pathFormula, failed)
    requires FoundInv(p, solver, blockFormulas, onePathTo, i, idx, failed, prefixes, positions)
    requires i < |p.assumeEdges| && p.abstraction[i] && idx < |blockFormulas| && CheckUnsat(p, i)
    requires prefix.path == onePathTo(p.states[i])
    requires prefix.pathFormula == pathFormula + [blockFormulas[idx]]
    requires |prefix.interpolants| == idx
    requires forall k :: 1 <= k <= idx ==>
               prefix.interpolants[k - 1]
               == solver.interpolant(terms + [solver.makeAnd(formula.ssa, blockFormulas[idx]).formula], k)
    ensures FoundInv(p, solver, blockFormulas, onePathTo, i + 1, idx + 1, failed + {idx}, prefixes + [prefix], positions + [i])
  {
    AbstractionCountGrows(p, i, |p.assumeEdges|);
    RecordedFrame(p, solver, blockFormulas, failed, onePathTo, prefixes, positions, idx);
    RecordedNew(p, solver, blockFormulas, onePathTo, i, idx, terms, formula, pathFormula, failed, prefix);
  }

  /** The prefix closed at `i` is recorded there, with its own block failed. */
  lemma RecordedNew(p: ArgPath, solver: Solver, blockFormulas: seq<Formula>, onePathTo: nat -> seq<nat>, i: nat, idx: nat,
                    terms: seq<Formula>, formula: PathFormula, pathFormula: seq<Formula>,
                    failed: set<nat>, prefix: InfeasiblePrefix)
    requires Passed(p, blockFormulas, i, idx)
    requires StackInv(solver, blockFormulas, idx, terms, formula, pathFormula, failed)
    requires i < |p.assumeEdges| && idx < |blockFormulas|
    requires prefix.path == onePathTo(p.states[i])
    requires prefix.pathFormula == pathFormula + [blockFormulas[idx]]
    requires |prefix.interpolants| == idx
    requires forall k :: 1 <= k <= idx ==>
               prefix.interpolants[k - 1]
               == solver.interpolant(terms + [solver.makeAnd(formula.ssa, blockFormulas[idx]).formula], k)
    ensures Recorded(p, solver, blockFormulas, failed + {idx}, onePathTo, prefix, i)
  {
    StackFrame(solver, blockFormulas, failed, idx, idx);
    FormulaListFrame(blockFormulas, failed, idx);
    assert PushedTerms(solver, blockFormulas, failed + {idx}, idx)
        == terms + [solver.makeAnd(formula.ssa, blockFormulas[idx]).formula];
  }

  /** Marking block `n` failed leaves the verdict at an abstraction state
   *  up to the one of block `n` alone. */
  lemma UnsatFrame(p: ArgPath, solver: Solver, blockFormulas: seq<Formula>, failed: set<nat>, i: nat, n: nat, j: nat)
    requires WellFormed(p) && i <= |p.assumeEdges| && n < |blockFormulas| && AbstractionCount(p, i) == n
    requires j <= i && p.abstraction[j]
    ensures UnsatAt(p, solver, blockFormulas, failed + {n}, j) <==> UnsatAt(p, solver, blockFormulas, failed, j)
  {
    if j < i {
      AbstractionCountGrows(p, j, i);
    }
    if j < |p.assumeEdges| && AbstractionCount(p, j) < |blockFormulas| {
      StackFrame(solver, blockFormulas, failed, n, AbstractionCount(p, j));
    }
  }

  /** Marking block `n` failed leaves every prefix recorded before it as it was. */
  lemma RecordedFrame(p: ArgPath, solver: Solver, blockFormulas: seq<Formula>, failed: set<nat>, onePathTo: nat -> seq<nat>,
                      prefixes: seq<InfeasiblePrefix>, positions: seq<nat>, n: nat)
    requires WellFormed(p) && |prefixes| == |positions| && n < |blockFormulas|
    requires forall k :: 0 <= k < |prefixes| ==>
               Recorded(p, solver, blockFormulas, failed, onePathTo, prefixes[k], positions[k])
               && AbstractionCount(p, positions[k]) < n
    ensures forall k :: 0 <= k < |prefixes| ==>
              Recorded(p, solver, blockFormulas, failed + {n}, onePathTo, prefixes[k], positions[k])
  {
    FormulaListFrame(blockFormulas, failed, n);
    forall k | 0 <= k < |prefixes|
      ensures Recorded(p, solver, blockFormulas, failed + {n}, onePathTo, prefixes[k], positions[k])
    {
      var b := AbstractionCount(p, positions[k]);
      StackFrame(solver, blockFormulas, failed, n, b);
      assert PushedTerms(solver, blockFormulas, failed + {n}, b) == PushedTerms(solver, blockFormulas, failed, b);
    }
  }

  /** The number of abstraction states grows with the position. */
  lemma {:induction false} AbstractionCountGrows(p: ArgPath, i: nat, j: nat)
    requires i < j <= |p.abstraction| && p.abstraction[i]
    ensures AbstractionCount(p, i) < AbstractionCount(p, j)
    decreases j - i
  {
    if j > i + 1 {
      AbstractionCountGrows(p, i, j - 1);
    }
  }
}
