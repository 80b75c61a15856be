// The transfer relation of the threading analysis
// (cpa/threading/ThreadingTransferRelation.java): thread creation and exit,
// mutex lock/unlock, join, atomic sections and the local-access lock, all
// applied to the successors computed by the wrapped location and callstack
// analyses.
module ThreadingTransfer {
  import opened Wrappers
  import opened Strings
  import opened Threading

  const THREAD_START := "pthread_create"
  const THREAD_JOIN := "pthread_join"
  const THREAD_EXIT := "pthread_exit"
  const THREAD_MUTEX_LOCK := "pthread_mutex_lock"
  const THREAD_MUTEX_UNLOCK := "pthread_mutex_unlock"
  const VERIFIER_ATOMIC := "__VERIFIER_atomic_"
  const VERIFIER_ATOMIC_BEGIN := "__VERIFIER_atomic_begin"
  const VERIFIER_ATOMIC_END := "__VERIFIER_atomic_end"
  const ATOMIC_LOCK := "__CPAchecker_atomic_lock__"
  const LOCAL_ACCESS_LOCK := "__CPAchecker_local_access_lock__"

  const THREAD_FUNCTIONS: set<string> :=
    {THREAD_START, THREAD_MUTEX_LOCK, THREAD_MUTEX_UNLOCK, THREAD_JOIN, THREAD_EXIT}

  /** The `cpa.threading` options. */
  datatype Options = Options(
    useClonedFunctions: bool,
    maxNumberOfThreads: int,
    useAtomicLocks: bool,
    useLocalAccessLocks: bool)

  const DEFAULT_OPTIONS := Options(true, 5, true, true)

  /** The parts of C expressions the transfer relation inspects. */
  datatype Expression =
    | IdExpression(name: string)
    | UnaryExpression(operator: string, operand: Expression)
    | OtherExpression(code: string)

  /** Source rendering of an expression, standing in for its `toString`. */
  function ExpressionString(e: Expression): string {
    match e
    case IdExpression(n) => n
    case UnaryExpression(op, operand) => op + ExpressionString(operand)
    case OtherExpression(code) => code
  }

  datatype Statement =
    | FunctionCallStatement(functionName: Expression, parameters: seq<Expression>)
    | OtherStatement

  datatype EdgeType =
    | StatementEdge(statement: Statement)
    | FunctionCallEdge
    | FunctionReturnEdge
    | MultiEdge
    | OtherEdge

  datatype CfaEdge = CfaEdge(edgeType: EdgeType, predecessor: Node, successor: Node)

  /** The exceptions the transfer relation throws. */
  datatype Error =
    | UnrecognizedCode(message: string)
    | IllegalArgument(message: string)
    | IndexOutOfBounds
    | NullPointer(message: string)
    | NoSuchElement

  /** What the transfer relation asks of the CFA, of the wrapped location and
   *  callstack analyses, of `GlobalAccessChecker` and of `CFACloner`. */
  datatype Environment = Environment(
    leavingEdges: Node -> seq<CfaEdge>,
    mainExitNode: Node,
    isTerminationNode: Node -> bool,
    locationSuccessors: (Node, CfaEdge) -> seq<Node>,
    callstackSuccessors: (Callstack, CfaEdge) -> seq<Callstack>,
    hasGlobalAccess: CfaEdge -> bool,
    clonedFunctionName: (string, nat) -> string,
    functionHead: string -> Option<Node>,
    initialCallstack: Node -> Callstack)

  // ---------------------------------------------------------------- names

  /** A call into this function takes the atomic lock. */
  predicate CallTakesAtomicLock(calledFunction: string) {
    StartsWith(calledFunction, VERIFIER_ATOMIC_BEGIN)
    || (StartsWith(calledFunction, VERIFIER_ATOMIC) && !StartsWith(calledFunction, VERIFIER_ATOMIC_END))
  }

  /** A return from this function releases the atomic lock. */
  predicate ReturnReleasesAtomicLock(exitedFunction: string) {
    StartsWith(exitedFunction, VERIFIER_ATOMIC_END)
    || (StartsWith(exitedFunction, VERIFIER_ATOMIC) && !StartsWith(exitedFunction, VERIFIER_ATOMIC_BEGIN))
  }

  lemma BeginIsNotEnd(name: string)
    requires StartsWith(name, VERIFIER_ATOMIC_BEGIN)
    ensures !StartsWith(name, VERIFIER_ATOMIC_END)
  {
    assert name[18] == VERIFIER_ATOMIC_BEGIN[18] == 'b';
  }

  lemma AtomicPrefixes(name: string)
    ensures StartsWith(name, VERIFIER_ATOMIC_BEGIN) ==> StartsWith(name, VERIFIER_ATOMIC)
    ensures StartsWith(name, VERIFIER_ATOMIC_END) ==> StartsWith(name, VERIFIER_ATOMIC)
  {
    if StartsWith(name, VERIFIER_ATOMIC_BEGIN) {
      assert name[..|VERIFIER_ATOMIC|] == VERIFIER_ATOMIC_BEGIN[..|VERIFIER_ATOMIC|];
    }
    if StartsWith(name, VERIFIER_ATOMIC_END) {
      assert name[..|VERIFIER_ATOMIC|] == VERIFIER_ATOMIC_END[..|VERIFIER_ATOMIC|];
    }
  }

  /** The two kinds of atomic section: `_begin`...`_end` opens on the call of
   *  `_begin` and closes on the return from `_end`; every other
   *  `__VERIFIER_atomic_` function opens on its call and closes on its return. */
  lemma AtomicSections(name: string)
    ensures StartsWith(name, VERIFIER_ATOMIC_BEGIN) ==>
              CallTakesAtomicLock(name) && !ReturnReleasesAtomicLock(name)
    ensures StartsWith(name, VERIFIER_ATOMIC_END) ==>
              !CallTakesAtomicLock(name) && ReturnReleasesAtomicLock(name)
    ensures StartsWith(name, VERIFIER_ATOMIC) && !StartsWith(name, VERIFIER_ATOMIC_BEGIN)
              && !StartsWith(name, VERIFIER_ATOMIC_END) ==>
              CallTakesAtomicLock(name) && ReturnReleasesAtomicLock(name)
    ensures !StartsWith(name, VERIFIER_ATOMIC) ==>
              !CallTakesAtomicLock(name) && !ReturnReleasesAtomicLock(name)
  {
    AtomicPrefixes(name);
    if StartsWith(name, VERIFIER_ATOMIC_BEGIN) {
      BeginIsNotEnd(name);
    }
    if StartsWith(name, VERIFIER_ATOMIC_END) && StartsWith(name, VERIFIER_ATOMIC_BEGIN) {
      BeginIsNotEnd(name);
    }
  }

  /** `isImporantForThreading`: calls of the pthread functions, calls into
   *  `_begin` and returns from `_end`. */
  predicate IsImportantForThreading(edge: CfaEdge): (r: bool)
    ensures r ==> edge.edgeType.StatementEdge? || edge.edgeType.FunctionCallEdge? || edge.edgeType.FunctionReturnEdge?
    ensures r && edge.edgeType.StatementEdge? ==> edge.edgeType.statement.FunctionCallStatement?
    ensures edge.edgeType.FunctionCallEdge? ==> (r <==> StartsWith(edge.successor.functionName, VERIFIER_ATOMIC_BEGIN))
    ensures edge.edgeType.FunctionReturnEdge? ==> (r <==> StartsWith(edge.predecessor.functionName, VERIFIER_ATOMIC_END))
  {
    match edge.edgeType
    case StatementEdge(FunctionCallStatement(IdExpression(name), _)) => name in THREAD_FUNCTIONS
    case StatementEdge(_) => false
    case FunctionCallEdge => StartsWith(edge.successor.functionName, VERIFIER_ATOMIC_BEGIN)
    case FunctionReturnEdge => StartsWith(edge.predecessor.functionName, VERIFIER_ATOMIC_END)
    case _ => false
  }

  // ---------------------------------------------------------- thread exit

  /** `isLastNodeOfThread`: the node has no leaving edges. */
  predicate IsLastNodeOfThread(env: Environment, node: Node): (r: bool)
    ensures r <==> forall e :: e !in env.leavingEdges(node)
  {
    assert |env.leavingEdges(node)| > 0 ==> env.leavingEdges(node)[0] in env.leavingEdges(node);
    |env.leavingEdges(node)| == 0
  }

  /** `exitThread`: drop the thread and, with local-access locks on, the
   *  local-access lock, whichever thread holds it. */
  function ExitThread(opts: Options, ts: ThreadingState, id: string): (r: ThreadingState)
    requires id in ts.threads
    ensures r.threads.Keys == ts.threads.Keys - {id}
    ensures forall t :: t in r.threads ==> r.threads[t] == ts.threads[t]
    ensures r.locks == if opts.useLocalAccessLocks then ts.locks - {LOCAL_ACCESS_LOCK} else ts.locks
  {
    var ts1 := if opts.useLocalAccessLocks then RemoveLockAndCopy(ts, id, LOCAL_ACCESS_LOCK) else ts;
    RemoveThreadAndCopy(ts1, id)
  }

  /** The thread `t` is at a node without leaving edges. */
  predicate Exits(env: Environment, ts: ThreadingState, t: string)
    requires t in ts.threads
  {
    IsLastNodeOfThread(env, ts.threads[t].location)
  }

  /** The loop state of `exitThreads`: the threads outside `todo` are
   *  handled, `exited` says whether one of them left. */
  predicate ExitedSoFar(opts: Options, env: Environment, ts: ThreadingState, todo: set<string>,
                        r: ThreadingState, exited: bool) {
    todo <= ts.threads.Keys
    && (forall t :: t in todo ==> t in r.threads)
    && (forall t :: t in r.threads ==> t in ts.threads && r.threads[t] == ts.threads[t])
    && (forall t :: t in ts.threads && t !in todo ==> (t in r.threads <==> !Exits(env, ts, t)))
    && (exited <==> exists t :: t in ts.threads && t !in todo && Exits(env, ts, t))
    && r.locks == if opts.useLocalAccessLocks && exited then ts.locks - {LOCAL_ACCESS_LOCK} else ts.locks
  }

  lemma ExitStep(opts: Options, env: Environment, ts: ThreadingState, todo: set<string>,
                 r: ThreadingState, exited: bool, id: string)
    requires ExitedSoFar(opts, env, ts, todo, r, exited) && id in todo
    ensures id in r.threads
    ensures IsLastNodeOfThread(env, r.threads[id].location) ==>
              ExitedSoFar(opts, env, ts, todo - {id}, ExitThread(opts, r, id), true)
    ensures !IsLastNodeOfThread(env, r.threads[id].location) ==>
              ExitedSoFar(opts, env, ts, todo - {id}, r, exited)
  {
    assert r.threads[id] == ts.threads[id];
    if IsLastNodeOfThread(env, r.threads[id].location) {
      assert id in ts.threads && id !in todo - {id} && Exits(env, ts, id);
    }
  }

  /** The state `exitThreads` leaves: the threads not at a last node, and the
   *  local-access lock gone when one of the others left. */
  function AfterExits(opts: Options, env: Environment, ts: ThreadingState): (r: ThreadingState)
    ensures forall t :: t in r.threads ==> t in ts.threads && r.threads[t] == ts.threads[t]
    ensures forall t :: t in ts.threads ==> (t in r.threads <==> !Exits(env, ts, t))
    ensures NumsDistinct(ts) ==> NumsDistinct(r)
  {
    var r := ThreadingState(map t | t in ts.threads && !Exits(env, ts, t) :: ts.threads[t],
                            if opts.useLocalAccessLocks && exists t :: t in ts.threads && Exits(env, ts, t)
                            then ts.locks - {LOCAL_ACCESS_LOCK} else ts.locks);
    if NumsDistinct(ts) then ExitThreadsKeepNumsDistinct(ts, r); r else r
  }

  /** `exitThreads`: every thread at a last node is removed before the edge is
   *  handled, and with it the local-access lock; nothing else changes. */
  method ExitThreads(opts: Options, env: Environment, ts: ThreadingState) returns (r: ThreadingState)
    ensures r == AfterExits(opts, env, ts)
    ensures forall t :: t in r.threads ==> t in ts.threads && r.threads[t] == ts.threads[t]
    ensures forall t :: t in ts.threads ==> (t in r.threads <==> !Exits(env, ts, t))
    ensures r.locks == if opts.useLocalAccessLocks && exists t :: t in ts.threads && Exits(env, ts, t)
                       then ts.locks - {LOCAL_ACCESS_LOCK} else ts.locks
  {
    r := ts;
    var todo := ts.threads.Keys;
    ghost var exited := false;
    while todo != {}
      invariant ExitedSoFar(opts, env, ts, todo, r, exited)
      decreases |todo|
    {
      var id :| id in todo;
      ExitStep(opts, env, ts, todo, r, exited, id);
      if IsLastNodeOfThread(env, r.threads[id].location) {
        r := ExitThread(opts, r, id);
        exited := true;
      }
      todo := todo - {id};
    }
    ExitDone(opts, env, ts, r, exited);
  }

  /** With no thread left to look at, the state is the one `exitThreads`
   *  leaves. */
  lemma ExitDone(opts: Options, env: Environment, ts: ThreadingState, r: ThreadingState, exited: bool)
    requires ExitedSoFar(opts, env, ts, {}, r, exited)
    ensures r == AfterExits(opts, env, ts)
  {
    assert r.threads == AfterExits(opts, env, ts).threads;
  }

  lemma ExitThreadsKeepNumsDistinct(ts: ThreadingState, r: ThreadingState)
    requires NumsDistinct(ts)
    requires forall t :: t in r.threads ==> t in ts.threads && r.threads[t] == ts.threads[t]
    ensures NumsDistinct(r)
  {
    assert forall t :: t in r.threads ==> NumOf(r, t) == NumOf(ts, t);
  }

  // ------------------------------------------------------- active thread

  /** The thread `t` can take `edge`: it leaves the thread's location. */
  predicate CanTake(env: Environment, ts: ThreadingState, t: string, edge: CfaEdge)
    requires t in ts.threads
  {
    edge in env.leavingEdges(ts.threads[t].location)
  }

  /** The threads that can take `edge`. */
  function ActiveThreads(env: Environment, edge: CfaEdge, ts: ThreadingState): (r: set<string>)
    ensures r <= ts.threads.Keys
    ensures forall t :: t in ts.threads ==> (t in r <==> edge in env.leavingEdges(ts.threads[t].location))
  {
    set t | t in ts.threads && CanTake(env, ts, t, edge)
  }

  /** `getActiveThread`: the one thread that can take the edge; none or
   *  several is an error. */
  method GetActiveThread(env: Environment, edge: CfaEdge, ts: ThreadingState) returns (r: Result<string, Error>)
    ensures r.Ok? <==> |ActiveThreads(env, edge, ts)| == 1
    ensures r.Ok? ==> r.value in ts.threads && CanTake(env, ts, r.value, edge)
  {
    var activeThreads: set<string> := {};
    var todo := ts.threads.Keys;
    while todo != {}
      invariant todo <= ts.threads.Keys
      invariant forall t :: t in activeThreads <==> t in ts.threads && t !in todo && CanTake(env, ts, t, edge)
      decreases |todo|
    {
      var id :| id in todo;
      if edge in env.leavingEdges(ts.threads[id].location) {
        activeThreads := activeThreads + {id};
      }
      todo := todo - {id};
    }
    assert activeThreads == ActiveThreads(env, edge, ts);
    if |activeThreads| == 0 {
      r := Err(NoSuchElement);
    } else if |activeThreads| > 1 {
      r := Err(IllegalArgument("expected one element"));
    } else {
      var id :| id in activeThreads;
      r := Ok(id);
    }
  }

  // ----------------------------------------------------------- successors

  /** Every state of `results` has the threads of `ts`, under the same numbers. */
  predicate SameThreadNums(ts: ThreadingState, results: seq<ThreadingState>) {
    forall i :: 0 <= i < |results| ==>
      results[i].threads.Keys == ts.threads.Keys
      && forall t :: t in ts.threads ==> NumOf(results[i], t) == NumOf(ts, t)
  }

  predicate AllNumsDistinct(results: seq<ThreadingState>) {
    forall i :: 0 <= i < |results| ==> NumsDistinct(results[i])
  }

  lemma SameThreadNumsDistinct(ts: ThreadingState, results: seq<ThreadingState>)
    requires NumsDistinct(ts) && SameThreadNums(ts, results)
    ensures AllNumsDistinct(results)
  {
  }

  /** The active thread moved to `loc` with each of the callstacks. */
  function Moves(ts: ThreadingState, active: string, loc: Node, stacks: seq<Callstack>): seq<ThreadingState>
    requires active in ts.threads
  {
    if stacks == [] then []
    else Moves(ts, active, loc, stacks[..|stacks| - 1])
         + [UpdateThreadAndCopy(ts, active, stacks[|stacks| - 1], loc)]
  }

  /** All combinations of a successor location and a successor callstack. */
  function AllMoves(ts: ThreadingState, active: string, locs: seq<Node>, stacks: seq<Callstack>): seq<ThreadingState>
    requires active in ts.threads
  {
    if locs == [] then []
    else AllMoves(ts, active, locs[..|locs| - 1], stacks) + Moves(ts, active, locs[|locs| - 1], stacks)
  }

  lemma {:induction false} MovesSpec(ts: ThreadingState, active: string, loc: Node, stacks: seq<Callstack>,
                                     n: ThreadingState)
    requires active in ts.threads
    ensures n in Moves(ts, active, loc, stacks) <==>
              exists s :: s in stacks && n == UpdateThreadAndCopy(ts, active, s, loc)
  {
    if stacks != [] {
      var init := stacks[..|stacks| - 1];
      MovesSpec(ts, active, loc, init, n);
      assert stacks == init + [stacks[|stacks| - 1]];
    }
  }

  /** A state is a wrapped successor iff it is the active thread moved to
   *  one of the locations with one of the callstacks. */
  lemma {:induction false} AllMovesSpec(ts: ThreadingState, active: string, locs: seq<Node>,
                                        stacks: seq<Callstack>, n: ThreadingState)
    requires active in ts.threads
    ensures n in AllMoves(ts, active, locs, stacks) <==>
              exists l, s :: l in locs && s in stacks && n == UpdateThreadAndCopy(ts, active, s, l)
  {
    if locs != [] {
      var init := locs[..|locs| - 1];
      var last := locs[|locs| - 1];
      AllMovesSpec(ts, active, init, stacks, n);
      MovesSpec(ts, active, last, stacks, n);
      assert locs == init + [last];
    }
  }

  lemma {:induction false} MovesSameThreadNums(ts: ThreadingState, active: string, loc: Node, stacks: seq<Callstack>)
    requires active in ts.threads
    ensures SameThreadNums(ts, Moves(ts, active, loc, stacks))
  {
    if stacks != [] {
      MovesSameThreadNums(ts, active, loc, stacks[..|stacks| - 1]);
    }
  }

  /** Moving one thread keeps the set of threads and their numbers. */
  lemma {:induction false} AllMovesSameThreadNums(ts: ThreadingState, active: string, locs: seq<Node>,
                                                  stacks: seq<Callstack>)
    requires active in ts.threads
    ensures SameThreadNums(ts, AllMoves(ts, active, locs, stacks))
  {
    if locs != [] {
      AllMovesSameThreadNums(ts, active, locs[..|locs| - 1], stacks);
      MovesSameThreadNums(ts, active, locs[|locs| - 1], stacks);
    }
  }

  /** The inner loop of `getAbstractSuccessorsFromWrappedCPAs`: the active
   *  thread moved to `loc` with each successor callstack, in order. */
  method MovesTo(ts: ThreadingState, active: string, loc: Node, newStacks: seq<Callstack>)
    returns (moved: seq<ThreadingState>)
    requires active in ts.threads
    ensures moved == Moves(ts, active, loc, newStacks)
  {
    moved := [];
    var j := 0;
    while j < |newStacks|
      invariant 0 <= j <= |newStacks|
      invariant moved == Moves(ts, active, loc, newStacks[..j])
    {
      assert newStacks[..j + 1][..j] == newStacks[..j];
      moved := moved + [UpdateThreadAndCopy(ts, active, newStacks[j], loc)];
      j := j + 1;
    }
    assert newStacks[..j] == newStacks;
  }

  /** `getAbstractSuccessorsFromWrappedCPAs`: the active thread moves to every
   *  combination of a successor location and a successor callstack. */
  method WrappedSuccessors(ts: ThreadingState, active: string, newLocs: seq<Node>, newStacks: seq<Callstack>)
    returns (results: seq<ThreadingState>)
    requires active in ts.threads
    ensures results == AllMoves(ts, active, newLocs, newStacks)
  {
    results := [];
    var i := 0;
    while i < |newLocs|
      invariant 0 <= i <= |newLocs|
      invariant results == AllMoves(ts, active, newLocs[..i], newStacks)
    {
      assert newLocs[..i + 1][..i] == newLocs[..i];
      var moved := MovesTo(ts, active, newLocs[i], newStacks);
      results := results + moved;
      i := i + 1;
    }
    assert newLocs[..i] == newLocs;
  }

  // ---------------------------------------------------------------- locks

  /** The successors after the active thread takes `lockId`: none when any
   *  thread holds it, else each successor with the lock added. */
  function WithLock(ts: ThreadingState, active: string, lockId: string, results: seq<ThreadingState>)
    : seq<ThreadingState>
    requires forall i :: 0 <= i < |results| ==> active in results[i].threads
  {
    if HasLock(ts, lockId) then []
    else seq(|results|, i requires 0 <= i < |results| => AddLockAndCopy(results[i], active, lockId))
  }

  /** The successors after the active thread releases `lockId`. */
  function WithoutLock(active: string, lockId: string, results: seq<ThreadingState>): seq<ThreadingState>
    requires forall i :: 0 <= i < |results| ==> active in results[i].threads
  {
    seq(|results|, i requires 0 <= i < |results| => RemoveLockAndCopy(results[i], active, lockId))
  }

  /** `addLock(state, thread, lockId, results)`: a lock held by any thread,
   *  the acquirer included, blocks; otherwise every successor gets the lock
   *  for the active thread. */
  method AddLock(ts: ThreadingState, active: string, lockId: string, results: seq<ThreadingState>)
    returns (newResults: seq<ThreadingState>)
    requires forall i :: 0 <= i < |results| ==> active in results[i].threads
    ensures newResults == WithLock(ts, active, lockId, results)
    ensures HasLock(ts, lockId) ==> newResults == []
    ensures !HasLock(ts, lockId) ==>
              |newResults| == |results|
              && forall i :: 0 <= i < |results| ==> newResults[i] == AddLockAndCopy(results[i], active, lockId)
    ensures forall i :: 0 <= i < |newResults| ==> HasLockOf(newResults[i], active, lockId)
  {
    if HasLock(ts, lockId) {
      return [];
    }
    newResults := [];
    var i := 0;
    while i < |results|
      invariant 0 <= i <= |results|
      invariant |newResults| == i
      invariant forall k :: 0 <= k < i ==> newResults[k] == AddLockAndCopy(results[k], active, lockId)
    {
      newResults := newResults + [AddLockAndCopy(results[i], active, lockId)];
      i := i + 1;
    }
  }

  /** `removeLock(thread, lockId, results)`: every successor loses the lock. */
  method RemoveLock(active: string, lockId: string, results: seq<ThreadingState>)
    returns (newResults: seq<ThreadingState>)
    requires forall i :: 0 <= i < |results| ==> active in results[i].threads
    ensures newResults == WithoutLock(active, lockId, results)
    ensures |newResults| == |results|
    ensures forall i :: 0 <= i < |results| ==> newResults[i] == RemoveLockAndCopy(results[i], active, lockId)
    ensures forall i :: 0 <= i < |newResults| ==> !HasLock(newResults[i], lockId)
  {
    newResults := [];
    var i := 0;
    while i < |results|
      invariant 0 <= i <= |results|
      invariant |newResults| == i
      invariant forall k :: 0 <= k < i ==> newResults[k] == RemoveLockAndCopy(results[k], active, lockId)
    {
      newResults := newResults + [RemoveLockAndCopy(results[i], active, lockId)];
      i := i + 1;
    }
  }

  /** The lock id of a `pthread_mutex_lock`/`unlock` call: the operand of a
   *  unary first argument. */
  function LockIdOf(parameters: seq<Expression>): (r: Result<string, Error>)
    ensures r.Ok? <==> |parameters| > 0 && parameters[0].UnaryExpression?
    ensures r.Ok? ==> r.value == ExpressionString(parameters[0].operand)
  {
    if |parameters| == 0 then Err(IndexOutOfBounds)
    else if !parameters[0].UnaryExpression? then Err(UnrecognizedCode("unsupported thread locking"))
    else Ok(ExpressionString(parameters[0].operand))
  }

  /** `addLock(state, thread, statement, results)`. */
  method AddLockStatement(ts: ThreadingState, active: string, parameters: seq<Expression>,
                          results: seq<ThreadingState>)
    returns (r: Result<seq<ThreadingState>, Error>)
    requires forall i :: 0 <= i < |results| ==> active in results[i].threads
    ensures r.Ok? <==> LockIdOf(parameters).Ok?
    ensures r.Err? ==> r.error == LockIdOf(parameters).error
    ensures r.Ok? ==> r.value == WithLock(ts, active, LockIdOf(parameters).value, results)
    ensures r.Ok? && HasLock(ts, LockIdOf(parameters).value) ==> r.value == []
    ensures r.Ok? && !HasLock(ts, LockIdOf(parameters).value) ==>
              |r.value| == |results|
              && forall i :: 0 <= i < |results| ==>
                   r.value[i] == AddLockAndCopy(results[i], active, LockIdOf(parameters).value)
  {
    var lockId := LockIdOf(parameters);
    if lockId.Err? {
      return Err(lockId.error);
    }
    var newResults := AddLock(ts, active, lockId.value, results);
    r := Ok(newResults);
  }

  /** `removeLock(thread, statement, results)`. */
  method RemoveLockStatement(active: string, parameters: seq<Expression>, results: seq<ThreadingState>)
    returns (r: Result<seq<ThreadingState>, Error>)
    requires forall i :: 0 <= i < |results| ==> active in results[i].threads
    ensures r.Ok? <==> LockIdOf(parameters).Ok?
    ensures r.Err? ==> r.error == LockIdOf(parameters).error
    ensures r.Ok? ==> r.value == WithoutLock(active, LockIdOf(parameters).value, results)
    ensures r.Ok? ==>
              |r.value| == |results|
              && forall i :: 0 <= i < |results| ==>
                   r.value[i] == RemoveLockAndCopy(results[i], active, LockIdOf(parameters).value)
  {
    var lockId := LockIdOf(parameters);
    if lockId.Err? {
      return Err(lockId.error);
    }
    var newResults := RemoveLock(active, lockId.value, results);
    r := Ok(newResults);
  }

  /** `joinThread`: waiting for a thread that still exists blocks; otherwise
   *  the successors pass unchanged. */
  function JoinThread(ts: ThreadingState, parameters: seq<Expression>, results: seq<ThreadingState>)
    : (r: Result<seq<ThreadingState>, Error>)
    ensures r.Ok? <==> |parameters| > 0 && parameters[0].IdExpression?
    ensures r.Ok? ==> r.value == if parameters[0].name in ts.threads then [] else results
  {
    if |parameters| == 0 then Err(IndexOutOfBounds)
    else if !parameters[0].IdExpression? then Err(UnrecognizedCode("unsupported thread join access"))
    else if parameters[0].name in ts.threads then Ok([])
    else Ok(results)
  }

  /** The successors after the local-access lock: none when another thread
   *  holds it; else released on an edge that touches globals or a thread
   *  function, taken on any other edge. */
  function LocalAccessed(env: Environment, edge: CfaEdge, ts: ThreadingState, active: string,
                         results: seq<ThreadingState>): seq<ThreadingState>
    requires forall i :: 0 <= i < |results| ==> active in results[i].threads
  {
    if HasLock(ts, LOCAL_ACCESS_LOCK) && !HasLockOf(ts, active, LOCAL_ACCESS_LOCK) then []
    else if env.hasGlobalAccess(edge) || IsImportantForThreading(edge) then WithoutLock(active, LOCAL_ACCESS_LOCK, results)
    else seq(|results|, i requires 0 <= i < |results| => AddLockAndCopy(results[i], active, LOCAL_ACCESS_LOCK))
  }

  /** `handleLocalAccessLock`: the lock held by another thread blocks;
   *  otherwise it is released on edges that touch globals or thread
   *  functions and taken on all other edges. */
  method HandleLocalAccessLock(env: Environment, edge: CfaEdge, ts: ThreadingState, active: string,
                               results: seq<ThreadingState>)
    returns (newResults: seq<ThreadingState>)
    requires forall i :: 0 <= i < |results| ==> active in results[i].threads
    ensures newResults == LocalAccessed(env, edge, ts, active, results)
    ensures HasLock(ts, LOCAL_ACCESS_LOCK) && !HasLockOf(ts, active, LOCAL_ACCESS_LOCK) ==> newResults == []
    ensures !(HasLock(ts, LOCAL_ACCESS_LOCK) && !HasLockOf(ts, active, LOCAL_ACCESS_LOCK)) ==>
              |newResults| == |results|
              && forall i :: 0 <= i < |results| ==>
                   newResults[i] == if env.hasGlobalAccess(edge) || IsImportantForThreading(edge)
                                    then RemoveLockAndCopy(results[i], active, LOCAL_ACCESS_LOCK)
                                    else AddLockAndCopy(results[i], active, LOCAL_ACCESS_LOCK)
    ensures |newResults| <= |results|
    ensures forall i :: 0 <= i < |newResults| ==> newResults[i].threads == results[i].threads
  {
    if HasLock(ts, LOCAL_ACCESS_LOCK) && !HasLockOf(ts, active, LOCAL_ACCESS_LOCK) {
      return [];
    }
    var important := env.hasGlobalAccess(edge) || IsImportantForThreading(edge);
    newResults := [];
    var i := 0;
    while i < |results|
      invariant 0 <= i <= |results|
      invariant |newResults| == i
      invariant forall k :: 0 <= k < i ==>
                  newResults[k] == if important then RemoveLockAndCopy(results[k], active, LOCAL_ACCESS_LOCK)
                                   else AddLockAndCopy(results[k], active, LOCAL_ACCESS_LOCK)
    {
      if important {
        newResults := newResults + [RemoveLockAndCopy(results[i], active, LOCAL_ACCESS_LOCK)];
      } else {
        newResults := newResults + [AddLockAndCopy(results[i], active, LOCAL_ACCESS_LOCK)];
      }
      i := i + 1;
    }
  }

  // ------------------------------------------------------- thread creation

  /** The checks of `startNewThread` on the arguments of `pthread_create`:
   *  the new thread's id and the thread function's name. */
  function ThreadCreateArguments(parameters: seq<Expression>): (r: Result<(string, string), Error>)
    ensures r.Ok? <==> |parameters| >= 3
                       && parameters[0].UnaryExpression? && parameters[0].operand.IdExpression?
                       && parameters[2].UnaryExpression? && parameters[2].operand.IdExpression?
    ensures r.Ok? ==> r.value == (parameters[0].operand.name, parameters[2].operand.name)
  {
    if |parameters| == 0 then Err(IndexOutOfBounds)
    else if !parameters[0].UnaryExpression? then Err(UnrecognizedCode("unsupported thread assignment"))
    else if |parameters| < 3 then Err(IndexOutOfBounds)
    else if !parameters[2].UnaryExpression? then Err(UnrecognizedCode("unsupported thread function call"))
    else if !parameters[0].operand.IdExpression? then Err(UnrecognizedCode("unsupported thread assignment"))
    else if !parameters[2].operand.IdExpression? then Err(UnrecognizedCode("unsupported thread function call"))
    else Ok((parameters[0].operand.name, parameters[2].operand.name))
  }

  /** A thread count allowed by `maxNumberOfThreads` (-1 is unlimited). */
  predicate WithinThreadLimit(opts: Options, x: ThreadingState) {
    opts.maxNumberOfThreads == -1 || |x.threads| <= opts.maxNumberOfThreads
  }

  /** The successors within the thread limit, each with the new thread added. */
  function AddThreadWhereAllowed(opts: Options, results: seq<ThreadingState>, id: string, num: nat,
                                 stack: Callstack, loc: Node): seq<ThreadingState>
    requires forall i :: 0 <= i < |results| ==> id !in results[i].threads
  {
    if results == [] then []
    else
      var last := results[|results| - 1];
      AddThreadWhereAllowed(opts, results[..|results| - 1], id, num, stack, loc)
      + if WithinThreadLimit(opts, last) then [AddThreadAndCopy(last, id, num, stack, loc)] else []
  }

  /** Every state made by `AddThreadWhereAllowed` holds the new thread, and
   *  none is made beyond the successors. */
  lemma {:induction false} AddThreadWhereAllowedShape(opts: Options, results: seq<ThreadingState>, id: string,
                                                      num: nat, stack: Callstack, loc: Node)
    requires forall i :: 0 <= i < |results| ==> id !in results[i].threads
    ensures |AddThreadWhereAllowed(opts, results, id, num, stack, loc)| <= |results|
    ensures opts.maxNumberOfThreads == -1 ==> |AddThreadWhereAllowed(opts, results, id, num, stack, loc)| == |results|
    ensures forall n :: n in AddThreadWhereAllowed(opts, results, id, num, stack, loc) ==>
              id in n.threads && n.threads[id] == ThreadState(loc, stack, num)
  {
    if results != [] {
      AddThreadWhereAllowedShape(opts, results[..|results| - 1], id, num, stack, loc);
    }
  }

  /** A successor with the threads and numbers of `ts` keeps its numbers
   *  distinct when a thread is added under a number `ts` does not use. */
  lemma AddThreadToSuccessorDistinct(ts: ThreadingState, x: ThreadingState, id: string, num: nat,
                                     stack: Callstack, loc: Node)
    requires NumsDistinct(ts)
    requires x.threads.Keys == ts.threads.Keys && forall t :: t in ts.threads ==> NumOf(x, t) == NumOf(ts, t)
    requires id !in ts.threads && num !in ThreadNums(ts)
    ensures NumsDistinct(AddThreadAndCopy(x, id, num, stack, loc))
  {
    assert NumsDistinct(x) by {
      forall a, b | a in x.threads && b in x.threads && a != b ensures NumOf(x, a) != NumOf(x, b) {
        assert NumOf(ts, a) != NumOf(ts, b);
      }
    }
    assert ThreadNums(x) == ThreadNums(ts) by {
      forall n | n in ThreadNums(x) ensures n in ThreadNums(ts) {
        var t :| t in x.threads && x.threads[t].num == n;
        assert NumOf(ts, t) == n;
      }
      forall n | n in ThreadNums(ts) ensures n in ThreadNums(x) {
        var t :| t in ts.threads && ts.threads[t].num == n;
        assert NumOf(x, t) == n;
      }
    }
    AddThreadKeepsNumsDistinct(x, id, num, stack, loc);
  }

  /** Adding a thread under an unused number keeps every successor's thread
   *  numbers distinct. */
  lemma {:induction false} AddThreadWhereAllowedDistinct(opts: Options, ts: ThreadingState, results: seq<ThreadingState>,
                                                         id: string, num: nat, stack: Callstack, loc: Node)
    requires NumsDistinct(ts) && SameThreadNums(ts, results)
    requires id !in ts.threads && num !in ThreadNums(ts)
    ensures AllNumsDistinct(AddThreadWhereAllowed(opts, results, id, num, stack, loc))
  {
    if results != [] {
      var init, last := results[..|results| - 1], results[|results| - 1];
      assert SameThreadNums(ts, init) by {
        forall i | 0 <= i < |init| ensures init[i] == results[i] { }
      }
      AddThreadWhereAllowedDistinct(opts, ts, init, id, num, stack, loc);
      var prev := AddThreadWhereAllowed(opts, init, id, num, stack, loc);
      if WithinThreadLimit(opts, last) {
        AddThreadToSuccessorDistinct(ts, last, id, num, stack, loc);
        var n := AddThreadAndCopy(last, id, num, stack, loc);
        assert AddThreadWhereAllowed(opts, results, id, num, stack, loc) == prev + [n];
        forall i | 0 <= i < |prev| + 1 ensures NumsDistinct((prev + [n])[i]) {
          if i < |prev| {
            assert (prev + [n])[i] == prev[i];
          }
        }
      } else {
        assert AddThreadWhereAllowed(opts, results, id, num, stack, loc) == prev;
      }
    }
  }

  /** The function the new thread runs: its clone for the new thread's
   *  number when functions are cloned. */
  function ThreadFunction(opts: Options, env: Environment, ts: ThreadingState, name: string): string {
    if opts.useClonedFunctions then env.clonedFunctionName(name, LeastMissing(ThreadNums(ts))) else name
  }

  /** The successors after `pthread_create`: the arguments are checked, the
   *  id must be new and the thread function must exist; then the thread,
   *  at that function's head under the least unused number, is added to
   *  every successor within the thread limit. */
  function NewThreadSuccessors(opts: Options, env: Environment, ts: ThreadingState, parameters: seq<Expression>,
                               results: seq<ThreadingState>): (r: Result<seq<ThreadingState>, Error>)
    requires NumsDistinct(ts) && SameThreadNums(ts, results)
    ensures r.Ok? <==>
              ThreadCreateArguments(parameters).Ok? && ThreadCreateArguments(parameters).value.0 !in ts.threads
              && env.functionHead(ThreadFunction(opts, env, ts, ThreadCreateArguments(parameters).value.1)).Some?
    ensures r.Ok? ==>
              var id := ThreadCreateArguments(parameters).value.0;
              var head := env.functionHead(ThreadFunction(opts, env, ts, ThreadCreateArguments(parameters).value.1)).value;
              AllNumsDistinct(r.value) && |r.value| <= |results|
              && (opts.maxNumberOfThreads == -1 ==> |r.value| == |results|)
              && LeastMissing(ThreadNums(ts)) !in ThreadNums(ts)
              && forall n :: n in r.value ==>
                   id in n.threads && n.threads[id] == ThreadState(head, env.initialCallstack(head), LeastMissing(ThreadNums(ts)))
  {
    match ThreadCreateArguments(parameters)
    case Err(e) => Err(e)
    case Ok((id, name)) =>
      var num := LeastMissing(ThreadNums(ts));
      var fn := ThreadFunction(opts, env, ts, name);
      if id in ts.threads then Err(UnrecognizedCode("multiple thread assignments to same LHS not supported"))
      else if env.functionHead(fn).None? then Err(NullPointer(fn))
      else
        var head := env.functionHead(fn).value;
        LeastMissingIsLeast(ThreadNums(ts));
        AddThreadWhereAllowedShape(opts, results, id, num, env.initialCallstack(head), head);
        AddThreadWhereAllowedDistinct(opts, ts, results, id, num, env.initialCallstack(head), head);
        Ok(AddThreadWhereAllowed(opts, results, id, num, env.initialCallstack(head), head))
  }

  /** `startNewThread`. The new thread gets the least unused number; a
   *  duplicate id is rejected; the thread is added to every successor within
   *  the thread limit, and the others are dropped. */
  method StartNewThread(opts: Options, env: Environment, ts: ThreadingState, parameters: seq<Expression>,
                        results: seq<ThreadingState>)
    returns (r: Result<seq<ThreadingState>, Error>)
    requires NumsDistinct(ts) && SameThreadNums(ts, results)
    ensures r == NewThreadSuccessors(opts, env, ts, parameters, results)
    ensures ThreadCreateArguments(parameters).Err? ==> r.Err?
    ensures ThreadCreateArguments(parameters).Ok? && ThreadCreateArguments(parameters).value.0 in ts.threads ==> r.Err?
    ensures r.Ok? ==>
              var (id, name) := ThreadCreateArguments(parameters).value;
              var num := LeastMissing(ThreadNums(ts));
              var fn := if opts.useClonedFunctions then env.clonedFunctionName(name, num) else name;
              id !in ts.threads && env.functionHead(fn).Some?
              && r.value == AddThreadWhereAllowed(opts, results, id, num,
                                                  env.initialCallstack(env.functionHead(fn).value),
                                                  env.functionHead(fn).value)
    ensures r.Ok? ==> AllNumsDistinct(r.value)
  {
    var args := ThreadCreateArguments(parameters);
    if args.Err? {
      return Err(args.error);
    }
    var (id, functionName) := args.value;
    var newThreadNum := GetSmallestMissingThreadNum(ts);
    if opts.useClonedFunctions {
      functionName := env.clonedFunctionName(functionName, newThreadNum);
    }
    if id in ts.threads {
      return Err(UnrecognizedCode("multiple thread assignments to same LHS not supported"));
    }
    var head := env.functionHead(functionName);
    if head.None? {
      return Err(NullPointer(functionName));
    }
    var initialStack := env.initialCallstack(head.value);
    var initialLoc := head.value;
    var newResults: seq<ThreadingState> := [];
    var i := 0;
    while i < |results|
      invariant 0 <= i <= |results|
      invariant newResults == AddThreadWhereAllowed(opts, results[..i], id, newThreadNum, initialStack, initialLoc)
    {
      assert results[..i + 1][..i] == results[..i];
      if WithinThreadLimit(opts, results[i]) {
        newResults := newResults + [AddThreadAndCopy(results[i], id, newThreadNum, initialStack, initialLoc)];
      }
      i := i + 1;
    }
    assert results[..i] == results;
    AddThreadWhereAllowedDistinct(opts, ts, results, id, newThreadNum, initialStack, initialLoc);
    r := Ok(newResults);
  }

  // ------------------------------------------------------------- dispatch

  /** The name of a called function, when the call names it directly. */
  function CalledName(statement: Statement): Option<string> {
    if statement.FunctionCallStatement? && statement.functionName.IdExpression?
    then Some(statement.functionName.name) else None
  }

  /** The edge is a direct call of `name`. */
  predicate CallsFunction(edge: CfaEdge, name: string) {
    edge.edgeType.StatementEdge? && CalledName(edge.edgeType.statement) == Some(name)
  }

  /** The threading operation of an edge: thread creation, mutex lock and
   *  unlock, join, and the atomic lock taken on a call into an atomic
   *  function and released on the return from one; every other edge leaves
   *  the successors as they are. */
  function ThreadingOperation(opts: Options, env: Environment, edge: CfaEdge, ts: ThreadingState, active: string,
                              results: seq<ThreadingState>): Result<seq<ThreadingState>, Error>
    requires active in ts.threads && NumsDistinct(ts) && SameThreadNums(ts, results)
  {
    assert forall i :: 0 <= i < |results| ==> active in results[i].threads;
    match edge.edgeType
    case StatementEdge(statement) =>
      var name := CalledName(statement);
      if name == Some(THREAD_START) then NewThreadSuccessors(opts, env, ts, statement.parameters, results)
      else if name == Some(THREAD_MUTEX_LOCK) then
        match LockIdOf(statement.parameters)
        case Err(e) => Err(e)
        case Ok(lockId) => Ok(WithLock(ts, active, lockId, results))
      else if name == Some(THREAD_MUTEX_UNLOCK) then
        match LockIdOf(statement.parameters)
        case Err(e) => Err(e)
        case Ok(lockId) => Ok(WithoutLock(active, lockId, results))
      else if name == Some(THREAD_JOIN) then JoinThread(ts, statement.parameters, results)
      else Ok(results)
    case FunctionCallEdge =>
      if opts.useAtomicLocks && CallTakesAtomicLock(edge.successor.functionName)
      then Ok(WithLock(ts, active, ATOMIC_LOCK, results)) else Ok(results)
    case FunctionReturnEdge =>
      if opts.useAtomicLocks && ReturnReleasesAtomicLock(edge.predecessor.functionName)
      then Ok(WithoutLock(active, ATOMIC_LOCK, results)) else Ok(results)
    case _ => Ok(results)
  }

  /** `getAbstractSuccessorsForEdge0`: the threading operation of the edge
   *  applied to the wrapped successors. */
  method GetAbstractSuccessorsForEdge0(opts: Options, env: Environment, edge: CfaEdge, ts: ThreadingState,
                                       active: string, results: seq<ThreadingState>)
    returns (r: Result<seq<ThreadingState>, Error>)
    requires active in ts.threads && NumsDistinct(ts) && SameThreadNums(ts, results)
    ensures r == ThreadingOperation(opts, env, edge, ts, active, results)
    ensures r.Ok? ==> AllNumsDistinct(r.value)
    ensures r.Err? ==> edge.edgeType.StatementEdge? && CalledName(edge.edgeType.statement).Some?
    ensures CallsFunction(edge, THREAD_MUTEX_LOCK) ==>
              var lockId := LockIdOf(edge.edgeType.statement.parameters);
              (r.Ok? <==> lockId.Ok?)
              && (lockId.Ok? && HasLock(ts, lockId.value) ==> r.value == [])
              && (lockId.Ok? ==> forall i :: 0 <= i < |r.value| ==> HasLockOf(r.value[i], active, lockId.value))
    ensures CallsFunction(edge, THREAD_MUTEX_UNLOCK) ==>
              var lockId := LockIdOf(edge.edgeType.statement.parameters);
              (r.Ok? <==> lockId.Ok?)
              && (lockId.Ok? ==> forall i :: 0 <= i < |r.value| ==> !HasLock(r.value[i], lockId.value))
    ensures CallsFunction(edge, THREAD_JOIN) ==>
              var params := edge.edgeType.statement.parameters;
              (r.Ok? <==> |params| > 0 && params[0].IdExpression?)
              && (r.Ok? && params[0].name in ts.threads ==> r.value == [])
              && (r.Ok? && params[0].name !in ts.threads ==> r.value == results)
    ensures opts.useAtomicLocks && edge.edgeType.FunctionCallEdge? && CallTakesAtomicLock(edge.successor.functionName)
            ==> r.Ok? && (HasLock(ts, ATOMIC_LOCK) ==> r.value == [])
                && forall i :: 0 <= i < |r.value| ==> HasLockOf(r.value[i], active, ATOMIC_LOCK)
    ensures opts.useAtomicLocks && edge.edgeType.FunctionReturnEdge?
            && ReturnReleasesAtomicLock(edge.predecessor.functionName)
            ==> r.Ok? && forall i :: 0 <= i < |r.value| ==> !HasLock(r.value[i], ATOMIC_LOCK)
    ensures !IsImportantForThreading(edge) && !(opts.useAtomicLocks && edge.edgeType.FunctionCallEdge?
              && CallTakesAtomicLock(edge.successor.functionName))
            && !(opts.useAtomicLocks && edge.edgeType.FunctionReturnEdge?
              && ReturnReleasesAtomicLock(edge.predecessor.functionName))
            ==> r == Ok(results)
  {
    assert forall i :: 0 <= i < |results| ==> active in results[i].threads;
    SameThreadNumsDistinct(ts, results);
    match edge.edgeType {
      case StatementEdge(statement) =>
        var name := CalledName(statement);
        if name == Some(THREAD_START) {
          r := StartNewThread(opts, env, ts, statement.parameters, results);
        } else if name == Some(THREAD_MUTEX_LOCK) {
          r := AddLockStatement(ts, active, statement.parameters, results);
        } else if name == Some(THREAD_MUTEX_UNLOCK) {
          r := RemoveLockStatement(active, statement.parameters, results);
        } else if name == Some(THREAD_JOIN) {
          r := JoinThread(ts, statement.parameters, results);
        } else {
          r := Ok(results);
        }
      case FunctionCallEdge =>
        if opts.useAtomicLocks && CallTakesAtomicLock(edge.successor.functionName) {
          var newResults := AddLock(ts, active, ATOMIC_LOCK, results);
          r := Ok(newResults);
        } else {
          r := Ok(results);
        }
      case FunctionReturnEdge =>
        if opts.useAtomicLocks && ReturnReleasesAtomicLock(edge.predecessor.functionName) {
          var newResults := RemoveLock(active, ATOMIC_LOCK, results);
          r := Ok(newResults);
        } else {
          r := Ok(results);
        }
      case _ =>
        r := Ok(results);
    }
  }

  /** The atomic lock is held by a thread other than the active one. */
  predicate AtomicBlocked(opts: Options, ts: ThreadingState, active: string) {
    opts.useAtomicLocks && HasLock(ts, ATOMIC_LOCK) && !HasLockOf(ts, active, ATOMIC_LOCK)
  }

  /** The edge ends the whole program. */
  predicate EndsProgram(env: Environment, edge: CfaEdge) {
    env.mainExitNode == edge.successor || env.isTerminationNode(edge.successor)
  }

  /** The successors of `edge` once the thread `active` is known to take it:
   *  none inside another thread's atomic section or at the end of the
   *  program; otherwise the wrapped successors, through the local-access
   *  lock when it is on, and then the threading operation. */
  function SuccessorsOf(opts: Options, env: Environment, edge: CfaEdge, ts: ThreadingState, active: string)
    : Result<seq<ThreadingState>, Error>
    requires active in ts.threads && NumsDistinct(ts)
  {
    if AtomicBlocked(opts, ts, active) || EndsProgram(env, edge) then Ok([])
    else
      var here := ts.threads[active];
      var locs, stacks := env.locationSuccessors(here.location, edge), env.callstackSuccessors(here.callstack, edge);
      AllMovesSameThreadNums(ts, active, locs, stacks);
      var moved := AllMoves(ts, active, locs, stacks);
      assert forall i :: 0 <= i < |moved| ==> active in moved[i].threads;
      var results := if opts.useLocalAccessLocks then LocalAccessed(env, edge, ts, active, moved) else moved;
      LocalAccessedSameThreadNums(env, edge, ts, active, moved);
      ThreadingOperation(opts, env, edge, ts, active, results)
  }

  /** The local-access lock changes only locks. */
  lemma LocalAccessedSameThreadNums(env: Environment, edge: CfaEdge, ts: ThreadingState, active: string,
                                    results: seq<ThreadingState>)
    requires active in ts.threads && SameThreadNums(ts, results)
    ensures SameThreadNums(ts, LocalAccessed(env, edge, ts, active, results))
  {
    var r := LocalAccessed(env, edge, ts, active, results);
    forall i | 0 <= i < |r| ensures r[i].threads == results[i].threads { }
  }

  /** `getAbstractSuccessorsForEdge`. Exited threads are removed first; the
   *  edge's thread is found; an atomic section of another thread or the end
   *  of the program leaves no successor; otherwise the wrapped successors
   *  go through the local-access lock and the threading operation. Every
   *  successor keeps the thread numbers distinct, and there is a successor
   *  only when a live thread can take the edge. */
  method GetAbstractSuccessorsForEdge(opts: Options, env: Environment, ts: ThreadingState, edge: CfaEdge)
    returns (r: Result<seq<ThreadingState>, Error>)
    requires NumsDistinct(ts)
    ensures edge.edgeType.MultiEdge? ==> r.Err?
    ensures !edge.edgeType.MultiEdge? && |ActiveThreads(env, edge, AfterExits(opts, env, ts))| != 1 ==> r.Err?
    ensures !edge.edgeType.MultiEdge? ==>
              forall a :: a in ActiveThreads(env, edge, AfterExits(opts, env, ts))
                          && |ActiveThreads(env, edge, AfterExits(opts, env, ts))| == 1 ==>
                r == SuccessorsOf(opts, env, edge, AfterExits(opts, env, ts), a)
    ensures r.Ok? ==> AllNumsDistinct(r.value)
    ensures !edge.edgeType.MultiEdge? && EndsProgram(env, edge) ==> r.Err? || r.value == []
    ensures r.Ok? && r.value != [] ==>
              exists a :: a in ts.threads && !Exits(env, ts, a) && CanTake(env, ts, a, edge) && !AtomicBlocked(opts, ts, a)
  {
    if edge.edgeType.MultiEdge? {
      return Err(IllegalArgument("MultiEdges cannot be supported by ThreadingCPA"));
    }
    var threadingState := ExitThreads(opts, env, ts);
    var activeThread := GetActiveThread(env, edge, threadingState);
    if activeThread.Err? {
      return Err(activeThread.error);
    }
    var active := activeThread.value;
    OnlyActive(env, edge, threadingState, active);
    r := SuccessorsFor(opts, env, edge, threadingState, active);
  }

  /** A thread of a one-element set of active threads is that element. */
  lemma OnlyActive(env: Environment, edge: CfaEdge, ts: ThreadingState, active: string)
    requires active in ActiveThreads(env, edge, ts) && |ActiveThreads(env, edge, ts)| == 1
    ensures forall a :: a in ActiveThreads(env, edge, ts) ==> a == active
  {
    forall a | a in ActiveThreads(env, edge, ts) ensures a == active {
      var others := ActiveThreads(env, edge, ts) - {active};
      assert |others| == 0;
      assert a != active ==> a in others;
    }
  }

  /** The body of `getAbstractSuccessorsForEdge` once the active thread is
   *  known. */
  method SuccessorsFor(opts: Options, env: Environment, edge: CfaEdge, threadingState: ThreadingState, active: string)
    returns (r: Result<seq<ThreadingState>, Error>)
    requires active in threadingState.threads && NumsDistinct(threadingState)
    ensures r == SuccessorsOf(opts, env, edge, threadingState, active)
    ensures r.Ok? ==> AllNumsDistinct(r.value)
    ensures EndsProgram(env, edge) ==> r.Err? || r.value == []
    ensures r.Ok? && r.value != [] ==> !AtomicBlocked(opts, threadingState, active)
  {
    if AtomicBlocked(opts, threadingState, active) {
      return Ok([]);
    }
    if EndsProgram(env, edge) {
      return Ok([]);
    }
    var here := threadingState.threads[active];
    var results := WrappedSuccessors(threadingState, active, env.locationSuccessors(here.location, edge),
                                     env.callstackSuccessors(here.callstack, edge));
    AllMovesSameThreadNums(threadingState, active, env.locationSuccessors(here.location, edge),
                           env.callstackSuccessors(here.callstack, edge));
    if opts.useLocalAccessLocks {
      LocalAccessedSameThreadNums(env, edge, threadingState, active, results);
      results := HandleLocalAccessLock(env, edge, threadingState, active, results);
    }
    r := GetAbstractSuccessorsForEdge0(opts, env, edge, threadingState, active, results);
  }
}
