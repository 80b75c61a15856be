// The abstract state of the threading analysis (cpa/threading/ThreadingState.java):
// an immutable pair of persistent maps, thread id -> thread and lock id -> owner.
module Threading {
  import Sets

  /** A CFA node: its number and the name of the function it belongs to. */
  datatype Node = Node(id: nat, functionName: string)

  /** The callstack state of a thread, as the stack of call-site nodes. */
  type Callstack = seq<Node>

  /** `ThreadState`: the location and callstack of a thread, and its number. */
  datatype ThreadState = ThreadState(location: Node, callstack: Callstack, num: nat)

  datatype ThreadingState = ThreadingState(threads: map<string, ThreadState>, locks: map<string, string>)

  const MIN_THREAD_NUM: nat := 0

  /** `new ThreadingState()`: no threads, no locks. */
  function Initial(): (ts: ThreadingState)
    ensures ts.threads.Keys == {} && ts.locks.Keys == {}
  {
    ThreadingState(map[], map[])
  }

  /** `addThreadAndCopy`: the id must be fresh. */
  function AddThreadAndCopy(ts: ThreadingState, id: string, num: nat, stack: Callstack, loc: Node): (r: ThreadingState)
    requires id !in ts.threads
    ensures r.threads.Keys == ts.threads.Keys + {id}
    ensures r.threads[id] == ThreadState(loc, stack, num)
    ensures forall t :: t in ts.threads ==> r.threads[t] == ts.threads[t]
    ensures r.locks == ts.locks
  {
    ThreadingState(ts.threads[id := ThreadState(loc, stack, num)], ts.locks)
  }

  /** `updateThreadAndCopy`: the id must exist; its number is kept. */
  function UpdateThreadAndCopy(ts: ThreadingState, id: string, stack: Callstack, loc: Node): (r: ThreadingState)
    requires id in ts.threads
    ensures r.threads.Keys == ts.threads.Keys
    ensures r.threads[id] == ThreadState(loc, stack, ts.threads[id].num)
    ensures forall t :: t in ts.threads && t != id ==> r.threads[t] == ts.threads[t]
    ensures r.locks == ts.locks
  {
    ThreadingState(ts.threads[id := ThreadState(loc, stack, ts.threads[id].num)], ts.locks)
  }

  /** `removeThreadAndCopy`: the id must exist; only that id goes. */
  function RemoveThreadAndCopy(ts: ThreadingState, id: string): (r: ThreadingState)
    requires id in ts.threads
    ensures r.threads.Keys == ts.threads.Keys - {id}
    ensures forall t :: t in r.threads ==> r.threads[t] == ts.threads[t]
    ensures r.locks == ts.locks
  {
    ThreadingState(ts.threads - {id}, ts.locks)
  }

  /** `hasLock(lockId)`: some thread holds the lock. */
  predicate HasLock(ts: ThreadingState, lockId: string): (r: bool)
    ensures r <==> exists t :: HasLockOf(ts, t, lockId)
  {
    assert lockId in ts.locks ==> HasLockOf(ts, ts.locks[lockId], lockId);
    lockId in ts.locks
  }

  /** `hasLock(threadId, lockId)`: the given thread holds the lock. */
  predicate HasLockOf(ts: ThreadingState, threadId: string, lockId: string): (r: bool)
    ensures r ==> lockId in ts.locks && threadId in ts.locks.Values
  {
    lockId in ts.locks && ts.locks[lockId] == threadId
  }

  /** `hasLockForThread`: the thread holds at least one lock. */
  predicate HasLockForThread(ts: ThreadingState, threadId: string): (r: bool)
    ensures r <==> exists l :: HasLockOf(ts, threadId, l)
  {
    assert threadId in ts.locks.Values ==> exists l :: l in ts.locks && ts.locks[l] == threadId && HasLockOf(ts, threadId, l);
    threadId in ts.locks.Values
  }

  /** `addLockAndCopy`: the thread must exist; it becomes the lock's owner. */
  function AddLockAndCopy(ts: ThreadingState, threadId: string, lockId: string): (r: ThreadingState)
    requires threadId in ts.threads
    ensures HasLockOf(r, threadId, lockId)
    ensures r.threads == ts.threads
    ensures r.locks.Keys == ts.locks.Keys + {lockId}
    ensures forall l :: l in ts.locks && l != lockId ==> r.locks[l] == ts.locks[l]
  {
    ThreadingState(ts.threads, ts.locks[lockId := threadId])
  }

  /** `removeLockAndCopy`: the thread must exist; the lock entry is removed
   *  whichever thread owns it. */
  function RemoveLockAndCopy(ts: ThreadingState, threadId: string, lockId: string): (r: ThreadingState)
    requires threadId in ts.threads
    ensures !HasLock(r, lockId)
    ensures r.threads == ts.threads
    ensures r.locks.Keys == ts.locks.Keys - {lockId}
    ensures forall l :: l in r.locks ==> r.locks[l] == ts.locks[l]
  {
    ThreadingState(ts.threads, ts.locks - {lockId})
  }

  /** `equals`: both maps agree. */
  predicate StateEquals(a: ThreadingState, b: ThreadingState): (r: bool)
    ensures r <==> a == b
  {
    a.threads == b.threads && a.locks == b.locks
  }

  /** Holding a lock means the lock is held and the thread holds some lock. */
  lemma HasLockOfImplies(ts: ThreadingState, threadId: string, lockId: string)
    requires HasLockOf(ts, threadId, lockId)
    ensures HasLock(ts, lockId) && HasLockForThread(ts, threadId)
  {
    assert ts.locks[lockId] in ts.locks.Values;
  }


  /** The invariant checked by `getThreadNums`: no two threads share a number. */
  predicate NumsDistinct(ts: ThreadingState) {
    forall a, b :: a in ts.threads && b in ts.threads && a != b ==> NumOf(ts, a) != NumOf(ts, b)
  }

  function NumOf(ts: ThreadingState, id: string): nat
    requires id in ts.threads
  {
    ts.threads[id].num
  }

  /** The numbers of all threads. */
  function ThreadNums(ts: ThreadingState): set<nat> {
    set t | t in ts.threads :: ts.threads[t].num
  }

  /** The numbers of the threads in `ids`. */
  function NumsOf(ts: ThreadingState, ids: set<string>): set<nat>
    requires ids <= ts.threads.Keys
  {
    set t | t in ids :: ts.threads[t].num
  }

  /** The loop state of `getThreadNums`: `done` threads are collected into
   *  `result`, `todo` threads are still to do. */
  predicate CollectedNums(ts: ThreadingState, todo: set<string>, done: set<string>, result: set<nat>) {
    todo + done == ts.threads.Keys && todo !! done && result == NumsOf(ts, done) && |result| == |done|
  }

  lemma NumsOfInsert(ts: ThreadingState, done: set<string>, id: string)
    requires done <= ts.threads.Keys && id in ts.threads
    ensures NumsOf(ts, done + {id}) == NumsOf(ts, done) + {ts.threads[id].num}
  {
    var n := ts.threads[id].num;
    forall x | x in NumsOf(ts, done + {id})
      ensures x in NumsOf(ts, done) + {n}
    {
      var t :| t in done + {id} && ts.threads[t].num == x;
      if t != id {
        assert t in done;
      }
    }
    forall x | x in NumsOf(ts, done) + {n}
      ensures x in NumsOf(ts, done + {id})
    {
      if x != n {
        var t :| t in done && ts.threads[t].num == x;
        assert t in done + {id};
      } else {
        assert id in done + {id};
      }
    }
  }

  lemma NumNotCollected(ts: ThreadingState, done: set<string>, id: string)
    requires NumsDistinct(ts) && done <= ts.threads.Keys && id in ts.threads && id !in done
    ensures ts.threads[id].num !in NumsOf(ts, done)
  {
    forall t | t in done
      ensures ts.threads[t].num != ts.threads[id].num
    {
      assert NumOf(ts, t) != NumOf(ts, id);
    }
  }

  lemma CollectNum(ts: ThreadingState, todo: set<string>, done: set<string>, result: set<nat>, id: string)
    requires NumsDistinct(ts) && CollectedNums(ts, todo, done, result) && id in todo
    ensures CollectedNums(ts, todo - {id}, done + {id}, result + {ts.threads[id].num})
  {
    NumsOfInsert(ts, done, id);
    NumNotCollected(ts, done, id);
    assert |result + {ts.threads[id].num}| == |result| + 1;
    assert |done + {id}| == |done| + 1;
  }

  /** `getThreadNums`; `checkState` demands that the numbers are distinct,
   *  which makes the set as large as the thread map. */
  method GetThreadNums(ts: ThreadingState) returns (result: set<nat>)
    requires NumsDistinct(ts)
    ensures result == ThreadNums(ts)
    ensures |result| == |ts.threads|
  {
    assert NumsOf(ts, ts.threads.Keys) == ThreadNums(ts);
    result := {};
    var todo := ts.threads.Keys;
    ghost var done: set<string> := {};
    while todo != {}
      invariant CollectedNums(ts, todo, done, result)
      decreases |todo|
    {
      var id :| id in todo;
      CollectNum(ts, todo, done, result, id);
      result := result + {ts.threads[id].num};
      todo := todo - {id};
      done := done + {id};
    }
    assert done == ts.threads.Keys;
  }

  /** The least number from `k` on that is not in `nums`. */
  function LeastMissingFrom(nums: set<nat>, k: nat): nat
    decreases |set x | x in nums && x >= k|
  {
    if k in nums then
      var next := set x | x in nums && x >= k + 1;
      assert k !in next && next <= set x | x in nums && x >= k;
      Sets.ProperSubsetCard(next, set x | x in nums && x >= k);
      LeastMissingFrom(nums, k + 1)
    else k
  }

  /** The least number from `MIN_THREAD_NUM` on that is not in `nums`. */
  function LeastMissing(nums: set<nat>): nat {
    LeastMissingFrom(nums, MIN_THREAD_NUM)
  }

  lemma {:induction false} LeastMissingFromIsLeast(nums: set<nat>, k: nat)
    requires forall j :: MIN_THREAD_NUM <= j < k ==> j in nums
    ensures LeastMissingFrom(nums, k) !in nums
    ensures forall j :: MIN_THREAD_NUM <= j < LeastMissingFrom(nums, k) ==> j in nums
    decreases |set x | x in nums && x >= k|
  {
    if k in nums {
      var next := set x | x in nums && x >= k + 1;
      assert k !in next && next <= set x | x in nums && x >= k;
      Sets.ProperSubsetCard(next, set x | x in nums && x >= k);
      LeastMissingFromIsLeast(nums, k + 1);
    }
  }

  /** `LeastMissing` is the least unused number. */
  lemma LeastMissingIsLeast(nums: set<nat>)
    ensures LeastMissing(nums) !in nums
    ensures forall j :: MIN_THREAD_NUM <= j < LeastMissing(nums) ==> j in nums
  {
    LeastMissingFromIsLeast(nums, MIN_THREAD_NUM);
  }

  /** `getSmallestMissingThreadNum`: the least number, from `MIN_THREAD_NUM`
   *  on, used by no thread. */
  method GetSmallestMissingThreadNum(ts: ThreadingState) returns (num: nat)
    requires NumsDistinct(ts)
    ensures num == LeastMissing(ThreadNums(ts))
    ensures num !in ThreadNums(ts)
    ensures forall k :: MIN_THREAD_NUM <= k < num ==> k in ThreadNums(ts)
  {
    num := MIN_THREAD_NUM;
    var threadNums := GetThreadNums(ts);
    ghost var above := threadNums;
    while num in threadNums
      invariant forall k :: MIN_THREAD_NUM <= k < num ==> k in threadNums
      invariant LeastMissingFrom(threadNums, num) == LeastMissing(threadNums)
      invariant above == set k | k in threadNums && k >= num
      decreases |above|
    {
      var next := set k | k in threadNums && k >= num + 1;
      assert num in above && num !in next && next <= above;
      Sets.ProperSubsetCard(next, above);
      num := num + 1;
      above := next;
    }
  }

  /** Adding a thread under a number nobody uses keeps the numbers distinct. */
  lemma AddThreadKeepsNumsDistinct(ts: ThreadingState, id: string, num: nat, stack: Callstack, loc: Node)
    requires NumsDistinct(ts) && id !in ts.threads && num !in ThreadNums(ts)
    ensures NumsDistinct(AddThreadAndCopy(ts, id, num, stack, loc))
  {
    var r := AddThreadAndCopy(ts, id, num, stack, loc);
    forall a, b | a in r.threads && b in r.threads && a != b
      ensures r.threads[a].num != r.threads[b].num
    {
      if a == id {
        assert ts.threads[b].num in ThreadNums(ts);
      } else if b == id {
        assert ts.threads[a].num in ThreadNums(ts);
      }
    }
  }

  /** Updates, removals and lock changes keep the numbers distinct. */
  lemma UpdateKeepsNumsDistinct(ts: ThreadingState, id: string, stack: Callstack, loc: Node)
    requires NumsDistinct(ts) && id in ts.threads
    ensures NumsDistinct(UpdateThreadAndCopy(ts, id, stack, loc))
  {
    var r := UpdateThreadAndCopy(ts, id, stack, loc);
    assert forall t :: t in r.threads ==> r.threads[t].num == ts.threads[t].num;
  }

  lemma RemoveKeepsNumsDistinct(ts: ThreadingState, id: string)
    requires NumsDistinct(ts) && id in ts.threads
    ensures NumsDistinct(RemoveThreadAndCopy(ts, id))
  {
  }
}
