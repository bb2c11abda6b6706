/**
 * The queue and counter bookkeeping of the task-stealing pool (Threadpool.py),
 * as a sequential state machine. Queue 0 is the main queue; queue i + 1
 * belongs to worker i. The thread-local worker id of the source is the
 * explicit `caller` / `worker` parameter.
 */
module Threadpool {
  import opened Wrappers

  /** Outcome of a decrement: done, or the `ValueError` the source raises. */
  datatype Status = Ok | ValueError

  /** `MutexCounter`: an integer guarded by a lock; the lock plays no part in a sequential run. */
  class MutexCounter {
    var counter: int

    constructor(value: int)
      ensures counter == value
    {
      counter := value;
    }

    method Get() returns (v: int)
      ensures v == counter
    {
      v := counter;
    }

    method GetNowait() returns (v: int)
      ensures v == counter
    {
      v := counter;
    }

    /** Refuses to go below 0: at 0 (or below) it raises and leaves the value as it was. */
    method Decrement() returns (s: Status)
      modifies this
      ensures s == Ok <==> old(counter) > 0
      ensures counter == if s == Ok then old(counter) - 1 else old(counter)
      ensures old(counter) >= 0 ==> counter >= 0
    {
      s := DecrementNowait();
    }

    method DecrementNowait() returns (s: Status)
      modifies this
      ensures s == Ok <==> old(counter) > 0
      ensures counter == if s == Ok then old(counter) - 1 else old(counter)
      ensures old(counter) >= 0 ==> counter >= 0
    {
      var v := counter - 1;
      if v < 0 {
        return ValueError;
      }
      counter := counter - 1;
      s := Ok;
    }

    method Increment()
      modifies this
      ensures counter == old(counter) + 1
    {
      IncrementNowait();
    }

    method IncrementNowait()
      modifies this
      ensures counter == old(counter) + 1
    {
      counter := counter + 1;
    }
  }

  /** The number of tasks waiting in all queues. */
  function Total<T>(queues: seq<seq<T>>): nat {
    if queues == [] then 0 else |queues[0]| + Total(queues[1..])
  }

  /** The tasks waiting in all queues, as a bag. */
  ghost function Pending<T>(queues: seq<seq<T>>): multiset<T> {
    if queues == [] then multiset{} else multiset(queues[0]) + Pending(queues[1..])
  }

  /** Replacing one queue changes the total by the difference in that queue's length. */
  lemma {:induction false} TotalUpdate<T>(queues: seq<seq<T>>, i: nat, q: seq<T>)
    requires i < |queues|
    ensures Total(queues[i := q]) == Total(queues) - |queues[i]| + |q|
  {
    if i > 0 {
      TotalUpdate(queues[1..], i - 1, q);
      assert queues[i := q][1..] == queues[1..][i - 1 := q];
    }
  }

  /** Replacing one queue changes the pending tasks by exactly what that queue gains and loses. */
  lemma {:induction false} PendingUpdate<T>(queues: seq<seq<T>>, i: nat, q: seq<T>)
    requires i < |queues|
    ensures Pending(queues[i := q]) + multiset(queues[i]) == Pending(queues) + multiset(q)
  {
    var updated := queues[i := q];
    assert Pending(updated) == multiset(updated[0]) + Pending(updated[1..]);
    assert Pending(queues) == multiset(queues[0]) + Pending(queues[1..]);
    if i > 0 {
      PendingUpdate(queues[1..], i - 1, q);
      assert updated[1..] == queues[1..][i - 1 := q];
      assert queues[1..][i - 1] == queues[i];
      assert updated[0] == queues[0];
      calc {
        Pending(updated) + multiset(queues[i]);
        multiset(queues[0]) + (Pending(updated[1..]) + multiset(queues[i]));
        multiset(queues[0]) + (Pending(queues[1..]) + multiset(q));
        Pending(queues) + multiset(q);
      }
    } else {
      assert updated[1..] == queues[1..];
    }
  }

  /** A bag added to both sides can be taken away again. */
  lemma Cancel<T>(a: multiset<T>, b: multiset<T>, c: multiset<T>)
    requires a + c == b + c
    ensures a == b
  {
    forall y ensures a[y] == b[y] {
      assert (a + c)[y] == (b + c)[y];
    }
  }

  /** The total is 0 exactly when every queue is empty. */
  lemma {:induction false} TotalZero<T>(queues: seq<seq<T>>)
    ensures Total(queues) == 0 <==> forall j :: 0 <= j < |queues| ==> queues[j] == []
  {
    if queues != [] {
      TotalZero(queues[1..]);
      assert forall j :: 1 <= j < |queues| ==> queues[j] == queues[1..][j - 1];
    }
  }

  /** The lowest index of a non-empty queue, or |queues| when all are empty. */
  function FirstNonEmpty<T>(queues: seq<seq<T>>): (i: nat)
    ensures i <= |queues|
    ensures forall j :: 0 <= j < i ==> queues[j] == []
    ensures i < |queues| ==> queues[i] != []
  {
    if queues == [] then 0
    else if queues[0] != [] then 0
    else 1 + FirstNonEmpty(queues[1..])
  }

  /**
   * The dequeue policy of worker `w`: the front of its own queue if that is
   * non-empty, else the back of the lowest-indexed non-empty queue, else
   * nothing. Gives the task taken and the queues afterwards.
   */
  function TakeNext<T>(queues: seq<seq<T>>, w: nat): (Option<T>, seq<seq<T>>)
    requires w + 1 < |queues|
  {
    var own := queues[w + 1];
    if own != [] then (Some(own[0]), queues[w + 1 := own[1..]])
    else
      var i := FirstNonEmpty(queues);
      if i == |queues| then (None, queues)
      else
        var q := queues[i];
        (Some(q[|q| - 1]), queues[i := q[..|q| - 1]])
  }

  /** Nothing is taken exactly when every queue is empty, and then nothing changes. */
  lemma TakeNextNone<T>(queues: seq<seq<T>>, w: nat)
    requires w + 1 < |queues|
    ensures TakeNext(queues, w).0.None? <==> Total(queues) == 0
    ensures TakeNext(queues, w).0.None? ==> TakeNext(queues, w).1 == queues
  {
    TotalZero(queues);
  }

  /** Taking the element at `k` out of queue `i` removes exactly one task, that element. */
  lemma RemoveOne<T>(queues: seq<seq<T>>, i: nat, k: nat, rest: seq<T>)
    requires i < |queues| && k < |queues[i]|
    requires rest == queues[i][..k] + queues[i][k + 1..]
    ensures Total(queues[i := rest]) == Total(queues) - 1
    ensures Pending(queues[i := rest]) + multiset{queues[i][k]} == Pending(queues)
  {
    var q := queues[i];
    assert q == q[..k] + [q[k]] + q[k + 1..];
    assert multiset(q) == multiset(rest) + multiset{q[k]};
    TotalUpdate(queues, i, rest);
    PendingUpdate(queues, i, rest);
    Cancel(Pending(queues[i := rest]) + multiset{q[k]}, Pending(queues), multiset(rest));
  }

  /** A task that is taken leaves the queues: one task fewer, and exactly that task. */
  lemma TakeNextConserves<T>(queues: seq<seq<T>>, w: nat)
    requires w + 1 < |queues|
    requires TakeNext(queues, w).0.Some?
    ensures Total(TakeNext(queues, w).1) == Total(queues) - 1
    ensures Pending(TakeNext(queues, w).1) + multiset{TakeNext(queues, w).0.value} == Pending(queues)
  {
    var own := queues[w + 1];
    if own != [] {
      assert own[1..] == own[..0] + own[1..];
      RemoveOne(queues, w + 1, 0, own[1..]);
    } else {
      var i := FirstNonEmpty(queues);
      var q := queues[i];
      assert q[..|q| - 1] == q[..|q| - 1] + q[|q|..];
      RemoveOne(queues, i, |q| - 1, q[..|q| - 1]);
    }
  }

  /** Only the queue the task came from changes. */
  lemma TakeNextFrame<T>(queues: seq<seq<T>>, w: nat, j: nat)
    requires w + 1 < |queues| && j < |queues|
    requires queues[w + 1] == [] && j != FirstNonEmpty(queues)
    ensures TakeNext(queues, w).1[j] == queues[j]
  {
  }

  class ThreadPool<Task> {
    /** `__task_queues`: the main queue, then one queue per worker. */
    var taskQueues: seq<seq<Task>>
    const tcount: nat
    /** `__num_tasks`: the tasks remaining. */
    const numTasks: MutexCounter

    /** In a sequential run the counter is the number of queued tasks. */
    ghost predicate Valid()
      reads this, numTasks
    {
      |taskQueues| == tcount + 1 && numTasks.counter == Total(taskQueues)
    }

    /** `__init__`: `tcount + 1` empty queues and a counter at 0. */
    constructor(tcount: nat)
      ensures Valid() && fresh(numTasks)
      ensures this.tcount == tcount
      ensures |taskQueues| == tcount + 1 && forall i :: 0 <= i < |taskQueues| ==> taskQueues[i] == []
      ensures numTasks.counter == 0
    {
      var queues: seq<seq<Task>> := [];
      for i := 0 to tcount + 1
        invariant |queues| == i && forall j :: 0 <= j < i ==> queues[j] == []
      {
        queues := queues + [[]];
      }
      taskQueues := queues;
      this.tcount := tcount;
      numTasks := new MutexCounter(0);
      new;
      TotalZero(taskQueues);
    }

    /**
     * `enqueue`: from outside the pool (`caller == None`) the task goes to the
     * back of the main queue; from worker i it goes to the front of queue i + 1.
     * Either way the counter grows by one.
     */
    method Enqueue(task: Task, caller: Option<nat>)
      requires Valid()
      requires caller.Some? ==> caller.value < tcount
      modifies this, numTasks
      ensures Valid()
      ensures caller.None? ==> taskQueues == old(taskQueues)[0 := old(taskQueues)[0] + [task]]
      ensures caller.Some? ==>
        taskQueues == old(taskQueues)[caller.value + 1 := [task] + old(taskQueues)[caller.value + 1]]
      ensures numTasks.counter == old(numTasks.counter) + 1
      ensures Pending(taskQueues) == old(Pending(taskQueues)) + multiset{task}
    {
      var i := if caller.None? then 0 else caller.value + 1;
      var q := if caller.None? then taskQueues[0] + [task] else [task] + taskQueues[i];
      TotalUpdate(taskQueues, i, q);
      PendingUpdate(taskQueues, i, q);
      assert multiset(q) == multiset(taskQueues[i]) + multiset{task};
      Cancel(Pending(taskQueues[i := q]), Pending(taskQueues) + multiset{task}, multiset(taskQueues[i]));
      taskQueues := taskQueues[i := q];
      numTasks.Increment();
    }

    /**
     * The dequeue step of worker `worker` (`TaskThread.run`): its own queue's
     * front, else steal from the back of the first non-empty queue; a task that
     * was taken is counted off. `None` is the "no task" case, after which the
     * source's worker broadcasts and exits.
     */
    method Dequeue(worker: nat) returns (task: Option<Task>)
      requires Valid() && worker < tcount
      modifies this, numTasks
      ensures Valid()
      ensures (task, taskQueues) == TakeNext(old(taskQueues), worker)
      ensures numTasks.counter == old(numTasks.counter) - (if task.Some? then 1 else 0)
    {
      task := None;
      var own := taskQueues[worker + 1];
      if |own| > 0 {
        task := Some(own[0]);
        taskQueues := taskQueues[worker + 1 := own[1..]];
      }
      var curr := 0;
      while task.None? && curr < |taskQueues|
        invariant 0 <= curr <= |taskQueues| == tcount + 1
        invariant task.None? ==> taskQueues == old(taskQueues)
        invariant task.None? ==> forall j :: 0 <= j < curr ==> taskQueues[j] == []
        invariant task.Some? ==> (task, taskQueues) == TakeNext(old(taskQueues), worker)
        invariant numTasks.counter == old(numTasks.counter)
      {
        if |taskQueues[curr]| > 0 {
          var q := taskQueues[curr];
          task := Some(q[|q| - 1]);
          taskQueues := taskQueues[curr := q[..|q| - 1]];
        }
        curr := curr + 1;
      }
      if task.None? {
        TakeNextNone(old(taskQueues), worker);
        return;
      }
      TakeNextNone(old(taskQueues), worker);
      TakeNextConserves(old(taskQueues), worker);
      var s := numTasks.Decrement();
    }

    /** `get_qsize`: the counter, which is the number of queued tasks. */
    method GetQsize() returns (n: int)
      requires Valid()
      ensures n == Total(taskQueues)
    {
      n := numTasks.Get();
    }
  }
}
