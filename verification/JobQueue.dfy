/** The task queue of the thread pool: a list linked from the newest task to the
    oldest, changed under one lock. */
module JobQueue {

  /** A queued task; `func` is absent in the tasks that stop a worker. */
  class Task {
    const func: bool
    const future: nat
    var next: Task?

    constructor (func: bool, future: nat)
      ensures this.func == func && this.future == future
    {
      this.func, this.future := func, future;
    }
  }

  class Queue {
    var head: Task?
    var tail: Task?
    ghost var items: seq<Task>

    /** The links of the queued tasks, newest first.  The oldest task's own link
        is not set and not looked at. */
    ghost predicate Valid()
      reads this, items
    {
      && (items == [] ==> head == null && tail == null)
      && (items != [] ==> head == items[0] && tail == items[|items| - 1])
      && (forall i, j :: 0 <= i < j < |items| ==> items[i] != items[j])
      && (forall i, j :: 0 <= i < |items| && j == i + 1 < |items| ==> items[i].next == items[j])
    }

    constructor ()
      ensures Valid() && items == []
    {
      head, tail, items := null, null, [];
    }

    /** Put a task in front.  Sleeping workers are woken exactly when the queue
        was empty. */
    method Push(task: Task) returns (broadcast: bool)
      requires Valid() && task !in items
      modifies this, task
      ensures Valid() && items == [task] + old(items) && (broadcast <==> old(items) == [])
    {
      assert forall i :: 0 <= i < |items| ==> items[i] in items;
      if head != null {
        task.next := head;
        head := task;
        broadcast := false;
      } else {
        head, tail := task, task;
        broadcast := true;
      }
      items := [task] + items;
    }

    /** Take the oldest task, walking from the newest to the one before it. */
    method Fetch() returns (task: Task)
      requires Valid() && items != []
      modifies this, items
      ensures Valid() && task == old(items)[|old(items)| - 1] && items == old(items)[..|old(items)| - 1]
    {
      ghost var n := |items|;
      if head == tail {
        task := tail;
        head, tail := null, null;
        assert items[0] == items[n - 1];
        items := [];
      } else {
        var tmp := head;
        ghost var k := 0;
        while tmp.next != tail
          invariant 0 <= k < n - 1 && tmp == items[k] && items[k].next == items[k + 1]
          decreases n - k
        {
          assert items[k + 1] != items[n - 1];
          tmp := tmp.next;
          k := k + 1;
          assert items[k].next == items[k + 1];
        }
        task := tmp.next;
        assert k + 1 == n - 1;
        tmp.next := null;
        tail := tmp;
        items := items[..n - 1];
      }
    }
  }
}
