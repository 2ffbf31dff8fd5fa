/** The list engine: the global `tdlist list`, two parallel arrays `tasks`
    and `done` of `capacity` slots of which the first `len` are in use. */
module TaskStore {
  import opened CTypes
  import opened Entries

  /** Pairs up parallel sequences of texts and flags. */
  function Zip(ts: seq<seq<Byte>>, ds: seq<bool>): (es: seq<Entry>)
    requires |ts| == |ds|
    ensures |es| == |ts|
    ensures forall i :: 0 <= i < |ts| ==> es[i] == Entry(ts[i], ds[i])
  {
    seq(|ts|, i requires 0 <= i < |ts| => Entry(ts[i], ds[i]))
  }

  /** Where `add_task(task, done, at)` puts the new entry in a list of
      `len` entries: at the end for -1, for `len`, and whenever the list is
      empty; at `at` otherwise. */
  function InsertIndex(at: int, len: nat): (i: nat)
    requires len == 0 || -1 <= at <= len
    ensures i <= len
    ensures i == len <==> (at == -1 || at == len || len == 0)
    ensures 0 <= at <= len && len != 0 ==> i == at
  {
    if at == -1 || at == len || len == 0 then len else at
  }

  /** Inserting into both parallel sequences at the same index inserts the
      pair into the zipped sequence. */
  lemma ZipInsert(ts: seq<seq<Byte>>, ds: seq<bool>, ts': seq<seq<Byte>>, ds': seq<bool>, i: nat, t: seq<Byte>, d: bool)
    requires |ts| == |ds| && |ts'| == |ds'| == |ts| + 1 && i <= |ts|
    requires ts'[i] == t && ds'[i] == d
    requires forall k :: 0 <= k < i ==> ts'[k] == ts[k] && ds'[k] == ds[k]
    requires forall k :: i < k < |ts'| ==> ts'[k] == ts[k - 1] && ds'[k] == ds[k - 1]
    ensures Zip(ts', ds') == InsertAt(Zip(ts, ds), Entry(t, d), i)
  {
    var r := InsertAt(Zip(ts, ds), Entry(t, d), i);
    forall k | 0 <= k < |ts'| ensures Zip(ts', ds')[k] == r[k] {
    }
  }

  /** Deleting the same index from both parallel sequences deletes the pair
      from the zipped sequence. */
  lemma ZipRemove(ts: seq<seq<Byte>>, ds: seq<bool>, ts': seq<seq<Byte>>, ds': seq<bool>, i: nat)
    requires |ts| == |ds| && i < |ts| && |ts'| == |ds'| == |ts| - 1
    requires forall k :: 0 <= k < i ==> ts'[k] == ts[k] && ds'[k] == ds[k]
    requires forall k :: i <= k < |ts'| ==> ts'[k] == ts[k + 1] && ds'[k] == ds[k + 1]
    ensures Zip(ts', ds') == RemoveAt(Zip(ts, ds), i)
  {
    var r := RemoveAt(Zip(ts, ds), i);
    forall k | 0 <= k < |ts'| ensures Zip(ts', ds')[k] == r[k] {
    }
  }

  class TaskList {
    var tasks: array<seq<Byte>>
    var done: array<bool>
    var len: nat
    var capacity: nat

    /** Both arrays have `capacity` slots, at least one, and the entries in
        use fit in them. */
    ghost predicate Valid()
      reads this
    {
      tasks.Length == capacity && done.Length == capacity &&
      1 <= capacity && len <= capacity
    }

    /** The entries in use, text and flag side by side. */
    ghost function Contents(): (es: seq<Entry>)
      reads this, tasks, done
      requires Valid()
      ensures |es| == len
    {
      Zip(tasks[..len], done[..len])
    }

    /** `init_list`: an empty list with room for one entry. */
    constructor ()
      ensures Valid() && fresh(tasks) && fresh(done)
      ensures capacity == 1 && len == 0 && Contents() == []
    {
      len := 0;
      capacity := 1;
      tasks := new seq<Byte>[1];
      done := new bool[1];
    }

    /** `add_task(task, d, at)`: double the capacity when the list is full,
        then put the entry at `InsertIndex(at, len)`, moving the entries
        from there on up by one. */
    method AddTask(task: seq<Byte>, d: bool, at: int)
      requires Valid()
      requires len == 0 || -1 <= at <= len
      modifies this, tasks, done
      ensures Valid()
      ensures len == old(len) + 1
      ensures capacity == if old(len) >= old(capacity) then 2 * old(capacity) else old(capacity)
      ensures old(len) < old(capacity) ==> tasks == old(tasks) && done == old(done)
      ensures old(len) >= old(capacity) ==> fresh(tasks) && fresh(done)
      ensures Contents() == InsertAt(old(Contents()), Entry(task, d), InsertIndex(at, old(len)))
    {
      if len >= capacity {
        Grow();
      }
      Place(task, d, at);
    }

    /** The second half of `add_task`, with a free slot: the entry is written
        at the end, or the entries from `at` on move up and it is written at
        `at`. */
    method Place(task: seq<Byte>, d: bool, at: int)
      requires Valid() && len < capacity
      requires len == 0 || -1 <= at <= len
      modifies this, tasks, done
      ensures Valid() && tasks == old(tasks) && done == old(done) && capacity == old(capacity)
      ensures len == old(len) + 1
      ensures Contents() == InsertAt(old(Contents()), Entry(task, d), InsertIndex(at, old(len)))
    {
      ghost var ts, ds := tasks[..len], done[..len];
      ghost var i := InsertIndex(at, len);
      if at == -1 || at == len as int || len == 0 {
        tasks[len] := task;
        done[len] := d;
      } else {
        ShiftUp(at);
        tasks[at] := task;
        done[at] := d;
      }
      ZipInsert(ts, ds, tasks[..len + 1], done[..len + 1], i, task, d);
      len := len + 1;
    }

    /** The `realloc` of both arrays to twice the capacity; the old slots
        are carried over. */
    method Grow()
      requires Valid()
      modifies this
      ensures Valid() && fresh(tasks) && fresh(done)
      ensures len == old(len) && capacity == 2 * old(capacity)
      ensures tasks[..old(capacity)] == old(tasks[..]) && done[..old(capacity)] == old(done[..])
      ensures Contents() == old(Contents())
    {
      var newTasks := new seq<Byte>[2 * capacity];
      var newDone := new bool[2 * capacity];
      var i := 0;
      while i < capacity
        invariant tasks == old(tasks) && done == old(done) && capacity == old(capacity) && len == old(len)
        invariant 0 <= i <= capacity
        invariant forall k :: 0 <= k < i ==> newTasks[k] == tasks[k] && newDone[k] == done[k]
      {
        newTasks[i] := tasks[i];
        newDone[i] := done[i];
        i := i + 1;
      }
      assert newTasks[..capacity] == tasks[..];
      assert newDone[..capacity] == done[..];
      assert newTasks[..len] == tasks[..len];
      assert newDone[..len] == done[..len];
      tasks, done := newTasks, newDone;
      capacity := 2 * capacity;
    }

    /** The `memmove` of `add_task`: slots `at .. len - 1` move to
        `at + 1 .. len`; slot `at` keeps its old value. */
    method ShiftUp(at: nat)
      requires Valid() && at < len < capacity
      modifies tasks, done
      ensures forall k :: 0 <= k <= at ==> tasks[k] == old(tasks[k]) && done[k] == old(done[k])
      ensures forall k :: at < k <= len ==> tasks[k] == old(tasks[k - 1]) && done[k] == old(done[k - 1])
    {
      var i := len;
      while i > at
        invariant at <= i <= len
        invariant forall k :: 0 <= k <= i ==> tasks[k] == old(tasks[k]) && done[k] == old(done[k])
        invariant forall k :: i < k <= len ==> tasks[k] == old(tasks[k - 1]) && done[k] == old(done[k - 1])
      {
        tasks[i] := tasks[i - 1];
        done[i] := done[i - 1];
        i := i - 1;
      }
    }

    /** `remove_task(at)`: entries after `at` move down by one. */
    method RemoveTask(at: int)
      requires Valid() && 0 <= at < len
      modifies this, tasks, done
      ensures Valid() && tasks == old(tasks) && done == old(done)
      ensures len == old(len) - 1 && capacity == old(capacity)
      ensures Contents() == RemoveAt(old(Contents()), at)
    {
      ghost var ts, ds := tasks[..len], done[..len];
      var i := at;
      while i < len - 1
        invariant Valid() && tasks == old(tasks) && done == old(done) && len == old(len)
        invariant at <= i <= len - 1
        invariant forall k :: 0 <= k < at ==> tasks[k] == ts[k] && done[k] == ds[k]
        invariant forall k :: at <= k < i ==> tasks[k] == ts[k + 1] && done[k] == ds[k + 1]
        invariant forall k :: i < k < len ==> tasks[k] == ts[k] && done[k] == ds[k]
      {
        tasks[i] := tasks[i + 1];
        done[i] := done[i + 1];
        i := i + 1;
      }
      ZipRemove(ts, ds, tasks[..len - 1], done[..len - 1], at);
      len := len - 1;
    }

    /** `swap_task_up(at)`: entries `at - 1` and `at` trade places, text and
        flag together; nothing happens for 0. */
    method SwapTaskUp(at: int)
      requires Valid() && 0 <= at < len
      modifies tasks, done
      ensures Contents() == SwapUp(old(Contents()), at)
    {
      ghost var before := Contents();
      if at == 0 {
        return;
      }
      var tmp := tasks[at - 1];
      var doneTmp := done[at - 1];
      tasks[at - 1] := tasks[at];
      done[at - 1] := done[at];
      tasks[at] := tmp;
      done[at] := doneTmp;
      ghost var r := SwapUp(before, at);
      assert |Contents()| == |r|;
      forall k | 0 <= k < len ensures Contents()[k] == r[k] { }
    }

    /** `list.done[at] ^= true`. */
    method ToggleDone(at: nat)
      requires Valid() && at < len
      modifies done
      ensures Contents() == old(Contents())[at := Entry(old(Contents())[at].text, !old(Contents())[at].done)]
    {
      done[at] := !done[at];
    }

    /** The in-place edit of `tasks[at]` by `edit_task`: the entry's text
        becomes `text`. */
    method SetText(at: nat, text: seq<Byte>)
      requires Valid() && at < len
      modifies tasks
      ensures Contents() == old(Contents())[at := Entry(text, old(Contents())[at].done)]
    {
      tasks[at] := text;
    }
  }
}
