/** The abstract value of the task list: a sequence of entries, each a task
    text and its done flag, with the divider convention and the counting
    functions (`num_tasks`, `num_tasks_done`, `adjust_pos`), and the three
    edits the list engine performs on it. */
module Entries {
  import opened CTypes

  /** `div_magic_char`: a text starting with this byte is a divider. */
  const DIV_MAGIC: Byte := 7 as char

  datatype Entry = Entry(text: seq<Byte>, done: bool)

  /** `tasks[i][0] == div_magic_char`; for an empty text the byte read is
      the terminator, so an empty text is an ordinary task. */
  predicate IsDivider(text: seq<Byte>) {
    |text| > 0 && text[0] == DIV_MAGIC
  }

  /** `num_tasks`: the number of entries that are not dividers. */
  function NumTasks(es: seq<Entry>): (n: nat)
    ensures n <= |es|
  {
    if es == [] then 0
    else NumTasks(es[..|es| - 1]) + (if IsDivider(es[|es| - 1].text) then 0 else 1)
  }

  /** `num_tasks_done`: the number of done entries that are not dividers. */
  function NumTasksDone(es: seq<Entry>): (n: nat)
    ensures n <= NumTasks(es)
  {
    if es == [] then 0
    else
      var last := es[|es| - 1];
      NumTasksDone(es[..|es| - 1]) + (if last.done && !IsDivider(last.text) then 1 else 0)
  }

  /** `adjust_pos(p)`: the number of non-divider entries before index `p`,
      which is the ordinal shown (counting from 0) next to entry `p`. */
  function AdjustPos(es: seq<Entry>, p: nat): (n: nat)
    requires p <= |es|
    ensures n <= p
  {
    NumTasks(es[..p])
  }

  /** The indices of the non-divider entries: an independent description
      of what `NumTasks` counts. */
  function TaskIndices(es: seq<Entry>): set<nat> {
    set i: nat | i < |es| && !IsDivider(es[i].text)
  }

  /** The indices of the divider entries. */
  function DividerIndices(es: seq<Entry>): set<nat> {
    set i: nat | i < |es| && IsDivider(es[i].text)
  }

  // ---------------------------------------------------------------------
  // The three edits of the list engine, on the abstract value.

  /** Insertion at index `i`: entries from `i` on move up by one. */
  function InsertAt(es: seq<Entry>, e: Entry, i: nat): (r: seq<Entry>)
    requires i <= |es|
    ensures |r| == |es| + 1 && r[i] == e
    ensures forall k :: 0 <= k < i ==> r[k] == es[k]
    ensures forall k :: i < k < |r| ==> r[k] == es[k - 1]
  {
    es[..i] + [e] + es[i..]
  }

  /** Deletion of index `i`: entries after `i` move down by one. */
  function RemoveAt(es: seq<Entry>, i: nat): (r: seq<Entry>)
    requires i < |es|
    ensures |r| == |es| - 1
    ensures forall k :: 0 <= k < i ==> r[k] == es[k]
    ensures forall k :: i <= k < |r| ==> r[k] == es[k + 1]
  {
    es[..i] + es[i + 1..]
  }

  /** `swap_task_up(i)`: entry `i` trades places with entry `i - 1`; at 0
      nothing happens. */
  function SwapUp(es: seq<Entry>, i: nat): (r: seq<Entry>)
    requires i < |es|
    ensures |r| == |es|
    ensures i == 0 ==> r == es
    ensures i > 0 ==> r[i - 1] == es[i] && r[i] == es[i - 1]
    ensures forall k :: 0 <= k < |es| && k != i && k != i - 1 ==> r[k] == es[k]
  {
    if i == 0 then es else es[i - 1 := es[i]][i := es[i - 1]]
  }

  // ---------------------------------------------------------------------
  // Counting.

  /** Counting is additive over concatenation. */
  lemma {:induction false} NumTasksAppend(a: seq<Entry>, b: seq<Entry>)
    ensures NumTasks(a + b) == NumTasks(a) + NumTasks(b)
    ensures NumTasksDone(a + b) == NumTasksDone(a) + NumTasksDone(b)
  {
    if b != [] {
      var b' := b[..|b| - 1];
      assert (a + b)[..|a + b| - 1] == a + b';
      assert (a + b)[|a + b| - 1] == b[|b| - 1];
      NumTasksAppend(a, b');
    } else {
      assert a + b == a;
    }
  }

  /** `NumTasks` counts exactly the non-divider indices, and together with
      the dividers they make up the whole list. */
  lemma {:induction false} NumTasksIsCount(es: seq<Entry>)
    ensures NumTasks(es) == |TaskIndices(es)|
    ensures NumTasks(es) == |es| - |DividerIndices(es)|
  {
    if es == [] {
      assert TaskIndices(es) == {};
      assert DividerIndices(es) == {};
    } else {
      var n := |es| - 1;
      NumTasksIsCount(es[..n]);
      IndicesSnoc(es);
    }
  }

  /** The index sets of a list are those of the list without its last
      entry, plus that entry's index in the set it belongs to. */
  lemma IndicesSnoc(es: seq<Entry>)
    requires es != []
    ensures var n := |es| - 1;
      if IsDivider(es[n].text) then
        |TaskIndices(es)| == |TaskIndices(es[..n])| && |DividerIndices(es)| == |DividerIndices(es[..n])| + 1
      else
        |TaskIndices(es)| == |TaskIndices(es[..n])| + 1 && |DividerIndices(es)| == |DividerIndices(es[..n])|
  {
    var n := |es| - 1;
    var init := es[..n];
    assert forall i :: 0 <= i < n ==> init[i] == es[i];
    assert n !in TaskIndices(init) && n !in DividerIndices(init);
    if IsDivider(es[n].text) {
      assert TaskIndices(es) == TaskIndices(init);
      assert DividerIndices(es) == DividerIndices(init) + {n};
    } else {
      assert TaskIndices(es) == TaskIndices(init) + {n};
      assert DividerIndices(es) == DividerIndices(init);
    }
  }

  /** Same as the list engine's counts: `num_tasks_done <= num_tasks <= len`. */
  lemma CountBounds(es: seq<Entry>)
    ensures NumTasksDone(es) <= NumTasks(es) <= |es|
  {
  }

  /** Every entry that is not a divider is done. */
  predicate AllTasksDone(es: seq<Entry>) {
    forall i :: 0 <= i < |es| && !IsDivider(es[i].text) ==> es[i].done
  }

  /** `num_tasks_done` reaches `num_tasks` exactly when every task is done. */
  lemma {:induction false} FullCountIsAllDone(es: seq<Entry>)
    ensures NumTasksDone(es) == NumTasks(es) <==> AllTasksDone(es)
    decreases |es|
  {
    if es != [] {
      var init, last := es[..|es| - 1], es[|es| - 1];
      FullCountIsAllDone(init);
      assert forall i :: 0 <= i < |init| ==> init[i] == es[i];
      if AllTasksDone(es) {
        assert AllTasksDone(init);
      } else if AllTasksDone(init) {
        assert !last.done && !IsDivider(last.text);
      }
    }
  }

  /** `adjust_pos` at the end of the list is `num_tasks`. */
  lemma AdjustPosAtEnd(es: seq<Entry>)
    ensures AdjustPos(es, |es|) == NumTasks(es)
  {
    assert es[..|es|] == es;
  }

  /** Across entry `p`, `adjust_pos` grows by one for a task, by nothing
      for a divider. */
  lemma AdjustPosStep(es: seq<Entry>, p: nat)
    requires p < |es|
    ensures AdjustPos(es, p + 1) == AdjustPos(es, p) + (if IsDivider(es[p].text) then 0 else 1)
  {
    assert es[..p + 1][..p] == es[..p];
  }

  /** `adjust_pos` never decreases. */
  lemma {:induction false} AdjustPosMonotone(es: seq<Entry>, p: nat, q: nat)
    requires p <= q <= |es|
    ensures AdjustPos(es, p) <= AdjustPos(es, q)
  {
    if p < q {
      AdjustPosMonotone(es, p, q - 1);
      AdjustPosStep(es, q - 1);
    }
  }

  /** Dividers do not consume numbers: two different tasks get different
      numbers, and every number shown (counting from 1) is at most the number
      of tasks. */
  lemma OrdinalsDistinct(es: seq<Entry>, p: nat, q: nat)
    requires p < q < |es|
    requires !IsDivider(es[p].text)
    ensures AdjustPos(es, p) < AdjustPos(es, q)
  {
    AdjustPosStep(es, p);
    AdjustPosMonotone(es, p + 1, q);
  }

  lemma OrdinalBound(es: seq<Entry>, p: nat)
    requires p < |es| && !IsDivider(es[p].text)
    ensures AdjustPos(es, p) + 1 <= NumTasks(es)
  {
    AdjustPosStep(es, p);
    AdjustPosMonotone(es, p + 1, |es|);
    AdjustPosAtEnd(es);
  }

  // ---------------------------------------------------------------------
  // The edits and the counts.

  /** Inserting an entry adds one task unless it is a divider. */
  lemma InsertCounts(es: seq<Entry>, e: Entry, i: nat)
    requires i <= |es|
    ensures NumTasks(InsertAt(es, e, i)) == NumTasks(es) + (if IsDivider(e.text) then 0 else 1)
    ensures NumTasksDone(InsertAt(es, e, i))
         == NumTasksDone(es) + (if e.done && !IsDivider(e.text) then 1 else 0)
  {
    assert es == es[..i] + es[i..];
    NumTasksAppend(es[..i], es[i..]);
    NumTasksAppend(es[..i] + [e], es[i..]);
    NumTasksAppend(es[..i], [e]);
    assert [e][..0] == [];
  }

  /** Removing an entry removes one task unless it is a divider. */
  lemma RemoveCounts(es: seq<Entry>, i: nat)
    requires i < |es|
    ensures NumTasks(RemoveAt(es, i)) + (if IsDivider(es[i].text) then 0 else 1) == NumTasks(es)
  {
    assert InsertAt(RemoveAt(es, i), es[i], i) == es;
    InsertCounts(RemoveAt(es, i), es[i], i);
  }

  /** The counts of a two-entry list do not depend on the order. */
  lemma PairCounts(x: Entry, y: Entry)
    ensures NumTasks([x, y]) == NumTasks([y, x])
    ensures NumTasksDone([x, y]) == NumTasksDone([y, x])
  {
    assert [x, y][..1] == [x] && [y, x][..1] == [y];
    assert [x][..0] == [] && [y][..0] == [];
  }

  /** A swap rewrites the list as the same three pieces with the middle
      pair reversed. */
  lemma SwapUpShape(es: seq<Entry>, i: nat)
    requires 0 < i < |es|
    ensures es == (es[..i - 1] + [es[i - 1], es[i]]) + es[i + 1..]
    ensures SwapUp(es, i) == (es[..i - 1] + [es[i], es[i - 1]]) + es[i + 1..]
  {
    var r := (es[..i - 1] + [es[i], es[i - 1]]) + es[i + 1..];
    assert |r| == |es|;
    forall k | 0 <= k < |es| ensures SwapUp(es, i)[k] == r[k] {
      if k < i - 1 {
      } else if k == i - 1 {
      } else if k == i {
      } else {
        assert r[k] == es[i + 1..][k - i - 1];
      }
    }
  }

  /** Swapping neighbours keeps both counts. */
  lemma SwapCounts(es: seq<Entry>, i: nat)
    requires i < |es|
    ensures NumTasks(SwapUp(es, i)) == NumTasks(es)
    ensures NumTasksDone(SwapUp(es, i)) == NumTasksDone(es)
  {
    if i > 0 {
      var a, rest := es[..i - 1], es[i + 1..];
      var b, b' := [es[i - 1], es[i]], [es[i], es[i - 1]];
      SwapUpShape(es, i);
      NumTasksAppend(a + b, rest);
      NumTasksAppend(a, b);
      NumTasksAppend(a + b', rest);
      NumTasksAppend(a, b');
      PairCounts(es[i - 1], es[i]);
    }
  }

  // ---------------------------------------------------------------------
  // The edits against each other.

  /** Inserting at the end appends. */
  lemma InsertAtEnd(es: seq<Entry>, e: Entry)
    ensures InsertAt(es, e, |es|) == es + [e]
  {
    assert es[..|es|] == es && es[|es|..] == [];
  }

  /** Removing what was just inserted gives back the list. */
  lemma InsertThenRemove(es: seq<Entry>, e: Entry, i: nat)
    requires i <= |es|
    ensures RemoveAt(InsertAt(es, e, i), i) == es
  {
  }

  /** Swapping the same neighbours twice changes nothing. */
  lemma SwapTwice(es: seq<Entry>, i: nat)
    requires i < |es|
    ensures SwapUp(SwapUp(es, i), i) == es
  {
  }
}
