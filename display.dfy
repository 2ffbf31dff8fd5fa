/** The arithmetic behind the screen: the width of the task numbers, the
    rows left for the list, the scroll rule of `update_pads`, the rows
    `draw` visits, and the percentage in the title bar. */
module Display {
  import opened CTypes
  import opened Entries

  /** `draw_title`, `top_pad` and `bottom_pad`. */
  const DRAW_TITLE: bool := true
  const TOP_PAD: int := 1
  const BOTTOM_PAD: int := 1

  // ---------------------------------------------------------------------
  // Number width.

  /** The `num_width` that the loop of `update_pads` computes for a list of
      `n` entries: one, plus one for every division by ten while the value
      is above one. */
  function NumWidth(n: int): (w: nat)
    ensures w >= 1
    ensures n <= 1 ==> w == 1
    decreases if n > 1 then n else 0
  {
    if n > 1 then 1 + NumWidth(n / 10) else 1
  }

  /** The number of decimal digits of a positive number. */
  function Digits(k: nat): (d: nat)
    ensures d >= 1
  {
    if k < 10 then 1 else 1 + Digits(k / 10)
  }

  lemma {:induction false} DigitsMonotone(k: nat, n: nat)
    requires k <= n
    ensures Digits(k) <= Digits(n)
    decreases n
  {
    if k >= 10 {
      DigitsMonotone(k / 10, n / 10);
    }
  }

  /** The width is the number of digits of the list length, or one more:
      every number `1 .. n` fits, with at most one column to spare. */
  lemma {:induction false} NumWidthDigits(n: nat)
    requires n >= 1
    ensures Digits(n) <= NumWidth(n) <= Digits(n) + 1
    decreases n
  {
    if n >= 10 {
      NumWidthDigits(n / 10);
    }
  }

  /** Every number `draw_number` shows, at most the number of entries,
      fits in `num_width` columns. */
  lemma NumberFits(k: nat, n: nat)
    requires 1 <= k <= n
    ensures Digits(k) <= NumWidth(n)
  {
    DigitsMonotone(k, n);
    NumWidthDigits(n);
  }

  /** The task numbers of a list fit: the ordinal `adjust_pos(p) + 1` of a
      non-divider entry has no more digits than `num_width`. */
  lemma OrdinalFits(es: seq<Entry>, p: nat)
    requires p < |es| && !IsDivider(es[p].text)
    ensures Digits(AdjustPos(es, p) + 1) <= NumWidth(|es|)
  {
    OrdinalBound(es, p);
    NumberFits(AdjustPos(es, p) + 1, |es|);
  }

  /** Where the width exceeds the digit count: a list of ten entries gets
      two columns, one of twenty gets three. */
  lemma NumWidthExamples()
    ensures NumWidth(1) == 1 && NumWidth(9) == 2 && NumWidth(10) == 2
    ensures NumWidth(19) == 2 && NumWidth(20) == 3 && NumWidth(100) == 3
  {
  }

  // ---------------------------------------------------------------------
  // Rows for the list and scrolling.

  /** `list_room`: the screen's `LINES` minus the title row and both pads,
      in `unsigned` arithmetic. */
  function ListRoom(lines: int): (room: U32)
    requires -U32_MOD <= lines < U32_MOD
    ensures lines >= 3 ==> room == lines - 3
    ensures 0 <= lines < 3 ==> room == lines - 3 + U32_MOD
  {
    Wrap32(Wrap32(Wrap32(lines) - (if DRAW_TITLE then 1 else 0)) - (TOP_PAD + BOTTOM_PAD))
  }

  /** The offset `update_pads` keeps, in `unsigned` arithmetic: first scroll
      down until `pos` is on the last row, then up until it is on the first. */
  function Scroll(offset: U32, pos: U32, room: U32): (r: U32)
    ensures r <= pos
    ensures offset <= pos < Wrap32(offset + room) ==> r == offset
  {
    var down := if pos >= Wrap32(offset + room)
                then Wrap32(offset + Wrap32(Wrap32(pos - Wrap32(offset + room)) + 1))
                else offset;
    if pos < down then pos else down
  }

  /** With a positive number of rows the cursor is on screen after
      scrolling, whether or not `offset + room` wraps. */
  lemma ScrollKeepsCursorVisible(offset: U32, pos: U32, room: U32)
    requires 0 < room
    ensures Scroll(offset, pos, room) <= pos < Scroll(offset, pos, room) + room
  {
  }

  /** Scrolling down moves the offset by the least amount that brings the
      cursor on screen: the cursor ends on the last row. */
  lemma ScrollDown(offset: U32, pos: U32, room: U32)
    requires 0 < room && offset + room < U32_MOD
    requires pos >= offset + room
    ensures Scroll(offset, pos, room) == offset + (pos - (offset + room)) + 1
    ensures pos == Scroll(offset, pos, room) + room - 1
  {
  }

  /** Scrolling up puts the cursor on the first row. */
  lemma ScrollUp(offset: U32, pos: U32, room: U32)
    requires offset + room < U32_MOD
    requires pos < offset
    ensures Scroll(offset, pos, room) == pos
  {
  }

  /** A cursor already on screen does not move the view. */
  lemma ScrollStays(offset: U32, pos: U32, room: U32)
    requires offset + room < U32_MOD
    requires offset <= pos < offset + room
    ensures Scroll(offset, pos, room) == offset
  {
  }

  /** With ten rows: from offset 0 the cursor at 12 scrolls to offset 3,
      and back at 1 it scrolls to offset 1. */
  lemma ScrollExample()
    ensures Scroll(0, 12, 10) == 3
    ensures Scroll(3, 1, 10) == 1
  {
  }

  /** The end of the range `draw` visits: `offset + list_room` in
      `unsigned` arithmetic, cut down to the length of the list. */
  function LastRow(offset: U32, room: U32, len: nat): (last: nat)
    ensures last <= len
    ensures offset + room < U32_MOD ==> last == if offset + room < len then offset + room else len
  {
    var last := Wrap32(offset + room);
    if last >= len then len else last
  }

  // ---------------------------------------------------------------------
  // Title bar.

  /** The percentage `draw_title_bar` shows: done tasks over all entries,
      dividers included, or 0 when there is no task. */
  function Percent(es: seq<Entry>): (p: int)
    ensures 0 <= p <= 100
    ensures NumTasks(es) == 0 ==> p == 0
  {
    var total := NumTasks(es);
    var done := NumTasksDone(es);
    if total != 0 then
      DivUpper(100 * done, |es|, 100);
      100 * done / |es|
    else 0
  }

  /** One divider and one done task: every task is done, and the title
      says 50%. */
  lemma PercentCountsDividers(div: Entry, task: Entry)
    requires IsDivider(div.text) && !IsDivider(task.text) && task.done
    ensures NumTasksDone([div, task]) == NumTasks([div, task]) == 1
    ensures Percent([div, task]) == 50
  {
    assert [div, task][..1] == [div];
    assert [div][..0] == [];
  }

  /** The percentage over tasks only. */
  function PercentOfTasks(es: seq<Entry>): (p: int)
    ensures 0 <= p <= 100
  {
    var total := NumTasks(es);
    if total != 0 then
      DivUpper(100 * NumTasksDone(es), total, 100);
      100 * NumTasksDone(es) / total
    else 0
  }

  /** Over tasks only, 100% means every task is done, dividers or not; it
      is never below the percentage the title shows, and without dividers
      the two agree. */
  lemma PercentOfTasksFull(es: seq<Entry>)
    requires NumTasks(es) != 0
    ensures PercentOfTasks(es) == 100 <==> NumTasksDone(es) == NumTasks(es)
    ensures PercentOfTasks(es) == 100 <==> AllTasksDone(es)
    ensures PercentOfTasks(es) >= Percent(es)
  {
    FullCountIsAllDone(es);
    var t, d := NumTasks(es), NumTasksDone(es);
    if d < t {
      DivLess(100 * d, t, 100);
    } else {
      DivLower(100 * d, t, 100);
      DivUpper(100 * d, t, 100);
    }
    DivAntitone(100 * d, t, |es|);
  }

  lemma PercentAgreesWithoutDividers(es: seq<Entry>)
    requires forall i :: 0 <= i < |es| ==> !IsDivider(es[i].text)
    ensures Percent(es) == PercentOfTasks(es)
  {
    NumTasksIsCount(es);
    assert DividerIndices(es) == {};
  }

  // ---------------------------------------------------------------------
  // Division facts.

  lemma MulLe(x: nat, y: nat, n: nat)
    requires x <= y
    ensures x * n <= y * n
  {
    assert y * n == x * n + (y - x) * n;
  }

  lemma DivUpper(a: nat, n: nat, c: nat)
    requires 0 < n && a <= c * n
    ensures a / n <= c
  {
    var q := a / n;
    assert q * n <= a;
    if q > c {
      MulLe(c + 1, q, n);
    }
  }

  lemma DivLess(a: nat, n: nat, c: nat)
    requires 0 < n && a < c * n
    ensures a / n < c
  {
    var q := a / n;
    assert q * n <= a;
    if q >= c {
      MulLe(c, q, n);
    }
  }

  lemma DivLower(a: nat, n: nat, q: nat)
    requires 0 < n && q * n <= a
    ensures q <= a / n
  {
    var r := a / n;
    assert a < (r + 1) * n;
    if r < q {
      MulLe(r + 1, q, n);
    }
  }

  lemma DivAntitone(a: nat, m: nat, n: nat)
    requires 0 < m <= n
    ensures a / n <= a / m
  {
    var q := a / n;
    assert q * n <= a;
    assert q * m <= q * n by { MulLe(m, n, q); }
    DivLower(a, m, q);
  }
}
