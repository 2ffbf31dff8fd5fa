/** The commands of `input` and `new_task` on the abstract state: the list
    of entries and the cursor `pos` (a C `unsigned`). A command whose C
    code would index outside the list, or print a buffer with `wprintw`
    when it holds no terminator, has undefined behaviour; the model calls
    that outcome `Fault` instead of guessing what the program does next. */
module Commands {
  import opened CTypes
  import opened Keys
  import opened Entries
  import opened TaskStore
  import opened Editor

  datatype State = State(entries: seq<Entry>, pos: U32)

  datatype Outcome = Continue(state: State) | Quit(state: State) | Fault

  /** The bytes of a task's 2048-byte buffer: its string, the terminator,
      then whatever bytes lie behind it (`stale`), zeros past those. */
  function EditBuffer(text: seq<Byte>, stale: seq<Byte>): (b: seq<Byte>)
    requires |text| < MAX_IND
    ensures |b| == MAX_IND && b[|text|] == NUL
    ensures NUL !in text ==> CString(b) == text
  {
    var raw := text + [NUL] + stale + Zeros(MAX_IND);
    TerminatedPrefix(text, stale + Zeros(MAX_IND), MAX_IND);
    raw[..MAX_IND]
  }

  /** Cutting a terminated string with its tail to `n` bytes keeps the
      string. */
  lemma TerminatedPrefix(text: seq<Byte>, tail: seq<Byte>, n: nat)
    requires |text| < n <= |text| + 1 + |tail|
    ensures (text + [NUL] + tail)[..n][|text|] == NUL
    ensures NUL !in text ==> CString((text + [NUL] + tail)[..n]) == text
  {
    var cut := (text + [NUL] + tail)[..n];
    assert cut == text + [NUL] + tail[..n - |text| - 1];
    if NUL !in text {
      CStringOfTerminated(text, tail[..n - |text| - 1]);
    }
  }

  /** A state the program can render and edit safely: the cursor is on an
      entry (or 0 on an empty list), and every text is a C string that fits
      a task buffer with its terminator. */
  predicate Good(s: State) {
    (|s.entries| == 0 ==> s.pos == 0) &&
    (|s.entries| > 0 ==> s.pos < |s.entries|) &&
    forall i :: 0 <= i < |s.entries| ==> NUL !in s.entries[i].text && |s.entries[i].text| < MAX_IND
  }

  /** The list is short enough that `pos + 1` converts to `int` without
      change whenever `pos` is on an entry. */
  predicate Small(s: State) {
    |s.entries| + 1 < 0x8000_0000
  }

  /** The cursor moved one down, `pos + 1` in `unsigned` arithmetic. */
  function Next(pos: U32): U32 {
    Wrap32(pos + 1)
  }

  /** `new_task` after `edit_task` has filled the `calloc`ed buffer: an
      empty string adds nothing; otherwise the task goes in at
      `list.len ? pos + 1 : pos`, and `pos` moves down in every case, since
      the list is never empty again by the time it is tested. */
  function NewTask(s: State, editKeys: seq<int>): (o: Outcome)
    ensures !o.Quit?
    ensures o.Continue? && o.state != s ==>
      |o.state.entries| == |s.entries| + 1 && o.state.pos == Next(s.pos)
  {
    var es, len := s.entries, |s.entries|;
    var z := Zeros(MAX_IND);
    if !EditEchoesTerminated(z, editKeys) then Fault
    else
      var t := CString(EditResult(z, editKeys));
      if |t| == 0 then Continue(s)
      else
        var at := if len != 0 then ToInt32(Next(s.pos)) else ToInt32(s.pos);
        if !(len == 0 || -1 <= at <= len) then Fault
        else Continue(State(InsertAt(es, Entry(t, false), InsertIndex(at, len)), Next(s.pos)))
  }

  /** One pass of `input` on the key `key`; `editKeys` are the keys an
      edit reads, `stale` the bytes behind the current task's terminator. */
  function Step(s: State, key: int, editKeys: seq<int>, stale: seq<Byte>): (o: Outcome)
    ensures o.Quit? <==> key == 'q' as int
    ensures o.Quit? ==> o.state == s
    ensures o.Continue? && key != 'R' as int && key != ' ' as int ==> |o.state.entries| == |s.entries|
  {
    var es, len, pos := s.entries, |s.entries|, s.pos;
    if key == 'q' as int then Quit(s)
    else if key == 'j' as int || key == KEY_DOWN then
      Continue(if Next(pos) < len then s.(pos := Next(pos)) else s)
    else if key == 'k' as int || key == KEY_UP then
      Continue(if pos != 0 then s.(pos := pos - 1) else s)
    else if key == 'J' as int then
      if Next(pos) < len then
        var at := ToInt32(Next(pos));
        if 0 <= at < len then Continue(State(SwapUp(es, at), Next(pos))) else Fault
      else Continue(s)
    else if key == 'K' as int then
      if pos != 0 then
        var at := ToInt32(pos);
        if 0 <= at < len then Continue(State(SwapUp(es, at), pos - 1)) else Fault
      else Continue(s)
    else if key == 'R' as int then
      if len != 0 then
        var at := ToInt32(pos);
        if 0 <= at < len then
          var rest := RemoveAt(es, at);
          Continue(State(rest, if pos >= |rest| then Wrap32(pos - 1) else pos))
        else Fault
      else Continue(s)
    else if key == 'E' as int then
      if len != 0 then
        if pos >= len || |es[pos].text| >= MAX_IND then Fault
        else
          var b := EditBuffer(es[pos].text, stale);
          if !EditEchoesTerminated(b, editKeys) then Fault
          else Continue(State(es[pos := Entry(CString(EditResult(b, editKeys)), es[pos].done)], pos))
      else Continue(s)
    else if key == ENTER then
      Continue(if pos < len then State(es[pos := Entry(es[pos].text, !es[pos].done)], pos) else s)
    else if key == ' ' as int then
      NewTask(s, editKeys)
    else Continue(s)
  }

  // ---------------------------------------------------------------------
  // What the commands do from a good state.

  /** `q` ends the loop and changes nothing. */
  lemma QuitStops(s: State, editKeys: seq<int>, stale: seq<Byte>)
    ensures Step(s, 'q' as int, editKeys, stale) == Quit(s)
  {
  }

  /** `j` and `k` move the cursor by one within the list, or not at all at
      its ends; the list does not change. */
  lemma MoveKeepsCursorInside(s: State, key: int, editKeys: seq<int>, stale: seq<Byte>)
    requires Good(s) && Small(s)
    requires key in {'j' as int, KEY_DOWN, 'k' as int, KEY_UP}
    ensures Step(s, key, editKeys, stale).Continue?
    ensures var t := Step(s, key, editKeys, stale).state;
      Good(t) && t.entries == s.entries &&
      (key in {'j' as int, KEY_DOWN} ==> t.pos == if s.pos + 1 < |s.entries| then s.pos + 1 else s.pos) &&
      (key in {'k' as int, KEY_UP} ==> t.pos == if s.pos > 0 then s.pos - 1 else 0)
  {
  }

  /** `J` moves the current entry one down and the cursor with it. */
  lemma MoveEntryDown(s: State, editKeys: seq<int>, stale: seq<Byte>)
    requires Good(s) && Small(s) && s.pos + 1 < |s.entries|
    ensures Step(s, 'J' as int, editKeys, stale).Continue?
    ensures var t := Step(s, 'J' as int, editKeys, stale).state;
      Good(t) && t.pos == s.pos + 1 && t.entries == SwapUp(s.entries, s.pos + 1) &&
      t.entries[t.pos] == s.entries[s.pos] &&
      NumTasks(t.entries) == NumTasks(s.entries) && NumTasksDone(t.entries) == NumTasksDone(s.entries)
  {
    var n := s.pos + 1;
    assert Next(s.pos) == n && ToInt32(n) == n;
    assert Step(s, 'J' as int, editKeys, stale) == Continue(State(SwapUp(s.entries, n), n));
    SwapCounts(s.entries, n);
    SwapKeepsGood(s, n, n);
  }

  /** `K` moves the current entry one up and the cursor with it. */
  lemma MoveEntryUp(s: State, editKeys: seq<int>, stale: seq<Byte>)
    requires Good(s) && Small(s) && s.pos > 0
    ensures Step(s, 'K' as int, editKeys, stale).Continue?
    ensures var t := Step(s, 'K' as int, editKeys, stale).state;
      Good(t) && t.pos == s.pos - 1 && t.entries == SwapUp(s.entries, s.pos) &&
      t.entries[t.pos] == s.entries[s.pos] &&
      NumTasks(t.entries) == NumTasks(s.entries) && NumTasksDone(t.entries) == NumTasksDone(s.entries)
  {
    assert ToInt32(s.pos) == s.pos;
    assert Step(s, 'K' as int, editKeys, stale) == Continue(State(SwapUp(s.entries, s.pos), s.pos - 1));
    SwapCounts(s.entries, s.pos);
    SwapKeepsGood(s, s.pos, s.pos - 1);
  }

  /** Exchanging two neighbours keeps every text storable. */
  lemma SwapKeepsGood(s: State, at: nat, pos: U32)
    requires Good(s) && 0 < at < |s.entries| && pos < |s.entries|
    ensures Good(State(SwapUp(s.entries, at), pos))
  {
    var r := SwapUp(s.entries, at);
    forall i | 0 <= i < |r| ensures NUL !in r[i].text && |r[i].text| < MAX_IND {
      if i == at { assert r[i] == s.entries[at - 1]; }
      else if i == at - 1 { assert r[i] == s.entries[at]; }
      else { assert r[i] == s.entries[i]; }
    }
  }

  /** `J` on the last entry and `K` on the first change nothing. */
  lemma MoveEntryAtEnds(s: State, editKeys: seq<int>, stale: seq<Byte>)
    requires Good(s) && Small(s)
    ensures s.pos + 1 >= |s.entries| ==> Step(s, 'J' as int, editKeys, stale) == Continue(s)
    ensures s.pos == 0 ==> Step(s, 'K' as int, editKeys, stale) == Continue(s)
  {
  }

  /** With two entries or more, `R` deletes the current entry and keeps the
      cursor on an entry: the same index, or the new last one. */
  lemma RemoveKeepsCursorInside(s: State, editKeys: seq<int>, stale: seq<Byte>)
    requires Good(s) && Small(s) && |s.entries| >= 2
    ensures Step(s, 'R' as int, editKeys, stale).Continue?
    ensures var t := Step(s, 'R' as int, editKeys, stale).state;
      Good(t) && t.entries == RemoveAt(s.entries, s.pos) &&
      t.pos == if s.pos < |s.entries| - 1 then s.pos else s.pos - 1
  {
  }

  /** Enter flips the flag of the current entry and nothing else. */
  lemma ToggleFlipsOnlyCurrent(s: State, editKeys: seq<int>, stale: seq<Byte>)
    requires Good(s) && |s.entries| > 0
    ensures Step(s, ENTER, editKeys, stale).Continue?
    ensures var t := Step(s, ENTER, editKeys, stale).state;
      Good(t) && t.pos == s.pos && |t.entries| == |s.entries| &&
      t.entries[s.pos].done == !s.entries[s.pos].done &&
      t.entries[s.pos].text == s.entries[s.pos].text &&
      forall i :: 0 <= i < |s.entries| && i != s.pos ==> t.entries[i] == s.entries[i]
  {
  }

  /** An edit of the current entry cancelled with Escape changes nothing,
      whatever was typed first, unless a buffer echoed on the way has no
      terminator. */
  lemma EditCancelledKeepsState(s: State, pre: seq<int>, post: seq<int>, stale: seq<Byte>)
    requires Good(s) && |s.entries| > 0
    requires forall i :: 0 <= i < |pre| ==> !IsExit(pre[i])
    ensures Step(s, 'E' as int, pre + [ESCAPE] + post, stale)
         == if EditEchoesTerminated(EditBuffer(s.entries[s.pos].text, stale), pre) then Continue(s) else Fault
  {
    var text := s.entries[s.pos].text;
    var b := EditBuffer(text, stale);
    EditCancelled(b, pre, post);
    EchoesUpToExit(b, b, StrLen(b), pre, ESCAPE, post);
    assert s.entries[s.pos := Entry(CString(b), s.entries[s.pos].done)] == s.entries;
  }

  /** When only zeros lie behind a task's string, fewer keys than the
      bytes left after it cannot remove the last terminator before an
      echo. */
  lemma ShortEditEchoesTerminated(text: seq<Byte>, keys: seq<int>)
    requires |text| + |keys| < MAX_IND
    ensures EditEchoesTerminated(EditBuffer(text, []), keys)
  {
    var b := EditBuffer(text, []);
    assert b == (text + [NUL] + [] + Zeros(MAX_IND))[..MAX_IND];
    assert b[MAX_IND - 1] == NUL;
    EchoesWithinReach(b, b, StrLen(b), keys, MAX_IND - 1);
  }

  /** A new task whose edit ends with an empty string leaves the state as
      it was. */
  lemma NewEmptyTaskKeepsState(s: State, editKeys: seq<int>, stale: seq<Byte>)
    requires EditEchoesTerminated(Zeros(MAX_IND), editKeys)
    requires CString(EditResult(Zeros(MAX_IND), editKeys)) == []
    ensures Step(s, ' ' as int, editKeys, stale) == Continue(s)
  {
  }

  /** Escape while typing a new task adds nothing, unless a buffer echoed
      on the way has no terminator, which fewer than 2048 keys cannot
      cause. */
  lemma NewTaskCancelled(s: State, pre: seq<int>, post: seq<int>, stale: seq<Byte>)
    requires forall i :: 0 <= i < |pre| ==> !IsExit(pre[i])
    ensures Step(s, ' ' as int, pre + [ESCAPE] + post, stale)
         == if EditEchoesTerminated(Zeros(MAX_IND), pre) then Continue(s) else Fault
    ensures |pre| < MAX_IND ==> Step(s, ' ' as int, pre + [ESCAPE] + post, stale) == Continue(s)
  {
    var z := Zeros(MAX_IND);
    EditCancelled(z, pre, post);
    assert z[0] in z;
    assert StrLen(z) == 0;
    EchoesUpToExit(z, z, 0, pre, ESCAPE, post);
    if |pre| < MAX_IND {
      EchoesWithinReach(z, z, 0, pre, MAX_IND - 1);
    }
  }

  /** 2048 typed keys fill a new task's zeroed buffer, and the echo before
      the next key reads past it, whatever keys follow. */
  lemma FullNewTaskFaults(s: State, key: int, post: seq<int>, stale: seq<Byte>)
    requires !IsExit(key) && key != KEY_BACKSPACE && KeyByte(key) != NUL
    ensures Step(s, ' ' as int, seq(MAX_IND, _ => key) + post, stale) == Fault
  {
    var z := Zeros(MAX_IND);
    var keys := seq(MAX_IND, _ => key) + post;
    assert z[0] in z;
    assert StrLen(z) == 0;
    FillingEchoFaults(z, z, 0, keys);
  }

  /** On a non-empty list a new task goes in right after the cursor, and
      the cursor moves onto it. */
  lemma NewTaskInsertsAfterCursor(s: State, editKeys: seq<int>, stale: seq<Byte>)
    requires Good(s) && Small(s) && |s.entries| > 0
    requires EditEchoesTerminated(Zeros(MAX_IND), editKeys)
    requires CString(EditResult(Zeros(MAX_IND), editKeys)) != []
    ensures Step(s, ' ' as int, editKeys, stale).Continue?
    ensures var t := Step(s, ' ' as int, editKeys, stale).state;
      var text := CString(EditResult(Zeros(MAX_IND), editKeys));
      Good(t) && t.pos == s.pos + 1 &&
      t.entries == InsertAt(s.entries, Entry(text, false), s.pos + 1) &&
      t.entries[t.pos] == Entry(text, false)
  {
    var z := Zeros(MAX_IND);
    assert z[0] in z;
    EchoedResultTerminated(z, z, StrLen(z), editKeys);
    var r := EditResult(z, editKeys);
    assert |CString(r)| < |r|;
  }

  /** An edit whose echoes are all terminated ends with a terminated
      buffer, and so keeps the state good. */
  lemma EditKeepsGood(s: State, editKeys: seq<int>, stale: seq<Byte>)
    requires Good(s) && |s.entries| > 0
    ensures !Step(s, 'E' as int, editKeys, stale).Fault? ==> Good(Step(s, 'E' as int, editKeys, stale).state)
  {
    var text := s.entries[s.pos].text;
    var b := EditBuffer(text, stale);
    if EditEchoesTerminated(b, editKeys) {
      assert b[|text|] in b;
      EchoedResultTerminated(b, b, StrLen(b), editKeys);
      var r := EditResult(b, editKeys);
      assert |CString(r)| < |r|;
    }
  }

  /** A new task on a non-empty list keeps the state good unless an echo
      of its edit has no terminator. */
  lemma NewTaskKeepsGood(s: State, editKeys: seq<int>, stale: seq<Byte>)
    requires Good(s) && Small(s) && |s.entries| > 0
    ensures !Step(s, ' ' as int, editKeys, stale).Fault? ==> Good(Step(s, ' ' as int, editKeys, stale).state)
  {
    var z := Zeros(MAX_IND);
    if EditEchoesTerminated(z, editKeys) {
      assert z[0] in z;
      EchoedResultTerminated(z, z, StrLen(z), editKeys);
      var r := EditResult(z, editKeys);
      assert |CString(r)| < |r|;
    }
  }

  /** From a good state only an edit can fault (when a buffer it echoes
      has no terminator); every other outcome is good again, except after
      deleting the only entry or creating the first one. */
  lemma StepFromGood(s: State, key: int, editKeys: seq<int>, stale: seq<Byte>)
    requires Good(s) && Small(s)
    ensures Step(s, key, editKeys, stale).Fault? ==> key == 'E' as int || key == ' ' as int
    ensures (!Step(s, key, editKeys, stale).Fault? &&
             !(key == 'R' as int && |s.entries| == 1) &&
             !(key == ' ' as int && |s.entries| == 0)) ==>
            Good(Step(s, key, editKeys, stale).state)
  {
    var len := |s.entries|;
    if key == 'E' as int {
      if len > 0 { EditKeepsGood(s, editKeys, stale); }
    } else if key == ' ' as int {
      if len > 0 { NewTaskKeepsGood(s, editKeys, stale); }
    } else if key == 'R' as int {
      if len >= 2 { RemoveKeepsCursorInside(s, editKeys, stale); }
    } else if key == ENTER {
      if len > 0 { ToggleFlipsOnlyCurrent(s, editKeys, stale); }
    } else if key == 'J' as int {
      if s.pos + 1 < len { MoveEntryDown(s, editKeys, stale); } else { MoveEntryAtEnds(s, editKeys, stale); }
    } else if key == 'K' as int {
      if s.pos > 0 { MoveEntryUp(s, editKeys, stale); } else { MoveEntryAtEnds(s, editKeys, stale); }
    } else if key in {'j' as int, KEY_DOWN, 'k' as int, KEY_UP} {
      MoveKeepsCursorInside(s, key, editKeys, stale);
    }
  }

  // ---------------------------------------------------------------------
  // The two ways the cursor leaves the list.

  /** Creating the first task leaves the cursor one past it. */
  lemma NewTaskOnEmptyLeavesPosAtLen(s: State, editKeys: seq<int>, stale: seq<Byte>)
    requires s.entries == [] && s.pos == 0
    requires Step(s, ' ' as int, editKeys, stale).Continue?
    requires Step(s, ' ' as int, editKeys, stale).state != s
    ensures var t := Step(s, ' ' as int, editKeys, stale).state;
      |t.entries| == 1 && t.pos == 1 && !Good(t)
  {
  }

  /** Typing one key and Enter on an empty list creates that task. */
  lemma NewTaskOfOneKey(key: int, stale: seq<Byte>)
    requires !IsExit(key) && key != KEY_BACKSPACE && KeyByte(key) != NUL
    ensures Step(State([], 0), ' ' as int, [key, ENTER], stale)
         == Continue(State([Entry([KeyByte(key)], false)], 1))
  {
    var z := Zeros(MAX_IND);
    assert StrLen(z) == 0;
    var b := z[0 := KeyByte(key)];
    assert [key, ENTER][1..] == [ENTER];
    assert z[0] in z && b[1] in b;
    assert EchoesTerminated(b, z, 1, [ENTER]);
    assert EditEchoesTerminated(z, [key, ENTER]);
    assert EditLoop(b, z, 1, [ENTER]) == b;
    assert EditResult(z, [key, ENTER]) == b;
    assert b == [KeyByte(key)] + [NUL] + b[2..];
    CStringOfTerminated([KeyByte(key)], b[2..]);
  }

  /** With the cursor one past the last entry, `R` removes at `len`. */
  lemma RemovePastEndFaults(s: State, editKeys: seq<int>, stale: seq<Byte>)
    requires |s.entries| > 0 && s.pos == |s.entries| && Small(s)
    ensures Step(s, 'R' as int, editKeys, stale) == Fault
    ensures Step(s, 'E' as int, editKeys, stale) == Fault
  {
  }

  /** Deleting the only entry wraps the cursor to `0u - 1`; `K` then hands
      `(int) pos == -1` to `swap_task_up`. */
  lemma RemoveLastWraps(e: Entry, editKeys: seq<int>, stale: seq<Byte>)
    ensures Step(State([e], 0), 'R' as int, editKeys, stale) == Continue(State([], U32_MAX))
    ensures Step(State([], U32_MAX), 'K' as int, editKeys, stale) == Fault
  {
  }

  /** Editing a task loaded from the file: one key and Enter give back the
      text with the key, the old flag and a newline after it. */
  lemma EditRevealsStaleBytes(e: Entry, flag: Byte, rest: seq<Byte>, key: int)
    requires NUL !in e.text && flag != NUL
    requires |ParsedBuffer(e.text, flag, rest)| == MAX_IND
    requires !IsExit(key) && key != KEY_BACKSPACE && KeyByte(key) != NUL
    ensures Step(State([e], 0), 'E' as int, [key, ENTER], [flag, '\n', NUL] + rest)
         == Continue(State([Entry(e.text + [KeyByte(key), flag, '\n'], e.done)], 0))
  {
    var stale := [flag, '\n', NUL] + rest;
    var raw := e.text + [NUL] + stale + Zeros(MAX_IND);
    var p := ParsedBuffer(e.text, flag, rest);
    assert raw[..MAX_IND] == p;
    assert EditBuffer(e.text, stale) == p;
    TypingRevealsStaleBytes(e.text, flag, rest, key);
    ParsedEchoesTerminated(e.text, flag, rest, key);
  }

  // ---------------------------------------------------------------------
  // The commands as evidently intended.

  /** `new_task` with `list.len` tested before the insert, and the edit
      writing a terminator after every typed key. */
  function NewTaskFixed(s: State, editKeys: seq<int>): (o: Outcome)
    ensures !o.Quit?
    ensures o.Continue? && o.state != s ==>
      |o.state.entries| == |s.entries| + 1 && o.state.pos == if |s.entries| != 0 then Next(s.pos) else s.pos
  {
    var es, len := s.entries, |s.entries|;
    var z := Zeros(MAX_IND);
    assert z[0] in z;
    if !EditEchoesTerminatedFixed(z, editKeys) then Fault
    else
      var t := CString(EditResultFixed(z, editKeys));
      if |t| == 0 then Continue(s)
      else
        var at := if len != 0 then ToInt32(Next(s.pos)) else ToInt32(s.pos);
        if !(len == 0 || -1 <= at <= len) then Fault
        else Continue(State(InsertAt(es, Entry(t, false), InsertIndex(at, len)),
                            if len != 0 then Next(s.pos) else s.pos))
  }

  /** `input` with the three corrections: `R` does not move the cursor
      below 0, `new_task` tests the length before the insert, and edits
      terminate what they type. */
  function StepFixed(s: State, key: int, editKeys: seq<int>, stale: seq<Byte>): (o: Outcome)
    ensures o.Quit? <==> key == 'q' as int
    ensures o.Continue? && key == 'R' as int && |s.entries| != 0 ==> |o.state.entries| == |s.entries| - 1
  {
    var es, len, pos := s.entries, |s.entries|, s.pos;
    if key == 'R' as int then
      if len != 0 then
        var at := ToInt32(pos);
        if 0 <= at < len then
          var rest := RemoveAt(es, at);
          Continue(State(rest, if pos >= |rest| && pos != 0 then pos - 1 else pos))
        else Fault
      else Continue(s)
    else if key == 'E' as int then
      if len != 0 then
        if pos >= len || |es[pos].text| >= MAX_IND then Fault
        else
          var b := EditBuffer(es[pos].text, stale);
          assert b[|es[pos].text|] in b;
          if !EditEchoesTerminatedFixed(b, editKeys) then Fault
          else Continue(State(es[pos := Entry(CString(EditResultFixed(b, editKeys)), es[pos].done)], pos))
      else Continue(s)
    else if key == ' ' as int then
      NewTaskFixed(s, editKeys)
    else Step(s, key, editKeys, stale)
  }

  /** Corrected, no command faults from a good state and every state
      reached is good again. */
  lemma FixedKeepsGood(s: State, key: int, editKeys: seq<int>, stale: seq<Byte>)
    requires Good(s) && Small(s)
    ensures !StepFixed(s, key, editKeys, stale).Fault?
    ensures Good(StepFixed(s, key, editKeys, stale).state)
  {
    var es := s.entries;
    if key == 'E' as int && |es| != 0 {
      var b := EditBuffer(es[s.pos].text, stale);
      assert b[|es[s.pos].text|] in b;
      FixedEchoesTerminated(b, b, StrLen(b), editKeys);
      FixedEditLeavesTerminator(b, editKeys);
      var r := EditResultFixed(b, editKeys);
      assert |CString(r)| < |r|;
    } else if key == ' ' as int {
      var z := Zeros(MAX_IND);
      assert z[0] in z;
      FixedEchoesTerminated(z, z, StrLen(z), editKeys);
      FixedEditLeavesTerminator(z, editKeys);
      var r := EditResultFixed(z, editKeys);
      assert |CString(r)| < |r|;
    } else {
      StepFromGood(s, key, editKeys, stale);
    }
  }

  /** The keys before the first Enter or Escape. */
  function EditPrefix(keys: seq<int>): (pre: seq<int>)
    ensures pre <= keys
    ensures forall i :: 0 <= i < |pre| ==> !IsExit(pre[i])
    ensures |pre| < |keys| ==> IsExit(keys[|pre|])
  {
    if keys == [] || IsExit(keys[0]) then []
    else [keys[0]] + EditPrefix(keys[1..])
  }

  /** The corrected edit always leaves a terminator in the buffer. */
  lemma FixedEditLeavesTerminator(buf: seq<Byte>, keys: seq<int>)
    requires |buf| == MAX_IND && NUL in buf
    ensures NUL in EditResultFixed(buf, keys)
  {
    var pre := EditPrefix(keys);
    EditFixedIgnoresStaleBytes(buf, pre);
    if |pre| < |keys| {
      var post := keys[|pre| + 1..];
      assert keys == pre + [keys[|pre|]] + post;
      if keys[|pre|] == ENTER {
        FixedEnterFinishes(buf, buf, StrLen(buf), pre, post);
      } else {
        FixedEscapeRestores(buf, buf, StrLen(buf), pre, post);
      }
    } else {
      assert keys == pre;
    }
  }

  lemma {:induction false} FixedEnterFinishes(buf: seq<Byte>, backup: seq<Byte>, cursor: nat, pre: seq<int>, post: seq<int>)
    requires |buf| == MAX_IND && cursor < MAX_IND
    requires forall i :: 0 <= i < |pre| ==> !IsExit(pre[i])
    ensures EditLoopFixed(buf, backup, cursor, pre + [ENTER] + post) == EditLoopFixed(buf, backup, cursor, pre)
    decreases |pre|
  {
    var keys := pre + [ENTER] + post;
    if pre != [] {
      assert keys[0] == pre[0] && keys[1..] == pre[1..] + [ENTER] + post;
      var c := if cursor != 0 then cursor - 1 else cursor;
      if pre[0] == KEY_BACKSPACE {
        FixedEnterFinishes(buf[c := NUL], backup, c, pre[1..], post);
      } else if cursor + 1 < MAX_IND {
        FixedEnterFinishes(buf[cursor := KeyByte(pre[0])][cursor + 1 := NUL], backup, cursor + 1, pre[1..], post);
      } else {
        FixedEnterFinishes(buf, backup, cursor, pre[1..], post);
      }
    }
  }

  lemma {:induction false} FixedEscapeRestores(buf: seq<Byte>, backup: seq<Byte>, cursor: nat, pre: seq<int>, post: seq<int>)
    requires |buf| == MAX_IND && cursor < MAX_IND
    requires forall i :: 0 <= i < |pre| ==> !IsExit(pre[i])
    ensures EditLoopFixed(buf, backup, cursor, pre + [ESCAPE] + post) == backup
    decreases |pre|
  {
    var keys := pre + [ESCAPE] + post;
    if pre != [] {
      assert keys[0] == pre[0] && keys[1..] == pre[1..] + [ESCAPE] + post;
      var c := if cursor != 0 then cursor - 1 else cursor;
      if pre[0] == KEY_BACKSPACE {
        FixedEscapeRestores(buf[c := NUL], backup, c, pre[1..], post);
      } else if cursor + 1 < MAX_IND {
        FixedEscapeRestores(buf[cursor := KeyByte(pre[0])][cursor + 1 := NUL], backup, cursor + 1, pre[1..], post);
      } else {
        FixedEscapeRestores(buf, backup, cursor, pre[1..], post);
      }
    }
  }

  /** The corrections change only `R`, `E` and the space command. */
  lemma FixedAgreesElsewhere(s: State, key: int, editKeys: seq<int>, stale: seq<Byte>)
    requires key != 'R' as int && key != 'E' as int && key != ' ' as int
    ensures StepFixed(s, key, editKeys, stale) == Step(s, key, editKeys, stale)
  {
  }

  /** Corrected, deleting the only entry leaves the cursor at 0 and
      creating the first task puts the cursor on it. */
  lemma FixedFirstAndLast(e: Entry, key: int, stale: seq<Byte>)
    requires !IsExit(key) && key != KEY_BACKSPACE && KeyByte(key) != NUL
    ensures StepFixed(State([e], 0), 'R' as int, [], stale) == Continue(State([], 0))
    ensures StepFixed(State([], 0), ' ' as int, [key, ENTER], stale)
         == Continue(State([Entry([KeyByte(key)], false)], 0))
  {
    var z := Zeros(MAX_IND);
    assert StrLen(z) == 0;
    var b := z[0 := KeyByte(key)][1 := NUL];
    assert [key, ENTER][1..] == [ENTER];
    assert EditLoopFixed(b, z, 1, [ENTER]) == b;
    assert z[0] in z;
    FixedEchoesTerminated(z, z, 0, [key, ENTER]);
    assert EditResultFixed(z, [key, ENTER]) == b;
    assert b == [KeyByte(key)] + [NUL] + b[2..];
    CStringOfTerminated([KeyByte(key)], b[2..]);
  }
}
