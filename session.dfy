/** The running program: the global list and the run-time globals `pos`,
    `offset`, `list_room`, `num_width` and `new`, with the procedures that
    update them in place (`load_list`, `input`, `new_task`, `update_pads`
    and the row loop of `draw`). Each is proved against the functions of
    `Commands`, `TaskFile` and `Display`. The terminal is a parameter: the
    screen's `LINES` and the keys `getch` returns are passed in. */
module App {
  import opened CTypes
  import opened Keys
  import opened Entries
  import opened TaskStore
  import opened TaskFile
  import opened Editor
  import opened Display
  import opened Commands

  class Session {
    var list: TaskList
    var pos: U32
    var offset: U32
    var listRoom: U32
    var numWidth: int
    var isNew: bool

    ghost predicate Valid()
      reads this, list
    {
      list.Valid()
    }

    /** The state the commands act on. */
    ghost function Model(): (s: State)
      reads this, list, list.tasks, list.done
      requires Valid()
      ensures |s.entries| == list.len && s.pos == pos
    {
      State(list.Contents(), pos)
    }

    /** `init_list` and the initial run-time globals. */
    constructor ()
      ensures Valid() && fresh(list) && fresh(list.tasks) && fresh(list.done)
      ensures Model() == State([], 0)
      ensures offset == 0 && listRoom == 0 && numWidth == 1 && !isNew
    {
      list := new TaskList();
      pos, offset, listRoom, numWidth, isNew := 0, 0, 0, 1, false;
    }

    /** `load_list`: `None` is a file that does not open, which marks the
        list as new; otherwise the `fgets` lines of the file are parsed
        and appended, and the malformed ones are returned. */
    method LoadList(file: Option<seq<Byte>>) returns (skipped: seq<seq<Byte>>)
      requires Valid()
      requires file.Some? ==> Parsable(Lines(file.value))
      modifies this, list, list.tasks, list.done
      ensures Valid() && list == old(list)
      ensures file.None? ==> isNew && Model() == old(Model()) && skipped == []
      ensures file.Some? ==>
        (isNew == old(isNew) &&
         Model() == State(old(Model().entries) + Load(Lines(file.value)).entries, pos) &&
         skipped == Load(Lines(file.value)).skipped)
      ensures pos == old(pos) && offset == old(offset) && listRoom == old(listRoom) && numWidth == old(numWidth)
    {
      if file.None? {
        isNew := true;
        skipped := [];
      } else {
        skipped := LoadLines(list, Lines(file.value));
      }
    }

    /** `input` on the key `key`; `editKeys` are the keys read by an edit,
        `stale` the bytes behind the current task's terminator. The result
        is whether the main loop goes on. */
    method Input(key: int, editKeys: seq<int>, stale: seq<Byte>) returns (running: bool)
      requires Valid()
      requires !Step(Model(), key, editKeys, stale).Fault?
      modifies this, list, list.tasks, list.done
      ensures Valid() && list == old(list)
      ensures running == Step(old(Model()), key, editKeys, stale).Continue?
      ensures Model() == Step(old(Model()), key, editKeys, stale).state
      ensures offset == old(offset) && listRoom == old(listRoom) && numWidth == old(numWidth) && isNew == old(isNew)
    {
      var len := list.len;
      running := true;
      if key == 'q' as int {
        running := false;
      } else if key == 'j' as int || key == KEY_DOWN {
        if Next(pos) < len {
          pos := Next(pos);
        }
      } else if key == 'k' as int || key == KEY_UP {
        if pos != 0 {
          pos := pos - 1;
        }
      } else if key == 'J' as int {
        if Next(pos) < len {
          list.SwapTaskUp(ToInt32(Next(pos)));
          pos := Next(pos);
        }
      } else if key == 'K' as int {
        if pos != 0 {
          list.SwapTaskUp(ToInt32(pos));
          pos := pos - 1;
        }
      } else if key == 'R' as int {
        if len != 0 {
          list.RemoveTask(ToInt32(pos));
          if pos >= list.len {
            pos := Wrap32(pos - 1);
          }
        }
      } else if key == 'E' as int {
        if len != 0 {
          EditCurrent(editKeys, stale);
        }
      } else if key == ENTER {
        if pos < len {
          list.ToggleDone(pos);
        }
      } else if key == ' ' as int {
        NewTask(editKeys);
      }
    }

    /** `edit_task(list.tasks[pos])`: the task's buffer is edited and the
        entry's text becomes the string it then holds. */
    method EditCurrent(editKeys: seq<int>, stale: seq<Byte>)
      requires Valid() && list.len != 0
      requires !Step(Model(), 'E' as int, editKeys, stale).Fault?
      modifies list.tasks
      ensures Valid()
      ensures Model() == Step(old(Model()), 'E' as int, editKeys, stale).state
    {
      var text := list.tasks[pos];
      var buf := EditBuffer(text, stale);
      var task := new Byte[MAX_IND](i requires 0 <= i < MAX_IND => buf[i]);
      assert task[..] == buf;
      var read := EditTask(task, editKeys);
      list.SetText(pos, CString(task[..]));
    }

    /** `new_task`: a zeroed buffer is edited; a non-empty string is added
        at `list.len ? pos + 1 : pos`, after which `list.len` is no longer
        0 and `pos` moves down. */
    method NewTask(editKeys: seq<int>)
      requires Valid()
      requires !Commands.NewTask(Model(), editKeys).Fault?
      modifies this, list, list.tasks, list.done
      ensures Valid() && list == old(list)
      ensures Model() == Commands.NewTask(old(Model()), editKeys).state
      ensures offset == old(offset) && listRoom == old(listRoom) && numWidth == old(numWidth) && isNew == old(isNew)
    {
      var task := new Byte[MAX_IND](_ => NUL);
      assert task[..] == Zeros(MAX_IND);
      var read := EditTask(task, editKeys);
      var t := CString(task[..]);
      if |t| != 0 {
        var at := if list.len != 0 then ToInt32(Next(pos)) else ToInt32(pos);
        list.AddTask(t, false, at);
        if list.len != 0 {
          pos := Next(pos);
        }
      }
    }

    /** `update_pads` on a screen of `lines` rows: the width of the task
        numbers for `(int) list.len`, the rows left for the list, and the
        offset scrolled so that the cursor is on screen. */
    method UpdatePads(lines: int)
      requires Valid() && -U32_MOD <= lines < U32_MOD
      modifies this
      ensures Valid() && list == old(list) && pos == old(pos) && isNew == old(isNew)
      ensures numWidth == NumWidth(ToInt32(Wrap32(list.len)))
      ensures listRoom == ListRoom(lines)
      ensures offset == Scroll(old(offset), pos, listRoom)
      ensures 0 < listRoom ==> offset <= pos < offset + listRoom
    {
      var n := ToInt32(Wrap32(list.len));
      ghost var n0 := n;
      var width := 1;
      while n > 1
        invariant width - 1 + NumWidth(n) == NumWidth(n0)
        decreases n
      {
        width := width + 1;
        n := n / 10;
      }
      numWidth := width;

      listRoom := Wrap32(lines);
      if DRAW_TITLE {
        listRoom := Wrap32(listRoom - 1);
      }
      listRoom := Wrap32(listRoom - (TOP_PAD + BOTTOM_PAD));
      ScrollToCursor();
    }

    /** The last two statements of `update_pads`: scroll down until `pos`
        is on the last row, then up until it is on the first. */
    method ScrollToCursor()
      modifies this
      ensures list == old(list) && pos == old(pos) && isNew == old(isNew)
      ensures listRoom == old(listRoom) && numWidth == old(numWidth)
      ensures offset == Scroll(old(offset), pos, listRoom)
      ensures 0 < listRoom ==> offset <= pos < offset + listRoom
    {
      if pos >= Wrap32(offset + listRoom) {
        offset := Wrap32(offset + Wrap32(Wrap32(pos - Wrap32(offset + listRoom)) + 1));
      }
      if pos < offset {
        offset := pos;
      }
      if 0 < listRoom {
        ScrollKeepsCursorVisible(old(offset), pos, listRoom);
      }
    }

    /** `draw`: `update_pads`, then the indices of the rows drawn, from
        `offset` up to `offset + list_room` cut down to `list.len`. */
    method Draw(lines: int) returns (rows: seq<nat>)
      requires Valid() && -U32_MOD <= lines < U32_MOD
      modifies this
      ensures Valid() && list == old(list) && pos == old(pos) && isNew == old(isNew)
      ensures numWidth == NumWidth(ToInt32(Wrap32(list.len))) && listRoom == ListRoom(lines)
      ensures offset == Scroll(old(offset), pos, listRoom)
      ensures |rows| == (if offset <= LastRow(offset, listRoom, list.len) then LastRow(offset, listRoom, list.len) - offset else 0)
      ensures forall k :: 0 <= k < |rows| ==> rows[k] == offset + k && rows[k] < list.len
      ensures offset + listRoom < U32_MOD && pos < list.len ==>
        (pos in rows <==> offset <= pos < offset + listRoom)
    {
      UpdatePads(lines);
      var last := LastRow(offset, listRoom, list.len);
      rows := [];
      var i: nat := offset;
      while i < last
        invariant offset <= i <= (if offset <= last then last else offset)
        invariant |rows| == i - offset
        invariant forall k :: 0 <= k < |rows| ==> rows[k] == offset + k && rows[k] < list.len
      {
        rows := rows + [i];
        i := i + 1;
      }
      if offset + listRoom < U32_MOD && pos < list.len {
        if offset <= pos < offset + listRoom {
          assert rows[pos - offset] == pos;
        }
      }
    }

    /** The lines `write_list` emits for the current list. */
    method Save() returns (file: seq<Byte>)
      requires Valid()
      ensures file == Serialize(Model().entries)
    {
      file := WriteList(list);
    }
  }
}
