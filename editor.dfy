/** The key loop of `edit_task`: editing a task's 2048-byte buffer in
    place. The cursor starts at the end of the string; a typed key is
    stored at the cursor, which then advances (while it is inside the
    buffer); backspace moves the cursor back and puts a terminator there;
    Enter ends the edit; Escape puts the whole buffer back as it was. */
module Editor {
  import opened CTypes
  import opened Keys

  /** `task_buf_len / sizeof(char)`, the `max_ind` of the loop. */
  const MAX_IND: nat := 2048

  predicate IsExit(key: int) {
    key == ENTER || key == ESCAPE
  }

  /** The loop from a state with buffer `buf`, cursor `cursor` and backup
      `backup`, on the keys `keys`: the buffer when it ends, at Enter, at
      Escape or when the keys run out. */
  function EditLoop(buf: seq<Byte>, backup: seq<Byte>, cursor: nat, keys: seq<int>): (r: seq<Byte>)
    requires |buf| == MAX_IND && cursor <= MAX_IND
    ensures |r| == MAX_IND || r == backup
    decreases |keys|
  {
    if keys == [] then buf
    else if keys[0] == ENTER then buf
    else if keys[0] == ESCAPE then backup
    else if keys[0] == KEY_BACKSPACE then
      var c := if cursor != 0 then cursor - 1 else cursor;
      EditLoop(buf[c := NUL], backup, c, keys[1..])
    else if cursor < MAX_IND then
      EditLoop(buf[cursor := KeyByte(keys[0])], backup, cursor + 1, keys[1..])
    else
      EditLoop(buf, backup, cursor, keys[1..])
  }

  /** `edit_task(buf)` reading `keys`: the backup is the buffer as it was,
      the cursor starts at `strlen(buf)`. */
  function EditResult(buf: seq<Byte>, keys: seq<int>): (r: seq<Byte>)
    requires |buf| == MAX_IND
    ensures |r| == MAX_IND
    ensures keys == [] || keys[0] == ENTER || keys[0] == ESCAPE ==> r == buf
  {
    EditLoop(buf, buf, StrLen(buf), keys)
  }

  /** How many keys `edit_task` reads: up to and including the first Enter
      or Escape, or all of them. */
  function KeysRead(keys: seq<int>): (n: nat)
    ensures n <= |keys|
    ensures forall i :: 0 <= i < n - 1 ==> !IsExit(keys[i])
    ensures n < |keys| ==> 0 < n && IsExit(keys[n - 1])
  {
    if keys == [] then 0
    else if IsExit(keys[0]) then 1
    else 1 + KeysRead(keys[1..])
  }

  /** The key loop, on the buffer itself. */
  method EditTask(task: array<Byte>, keys: seq<int>) returns (read: nat)
    requires task.Length == MAX_IND
    modifies task
    ensures task[..] == EditResult(old(task[..]), keys)
    ensures read == KeysRead(keys)
  {
    var cursor: nat := StrLen(task[..]);
    var original := task[..];
    var i := 0;
    var looping := true;
    while looping && i < |keys|
      invariant 0 <= i <= |keys| && cursor <= MAX_IND
      invariant looping ==> EditLoop(task[..], original, cursor, keys[i..]) == EditResult(original, keys)
      invariant looping ==> KeysRead(keys) == i + KeysRead(keys[i..])
      invariant !looping ==> task[..] == EditResult(original, keys) && i == KeysRead(keys)
      decreases |keys| - i, looping
    {
      var key := keys[i];
      assert keys[i..][1..] == keys[i + 1..];
      i := i + 1;
      if key == KEY_BACKSPACE {
        if cursor != 0 {
          cursor := cursor - 1;
        }
        task[cursor] := NUL;
      } else if key == ENTER {
        looping := false;
      } else if key == ESCAPE {
        forall j | 0 <= j < MAX_IND {
          task[j] := original[j];
        }
        looping := false;
      } else if cursor < MAX_IND {
        task[cursor] := KeyByte(key);
        cursor := cursor + 1;
      }
    }
    if looping {
      assert keys[i..] == [];
    }
    read := i;
  }

  // ---------------------------------------------------------------------
  // The echo before each key.

  /** Whether every buffer the loop prints with `wprintw(input_win, "%s",
      task)`, once before each key it waits for, holds a terminator: the
      echo of a buffer without one reads past its end. */
  predicate EchoesTerminated(buf: seq<Byte>, backup: seq<Byte>, cursor: nat, keys: seq<int>)
    requires |buf| == MAX_IND && cursor <= MAX_IND
    decreases |keys|
  {
    NUL in buf &&
    (keys == [] || IsExit(keys[0]) ||
     if keys[0] == KEY_BACKSPACE then
       var c := if cursor != 0 then cursor - 1 else cursor;
       EchoesTerminated(buf[c := NUL], backup, c, keys[1..])
     else if cursor < MAX_IND then
       EchoesTerminated(buf[cursor := KeyByte(keys[0])], backup, cursor + 1, keys[1..])
     else
       EchoesTerminated(buf, backup, cursor, keys[1..]))
  }

  /** The echoes of `edit_task(buf)` reading `keys` are all terminated. */
  predicate EditEchoesTerminated(buf: seq<Byte>, keys: seq<int>)
    requires |buf| == MAX_IND
  {
    EchoesTerminated(buf, buf, StrLen(buf), keys)
  }

  /** When every echo is terminated and so is the backup, the buffer the
      loop ends with is terminated too: it is the last one echoed, or the
      backup. */
  lemma {:induction false} EchoedResultTerminated(buf: seq<Byte>, backup: seq<Byte>, cursor: nat, keys: seq<int>)
    requires |buf| == MAX_IND && cursor <= MAX_IND
    requires EchoesTerminated(buf, backup, cursor, keys) && NUL in backup
    ensures NUL in EditLoop(buf, backup, cursor, keys)
    decreases |keys|
  {
    if keys != [] && !IsExit(keys[0]) {
      var c := if cursor != 0 then cursor - 1 else cursor;
      if keys[0] == KEY_BACKSPACE {
        EchoedResultTerminated(buf[c := NUL], backup, c, keys[1..]);
      } else if cursor < MAX_IND {
        EchoedResultTerminated(buf[cursor := KeyByte(keys[0])], backup, cursor + 1, keys[1..]);
      } else {
        EchoedResultTerminated(buf, backup, cursor, keys[1..]);
      }
    }
  }

  /** The echoes up to an Enter or Escape are all the loop makes: the keys
      after it play no part. */
  lemma {:induction false} EchoesUpToExit(buf: seq<Byte>, backup: seq<Byte>, cursor: nat, pre: seq<int>, x: int, post: seq<int>)
    requires |buf| == MAX_IND && cursor <= MAX_IND
    requires forall i :: 0 <= i < |pre| ==> !IsExit(pre[i])
    requires IsExit(x)
    ensures EchoesTerminated(buf, backup, cursor, pre + [x] + post) == EchoesTerminated(buf, backup, cursor, pre)
    decreases |pre|
  {
    var keys := pre + [x] + post;
    if pre != [] {
      assert keys[0] == pre[0] && keys[1..] == pre[1..] + [x] + post;
      var c := if cursor != 0 then cursor - 1 else cursor;
      if pre[0] == KEY_BACKSPACE {
        EchoesUpToExit(buf[c := NUL], backup, c, pre[1..], x, post);
      } else if cursor < MAX_IND {
        EchoesUpToExit(buf[cursor := KeyByte(pre[0])], backup, cursor + 1, pre[1..], x, post);
      } else {
        EchoesUpToExit(buf, backup, cursor, pre[1..], x, post);
      }
    } else {
      assert keys[0] == x;
    }
  }

  /** A terminator beyond the cursor's reach survives every echo. */
  lemma {:induction false} EchoesWithinReach(buf: seq<Byte>, backup: seq<Byte>, cursor: nat, keys: seq<int>, j: nat)
    requires |buf| == MAX_IND && cursor <= MAX_IND
    requires cursor + |keys| <= j < MAX_IND && buf[j] == NUL
    ensures EchoesTerminated(buf, backup, cursor, keys)
    decreases |keys|
  {
    assert buf[j] in buf;
    if keys != [] && !IsExit(keys[0]) {
      var c := if cursor != 0 then cursor - 1 else cursor;
      if keys[0] == KEY_BACKSPACE {
        EchoesWithinReach(buf[c := NUL], backup, c, keys[1..], j);
      } else {
        EchoesWithinReach(buf[cursor := KeyByte(keys[0])], backup, cursor + 1, keys[1..], j);
      }
    }
  }

  /** Typing keys that are not NUL until the buffer is full leaves no
      terminator for the echo that follows, whatever keys come after. */
  lemma {:induction false} FillingEchoFaults(buf: seq<Byte>, backup: seq<Byte>, cursor: nat, keys: seq<int>)
    requires |buf| == MAX_IND && cursor <= MAX_IND && cursor + |keys| >= MAX_IND
    requires forall i :: 0 <= i < cursor ==> buf[i] != NUL
    requires forall i :: 0 <= i < MAX_IND - cursor ==> !IsExit(keys[i]) && keys[i] != KEY_BACKSPACE && KeyByte(keys[i]) != NUL
    ensures !EchoesTerminated(buf, backup, cursor, keys)
    decreases MAX_IND - cursor
  {
    if cursor < MAX_IND {
      var rest := keys[1..];
      assert forall i :: 0 <= i < MAX_IND - cursor - 1 ==> rest[i] == keys[i + 1];
      FillingEchoFaults(buf[cursor := KeyByte(keys[0])], backup, cursor + 1, rest);
    } else {
      assert forall i :: 0 <= i < |buf| ==> buf[i] != NUL;
    }
  }

  // ---------------------------------------------------------------------
  // What the loop does, stated on the string being typed.

  /** The string a user types with `keys` (none of them Enter or Escape),
      starting from `t`: a typed key appends its byte while fewer than `cap`
      bytes are there, backspace drops the last byte. */
  function TextEdit(t: seq<Byte>, keys: seq<int>, cap: nat): (r: seq<Byte>)
    requires |t| <= cap
    ensures |r| <= cap
    decreases |keys|
  {
    if keys == [] then t
    else if keys[0] == KEY_BACKSPACE then
      TextEdit(if |t| > 0 then t[..|t| - 1] else t, keys[1..], cap)
    else if |t| < cap then TextEdit(t + [KeyByte(keys[0])], keys[1..], cap)
    else TextEdit(t, keys[1..], cap)
  }

  /** Escape puts the buffer back byte for byte, whatever was typed first. */
  lemma {:induction false} EscapeRestores(buf: seq<Byte>, backup: seq<Byte>, cursor: nat, pre: seq<int>, post: seq<int>)
    requires |buf| == MAX_IND && cursor <= MAX_IND
    requires forall i :: 0 <= i < |pre| ==> !IsExit(pre[i])
    ensures EditLoop(buf, backup, cursor, pre + [ESCAPE] + post) == backup
    decreases |pre|
  {
    var keys := pre + [ESCAPE] + post;
    if pre != [] {
      assert keys[0] == pre[0] && keys[1..] == pre[1..] + [ESCAPE] + post;
      var c := if cursor != 0 then cursor - 1 else cursor;
      if pre[0] == KEY_BACKSPACE {
        EscapeRestores(buf[c := NUL], backup, c, pre[1..], post);
      } else if cursor < MAX_IND {
        EscapeRestores(buf[cursor := KeyByte(pre[0])], backup, cursor + 1, pre[1..], post);
      } else {
        EscapeRestores(buf, backup, cursor, pre[1..], post);
      }
    }
  }

  /** `edit_task` cancelled with Escape leaves the task exactly as it was. */
  lemma EditCancelled(buf: seq<Byte>, pre: seq<int>, post: seq<int>)
    requires |buf| == MAX_IND
    requires forall i :: 0 <= i < |pre| ==> !IsExit(pre[i])
    ensures EditResult(buf, pre + [ESCAPE] + post) == buf
  {
    EscapeRestores(buf, buf, StrLen(buf), pre, post);
  }

  /** Keys after Enter are not read. */
  lemma {:induction false} EnterFinishes(buf: seq<Byte>, backup: seq<Byte>, cursor: nat, pre: seq<int>, post: seq<int>)
    requires |buf| == MAX_IND && cursor <= MAX_IND
    requires forall i :: 0 <= i < |pre| ==> !IsExit(pre[i])
    ensures EditLoop(buf, backup, cursor, pre + [ENTER] + post) == EditLoop(buf, backup, cursor, pre)
    decreases |pre|
  {
    var keys := pre + [ENTER] + post;
    if pre != [] {
      assert keys[0] == pre[0] && keys[1..] == pre[1..] + [ENTER] + post;
      var c := if cursor != 0 then cursor - 1 else cursor;
      if pre[0] == KEY_BACKSPACE {
        EnterFinishes(buf[c := NUL], backup, c, pre[1..], post);
      } else if cursor < MAX_IND {
        EnterFinishes(buf[cursor := KeyByte(pre[0])], backup, cursor + 1, pre[1..], post);
      } else {
        EnterFinishes(buf, backup, cursor, pre[1..], post);
      }
    }
  }

  /** Without Enter or Escape the loop never touches a byte at or beyond
      the furthest the cursor can reach, `cursor + |keys|`. */
  lemma {:induction false} EditStaysInReach(buf: seq<Byte>, backup: seq<Byte>, cursor: nat, keys: seq<int>, j: nat)
    requires |buf| == MAX_IND && |backup| == MAX_IND && cursor <= MAX_IND
    requires forall i :: 0 <= i < |keys| ==> !IsExit(keys[i])
    requires cursor + |keys| <= j < MAX_IND
    ensures EditLoop(buf, backup, cursor, keys)[j] == buf[j]
    decreases |keys|
  {
    if keys != [] {
      var c := if cursor != 0 then cursor - 1 else cursor;
      if keys[0] == KEY_BACKSPACE {
        EditStaysInReach(buf[c := NUL], backup, c, keys[1..], j);
      } else {
        EditStaysInReach(buf[cursor := KeyByte(keys[0])], backup, cursor + 1, keys[1..], j);
      }
    }
  }

  /** When everything behind the cursor's string is NUL (a `calloc`ed
      buffer is), the loop edits exactly the typed string. */
  lemma {:induction false} EditOnCleanBuffer(buf: seq<Byte>, backup: seq<Byte>, t: seq<Byte>, keys: seq<int>)
    requires |buf| == MAX_IND && t <= buf
    requires forall j :: |t| <= j < MAX_IND ==> buf[j] == NUL
    requires forall i :: 0 <= i < |keys| ==> !IsExit(keys[i])
    ensures CString(EditLoop(buf, backup, |t|, keys)) == CString(TextEdit(t, keys, MAX_IND))
    decreases |keys|
  {
    if keys == [] {
      CStringOfPrefixAndZeros(buf, t);
    } else if keys[0] == KEY_BACKSPACE {
      var t' := if |t| > 0 then t[..|t| - 1] else t;
      var c := |t'|;
      EditOnCleanBuffer(buf[c := NUL], backup, t', keys[1..]);
    } else if |t| < MAX_IND {
      var t' := t + [KeyByte(keys[0])];
      EditOnCleanBuffer(buf[|t| := KeyByte(keys[0])], backup, t', keys[1..]);
    } else {
      EditOnCleanBuffer(buf, backup, t, keys[1..]);
    }
  }

  /** `new_task` edits a zeroed buffer: typing and backspace then build
      exactly the string `TextEdit` describes, and Enter keeps it. */
  lemma EditNewBuffer(pre: seq<int>, post: seq<int>)
    requires forall i :: 0 <= i < |pre| ==> !IsExit(pre[i])
    ensures CString(EditResult(Zeros(MAX_IND), pre + [ENTER] + post)) == CString(TextEdit([], pre, MAX_IND))
  {
    var z := Zeros(MAX_IND);
    assert StrLen(z) == 0;
    EnterFinishes(z, z, 0, pre, post);
    EditOnCleanBuffer(z, z, [], pre);
  }

  // ---------------------------------------------------------------------
  // A typed key leaves no terminator behind it.

  /** What `parse_task` leaves in a line's buffer: the text, the NUL put
      over the `:`, the flag and newline, the NUL `strcpy` copied, and
      whatever the `malloc`ed buffer held beyond. */
  function ParsedBuffer(text: seq<Byte>, flag: Byte, rest: seq<Byte>): (b: seq<Byte>)
    ensures |b| == |text| + 4 + |rest| && text <= b
    ensures b[|text|] == NUL && b[|text| + 1] == flag && b[|text| + 2] == '\n' && b[|text| + 3] == NUL
  {
    text + [NUL, flag, '\n', NUL] + rest
  }

  /** Read as C strings, such a buffer holds the text, and behind its
      terminator the flag and the newline. */
  lemma ParsedBufferStrings(text: seq<Byte>, flag: Byte, rest: seq<Byte>)
    ensures var b := ParsedBuffer(text, flag, rest);
      NUL in b && (NUL !in text ==> CString(b) == text) &&
      (flag != NUL ==> CString(b[|text| + 1..]) == [flag, '\n'])
  {
    var b := ParsedBuffer(text, flag, rest);
    assert b == text + [NUL] + ([flag, '\n', NUL] + rest);
    assert b[|text|] in b;
    if NUL !in text {
      CStringOfTerminated(text, [flag, '\n', NUL] + rest);
    }
    if flag != NUL {
      assert b[|text| + 1..] == [flag, '\n'] + [NUL] + rest;
      CStringOfTerminated([flag, '\n'], rest);
    }
  }

  /** Editing a loaded task and typing one key brings the old flag and
      newline back into the text: the key overwrites the terminator, and
      the next NUL is the one after the newline. */
  lemma TypingRevealsStaleBytes(text: seq<Byte>, flag: Byte, rest: seq<Byte>, key: int)
    requires NUL !in text && flag != NUL
    requires |ParsedBuffer(text, flag, rest)| == MAX_IND
    requires !IsExit(key) && key != KEY_BACKSPACE && KeyByte(key) != NUL
    ensures CString(EditResult(ParsedBuffer(text, flag, rest), [key, ENTER]))
         == text + [KeyByte(key), flag, '\n']
    ensures text + [KeyByte(key), flag, '\n'] != CString(TextEdit(text, [key], MAX_IND))
  {
    var b := ParsedBuffer(text, flag, rest);
    assert b == text + [NUL] + ([flag, '\n', NUL] + rest);
    CStringOfTerminated(text, [flag, '\n', NUL] + rest);
    var n := |text|;
    assert StrLen(b) == n;
    var b' := b[n := KeyByte(key)];
    assert [key, ENTER][1..] == [ENTER];
    assert EditLoop(b', b, n + 1, [ENTER]) == b';
    assert EditResult(b, [key, ENTER]) == b';
    var k := KeyByte(key);
    assert b' == (text + [k, flag, '\n']) + [NUL] + rest;
    CStringOfTerminated(text + [k, flag, '\n'], rest);
    assert TextEdit(text + [k], [], MAX_IND) == text + [k];
    CStringOfNulFree(text + [k]);
    assert |text + [k]| < |text + [k, flag, '\n']|;
  }

  /** Both echoes of that edit are terminated: the first by the NUL over
      the `:`, the second by the one `strcpy` copied. */
  lemma ParsedEchoesTerminated(text: seq<Byte>, flag: Byte, rest: seq<Byte>, key: int)
    requires NUL !in text
    requires |ParsedBuffer(text, flag, rest)| == MAX_IND
    requires !IsExit(key) && key != KEY_BACKSPACE
    ensures EditEchoesTerminated(ParsedBuffer(text, flag, rest), [key, ENTER])
  {
    var b := ParsedBuffer(text, flag, rest);
    var n := |text|;
    assert b == text + [NUL] + ([flag, '\n', NUL] + rest);
    CStringOfTerminated(text, [flag, '\n', NUL] + rest);
    assert StrLen(b) == n;
    var b' := b[n := KeyByte(key)];
    assert b[n] in b && b'[n + 3] in b';
    assert [key, ENTER][1..] == [ENTER];
    assert EchoesTerminated(b', b, n + 1, [ENTER]);
  }

  /** The loop with the terminator written: a typed key is stored only while
      one byte is left for the NUL that follows it. */
  function EditLoopFixed(buf: seq<Byte>, backup: seq<Byte>, cursor: nat, keys: seq<int>): (r: seq<Byte>)
    requires |buf| == MAX_IND && cursor < MAX_IND
    ensures |r| == MAX_IND || r == backup
    decreases |keys|
  {
    if keys == [] then buf
    else if keys[0] == ENTER then buf
    else if keys[0] == ESCAPE then backup
    else if keys[0] == KEY_BACKSPACE then
      var c := if cursor != 0 then cursor - 1 else cursor;
      EditLoopFixed(buf[c := NUL], backup, c, keys[1..])
    else if cursor + 1 < MAX_IND then
      EditLoopFixed(buf[cursor := KeyByte(keys[0])][cursor + 1 := NUL], backup, cursor + 1, keys[1..])
    else
      EditLoopFixed(buf, backup, cursor, keys[1..])
  }

  /** `edit_task` with the terminator written; the buffer must hold one,
      as `strlen` needs. */
  function EditResultFixed(buf: seq<Byte>, keys: seq<int>): (r: seq<Byte>)
    requires |buf| == MAX_IND && NUL in buf
    ensures |r| == MAX_IND
    ensures keys == [] || keys[0] == ENTER || keys[0] == ESCAPE ==> r == buf
  {
    EditLoopFixed(buf, buf, StrLen(buf), keys)
  }

  /** The echoes of the corrected `edit_task(buf)` are all terminated. */
  predicate EditEchoesTerminatedFixed(buf: seq<Byte>, keys: seq<int>)
    requires |buf| == MAX_IND && NUL in buf
  {
    EchoesTerminatedFixed(buf, buf, StrLen(buf), keys)
  }

  /** `EchoesTerminated` for the corrected loop. */
  predicate EchoesTerminatedFixed(buf: seq<Byte>, backup: seq<Byte>, cursor: nat, keys: seq<int>)
    requires |buf| == MAX_IND && cursor < MAX_IND
    decreases |keys|
  {
    NUL in buf &&
    (keys == [] || IsExit(keys[0]) ||
     if keys[0] == KEY_BACKSPACE then
       var c := if cursor != 0 then cursor - 1 else cursor;
       EchoesTerminatedFixed(buf[c := NUL], backup, c, keys[1..])
     else if cursor + 1 < MAX_IND then
       EchoesTerminatedFixed(buf[cursor := KeyByte(keys[0])][cursor + 1 := NUL], backup, cursor + 1, keys[1..])
     else
       EchoesTerminatedFixed(buf, backup, cursor, keys[1..]))
  }

  /** The corrected loop keeps a terminator under the cursor, so every
      buffer it echoes is terminated. */
  lemma {:induction false} FixedEchoesTerminated(buf: seq<Byte>, backup: seq<Byte>, cursor: nat, keys: seq<int>)
    requires |buf| == MAX_IND && cursor < MAX_IND && buf[cursor] == NUL
    ensures EchoesTerminatedFixed(buf, backup, cursor, keys)
    decreases |keys|
  {
    assert buf[cursor] in buf;
    if keys != [] && !IsExit(keys[0]) {
      var c := if cursor != 0 then cursor - 1 else cursor;
      if keys[0] == KEY_BACKSPACE {
        FixedEchoesTerminated(buf[c := NUL], backup, c, keys[1..]);
      } else if cursor + 1 < MAX_IND {
        FixedEchoesTerminated(buf[cursor := KeyByte(keys[0])][cursor + 1 := NUL], backup, cursor + 1, keys[1..]);
      } else {
        FixedEchoesTerminated(buf, backup, cursor, keys[1..]);
      }
    }
  }

  lemma {:induction false} EditFixedEditsText(buf: seq<Byte>, backup: seq<Byte>, t: seq<Byte>, keys: seq<int>)
    requires |buf| == MAX_IND && t <= buf && |t| < MAX_IND && buf[|t|] == NUL
    requires forall i :: 0 <= i < |keys| ==> !IsExit(keys[i])
    ensures NUL in EditLoopFixed(buf, backup, |t|, keys)
    ensures CString(EditLoopFixed(buf, backup, |t|, keys)) == CString(TextEdit(t, keys, MAX_IND - 1))
    decreases |keys|
  {
    if keys == [] {
      CStringOfTerminatedPrefix(buf, t);
    } else if keys[0] == KEY_BACKSPACE {
      var t' := if |t| > 0 then t[..|t| - 1] else t;
      EditFixedEditsText(buf[|t'| := NUL], backup, t', keys[1..]);
    } else if |t| + 1 < MAX_IND {
      var t' := t + [KeyByte(keys[0])];
      EditFixedEditsText(buf[|t| := KeyByte(keys[0])][|t| + 1 := NUL], backup, t', keys[1..]);
    } else {
      EditFixedEditsText(buf, backup, t, keys[1..]);
    }
  }

  /** With the terminator written, the edit is exactly `TextEdit` of the
      task's string, whatever lies in the buffer behind it, and the buffer
      keeps a terminator. */
  lemma EditFixedIgnoresStaleBytes(buf: seq<Byte>, pre: seq<int>)
    requires |buf| == MAX_IND && NUL in buf
    requires forall i :: 0 <= i < |pre| ==> !IsExit(pre[i])
    ensures NUL in EditResultFixed(buf, pre)
    ensures CString(EditResultFixed(buf, pre)) == CString(TextEdit(CString(buf), pre, MAX_IND - 1))
  {
    var n := StrLen(buf);
    assert n < MAX_IND by {
      var j :| 0 <= j < |buf| && buf[j] == NUL;
      assert n <= j;
    }
    EditFixedEditsText(buf, buf, buf[..n], pre);
  }
}
