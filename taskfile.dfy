/** The list file: one line `text ':' flag '\n'` per entry, as `write_list`
    writes it, read back by `load_list` with `fgets` into a 2048-byte
    buffer and split by `parse_task`. File access itself is left to the
    caller: writing yields the bytes of the file, loading takes them. */
module TaskFile {
  import opened CTypes
  import opened Entries
  import opened TaskStore

  /** `task_buf_len`: the size of every task buffer and of the line buffer
      handed to `fgets`. */
  const TASK_BUF_LEN: nat := 2048

  /** The line `write_list` emits for one entry: `fputs` of the text (up to
      its terminator), then `:`, then `1` or `0`, then a newline. */
  function FormatLine(e: Entry): (line: seq<Byte>)
    ensures |line| == |CString(e.text)| + 3 && CString(e.text) <= line
    ensures line[|line| - 3] == ':' && line[|line| - 1] == '\n'
  {
    CString(e.text) + [':', if e.done then '1' else '0', '\n']
  }

  /** The whole file `write_list` emits. */
  function Serialize(es: seq<Entry>): (file: seq<Byte>)
    ensures |file| >= 3 * |es|
    ensures file == [] <==> es == []
  {
    if es == [] then [] else FormatLine(es[0]) + Serialize(es[1..])
  }

  /** Where the `fgets` call that starts scanning `file` at its beginning
      stops, having read `i` bytes: after a newline, after
      `TASK_BUF_LEN - 1` bytes, or at the end of the file. */
  function LineEnd(file: seq<Byte>, i: nat): (n: nat)
    requires i <= |file| && i < TASK_BUF_LEN
    requires forall j :: 0 <= j < i ==> file[j] != '\n'
    ensures i <= n <= |file| && n < TASK_BUF_LEN
    ensures forall j :: 0 <= j < n - 1 ==> file[j] != '\n'
    ensures n == |file| || n == TASK_BUF_LEN - 1 || (0 < n && file[n - 1] == '\n')
    decreases |file| - i
  {
    if i == |file| || i == TASK_BUF_LEN - 1 then i
    else if file[i] == '\n' then i + 1
    else LineEnd(file, i + 1)
  }

  /** The successive buffers `fgets` fills from `file`. */
  function Lines(file: seq<Byte>): (lines: seq<seq<Byte>>)
    ensures forall i :: 0 <= i < |lines| ==> 0 < |lines[i]| < TASK_BUF_LEN
    ensures lines == [] <==> file == []
    decreases |file|
  {
    if file == [] then []
    else
      var n := LineEnd(file, 0);
      if n == 0 then [] else [file[..n]] + Lines(file[n..])
  }

  /** `parse_task` on the C string `s` of a line: a line whose third byte
      from the end is not `:` is malformed; otherwise the text is what comes
      before that `:` and the flag is whether the byte after it is `1`. */
  function ParseTask(s: seq<Byte>): (r: Option<Entry>)
    requires |s| >= 3
    ensures r.Some? <==> s[|s| - 3] == ':'
    ensures r.Some? ==> r.value.text + [':'] <= s && |r.value.text| + 3 == |s|
  {
    if s[|s| - 3] != ':' then None
    else Some(Entry(s[..|s| - 3], s[|s| - 2] == '1'))
  }

  datatype Option<T> = None | Some(value: T)

  /** What loading lines yields: the entries appended, and the lines
      skipped with a warning. */
  datatype LoadResult = LoadResult(entries: seq<Entry>, skipped: seq<seq<Byte>>)

  /** `parse_task` works on `strlen(line) >= 3` bytes; a shorter line makes
      it read before the start of the buffer. */
  predicate Parsable(lines: seq<seq<Byte>>) {
    forall l :: l in lines ==> |CString(l)| >= 3
  }

  /** The loop of `load_list`: every line is copied as a C string and
      parsed; well-formed ones are appended, the others skipped. */
  function Load(lines: seq<seq<Byte>>): (r: LoadResult)
    requires Parsable(lines)
    ensures |r.entries| + |r.skipped| == |lines|
  {
    if lines == [] then LoadResult([], [])
    else
      var rest := Load(lines[1..]);
      match ParseTask(CString(lines[0]))
      case Some(e) => LoadResult([e] + rest.entries, rest.skipped)
      case None => LoadResult(rest.entries, [lines[0]] + rest.skipped)
  }

  /** A text that survives the file: no terminator, no newline, and short
      enough that its line fits the `fgets` buffer. */
  predicate Storable(text: seq<Byte>) {
    NUL !in text && '\n' !in text && |text| + 3 <= TASK_BUF_LEN - 1
  }

  // ---------------------------------------------------------------------
  // Parsing a line against formatting it.

  /** Parsing the line written for an entry gives the entry back. */
  lemma ParseFormatLine(e: Entry)
    requires NUL !in e.text
    ensures |FormatLine(e)| >= 3
    ensures ParseTask(CString(FormatLine(e))) == Some(e)
  {
    var line := FormatLine(e);
    CStringOfNulFree(e.text);
    assert NUL !in line;
    CStringOfNulFree(line);
    assert line[..|line| - 3] == e.text;
  }

  /** The other way round: a well-formed line whose flag is `0` or `1` and
      which ends in a newline is what `write_list` writes for the entry it
      parses to. Other bytes in those places are lost. */
  lemma FormatParsedLine(s: seq<Byte>)
    requires |s| >= 3 && NUL !in s
    requires ParseTask(s).Some?
    requires s[|s| - 2] in "01" && s[|s| - 1] == '\n'
    ensures FormatLine(ParseTask(s).value) == s
  {
    var e := ParseTask(s).value;
    assert NUL !in e.text;
    CStringOfNulFree(e.text);
    assert s == s[..|s| - 3] + [s[|s| - 3], s[|s| - 2], s[|s| - 1]];
  }

  // ---------------------------------------------------------------------
  // Splitting a file into lines.

  lemma {:induction false} LineEndAtNewline(file: seq<Byte>, i: nat, n: nat)
    requires i <= n < |file| && n < TASK_BUF_LEN - 1
    requires file[n] == '\n'
    requires forall j :: 0 <= j < n ==> file[j] != '\n'
    ensures LineEnd(file, i) == n + 1
    decreases n - i
  {
    if i < n {
      LineEndAtNewline(file, i + 1, n);
    }
  }

  /** `fgets` reads a written line, and only that line, as one buffer. */
  lemma LinesOfFormatted(e: Entry, rest: seq<Byte>)
    requires Storable(e.text)
    ensures Lines(FormatLine(e) + rest) == [FormatLine(e)] + Lines(rest)
  {
    var line := FormatLine(e);
    var file := line + rest;
    CStringOfNulFree(e.text);
    assert forall j :: 0 <= j < |line| - 1 ==> file[j] != '\n';
    LineEndAtNewline(file, 0, |line| - 1);
    assert file[..|line|] == line && file[|line|..] == rest;
  }

  /** Lines of two parsable sequences, and the tail of one, are parsable. */
  lemma ParsableParts(a: seq<seq<Byte>>, b: seq<seq<Byte>>)
    requires Parsable(a) && Parsable(b)
    ensures Parsable(a + b)
    ensures a != [] ==> Parsable(a[1..])
  {
    forall l | l in a + b ensures |CString(l)| >= 3 {
      assert l in a || l in b;
    }
    if a != [] {
      forall l | l in a[1..] ensures |CString(l)| >= 3 {
        assert l in a;
      }
    }
  }

  lemma {:induction false} LoadAppend(a: seq<seq<Byte>>, b: seq<seq<Byte>>)
    requires Parsable(a) && Parsable(b)
    ensures Parsable(a + b)
    ensures Load(a + b).entries == Load(a).entries + Load(b).entries
    ensures Load(a + b).skipped == Load(a).skipped + Load(b).skipped
  {
    ParsableParts(a, b);
    if a != [] {
      var tail := a[1..];
      assert (a + b)[1..] == tail + b;
      assert (a + b)[0] == a[0];
      LoadAppend(tail, b);
      var r, rt := Load(a + b), Load(tail + b);
      assert r.entries == (if ParseTask(CString(a[0])).Some? then [ParseTask(CString(a[0])).value] else []) + rt.entries;
      assert r.skipped == (if ParseTask(CString(a[0])).Some? then [] else [a[0]]) + rt.skipped;
    } else {
      assert a + b == b;
    }
  }

  /** Writing the list and loading it back gives the same entries, text and
      flag, dividers included, and no warning. */
  lemma {:induction false} LoadSerialize(es: seq<Entry>)
    requires forall e :: e in es ==> Storable(e.text)
    ensures Parsable(Lines(Serialize(es)))
    ensures Load(Lines(Serialize(es))) == LoadResult(es, [])
  {
    if es != [] {
      var e := es[0];
      LinesOfFormatted(e, Serialize(es[1..]));
      LoadSerialize(es[1..]);
      LoadWritten(e, Lines(Serialize(es[1..])));
      assert es == [e] + es[1..];
    }
  }

  /** Loading a written line in front of other lines adds its entry in
      front of theirs. */
  lemma LoadWritten(e: Entry, rest: seq<seq<Byte>>)
    requires NUL !in e.text && Parsable(rest)
    ensures Parsable([FormatLine(e)] + rest)
    ensures Load([FormatLine(e)] + rest) == LoadResult([e] + Load(rest).entries, Load(rest).skipped)
  {
    ParseFormatLine(e);
    var lines := [FormatLine(e)] + rest;
    assert forall l :: l in lines ==> l == FormatLine(e) || l in rest;
    assert lines[0] == FormatLine(e) && lines[1..] == rest;
  }

  /** The first line of the example below is what `write_list` writes for
      the task `buy milk`, not done. (The file is a parameter rather than a
      literal so that the verifier does not unfold `CString` on it.) */
  lemma MilkLine(file: seq<Byte>)
    requires file == "buy milk:0\ngarbage\n"
    ensures file[..8] == "buy milk" && Storable(file[..8])
    ensures file == FormatLine(Entry(file[..8], false)) + file[11..]
  {
    var t := file[..8];
    CStringOfNulFree(t);
    assert file[..11] == t + [':', '0', '\n'];
  }

  /** A line with no `:` before its last two bytes: one `fgets` buffer,
      and malformed. */
  lemma GarbageLine(g: seq<Byte>)
    requires g == "garbage\n"
    ensures Lines(g) == [g]
    ensures Parsable([g]) && Load([g]) == LoadResult([], [g])
  {
    LineEndAtNewline(g, 0, 7);
    var none: seq<Byte> := [];
    assert g[..8] == g && g[8..] == none;
    CStringOfNulFree(g);
    assert ParseTask(CString(g)) == None;
    var empty: seq<seq<Byte>> := [];
    assert [g][1..] == empty;
  }

  /** The file `buy milk:0` / `garbage`: `fgets` reads two lines; the
      first is loaded as the task `buy milk`, not done, and the second is
      skipped with a warning. */
  lemma LoadExample(file: seq<Byte>)
    requires file == "buy milk:0\ngarbage\n"
    ensures file[..8] == "buy milk" && file[11..] == "garbage\n"
    ensures Lines(file) == [file[..11], file[11..]]
    ensures Parsable(Lines(file))
    ensures Load(Lines(file)) == LoadResult([Entry(file[..8], false)], [file[11..]])
  {
    var e := Entry(file[..8], false);
    var g := file[11..];
    MilkLine(file);
    GarbageLine(g);
    LinesOfFormatted(e, g);
    assert file[..11] == FormatLine(e);
    LoadWritten(e, [g]);
  }

  /** Loading one more line: a line whose third byte from the end is not
      `:` leaves the entries as they were and is reported; any other line
      adds the entry it parses to. */
  lemma LoadStep(lines: seq<seq<Byte>>, i: nat)
    requires Parsable(lines) && i < |lines|
    ensures Parsable(lines[..i]) && Parsable(lines[..i + 1])
    ensures |CString(lines[i])| >= 3
    ensures var p, before := ParseTask(CString(lines[i])), Load(lines[..i]);
      Load(lines[..i + 1]) ==
        if p.None? then LoadResult(before.entries, before.skipped + [lines[i]])
        else LoadResult(before.entries + [p.value], before.skipped)
  {
    assert lines[..i + 1] == lines[..i] + [lines[i]];
    assert lines[i] in lines;
    assert forall l :: l in lines[..i + 1] ==> l in lines;
    LoadAppend(lines[..i], [lines[i]]);
    var none: seq<seq<Byte>> := [];
    assert [lines[i]][1..] == none;
  }

  lemma SerializeAppend(a: seq<Entry>, e: Entry)
    ensures Serialize(a + [e]) == Serialize(a) + FormatLine(e)
  {
    if a == [] {
      assert [e][1..] == [];
    } else {
      assert (a + [e])[1..] == a[1..] + [e];
      SerializeAppend(a[1..], e);
    }
  }

  /** The file of the first `i + 1` entries extends that of the first `i`
      by the line of entry `i`. */
  lemma SerializePrefix(es: seq<Entry>, i: nat)
    requires i < |es|
    ensures Serialize(es[..i + 1]) == Serialize(es[..i]) + FormatLine(es[i])
  {
    assert es[..i + 1] == es[..i] + [es[i]];
    SerializeAppend(es[..i], es[i]);
  }

  /** The loop of `write_list`: the bytes it sends to the file. */
  method WriteList(list: TaskList) returns (file: seq<Byte>)
    requires list.Valid()
    ensures file == Serialize(list.Contents())
  {
    ghost var es := list.Contents();
    file := [];
    var i := 0;
    while i < list.len
      invariant 0 <= i <= list.len == |es|
      invariant file == Serialize(es[..i])
    {
      var line := CString(list.tasks[i]) + [':', if list.done[i] then '1' else '0', '\n'];
      assert es[i] == Entry(list.tasks[i], list.done[i]);
      SerializePrefix(es, i);
      file := file + line;
      i := i + 1;
    }
    assert es[..i] == es;
  }

  /** `parse_task(s)`: a malformed line is reported and leaves the list as
      it was; otherwise the entry it parses to is appended with
      `add_task(text, flag, -1)`. */
  method ParseInto(list: TaskList, s: seq<Byte>) returns (malformed: bool)
    requires list.Valid() && |s| >= 3
    modifies list, list.tasks, list.done
    ensures list.Valid()
    ensures malformed <==> ParseTask(s).None?
    ensures malformed ==> list.Contents() == old(list.Contents())
    ensures !malformed ==> list.Contents() == old(list.Contents()) + [ParseTask(s).value]
    ensures list.tasks == old(list.tasks) || fresh(list.tasks)
    ensures list.done == old(list.done) || fresh(list.done)
  {
    if s[|s| - 3] != ':' {
      malformed := true;
    } else {
      malformed := false;
      ghost var before := list.Contents();
      list.AddTask(s[..|s| - 3], s[|s| - 2] == '1', -1);
      InsertAtEnd(before, Entry(s[..|s| - 3], s[|s| - 2] == '1'));
    }
  }

  /** The loop of `load_list` with `parse_task`: each well-formed line is
      appended with `add_task(text, flag, -1)`; the malformed ones are
      returned as the warnings printed for them. */
  method LoadLines(list: TaskList, lines: seq<seq<Byte>>) returns (skipped: seq<seq<Byte>>)
    requires list.Valid() && Parsable(lines)
    modifies list, list.tasks, list.done
    ensures list.Valid()
    ensures list.Contents() == old(list.Contents()) + Load(lines).entries
    ensures skipped == Load(lines).skipped
  {
    ghost var c0 := list.Contents();
    skipped := [];
    var i := 0;
    while i < |lines|
      invariant 0 <= i <= |lines| && list.Valid()
      invariant Parsable(lines[..i])
      invariant list.Contents() == c0 + Load(lines[..i]).entries
      invariant skipped == Load(lines[..i]).skipped
      invariant list.tasks == old(list.tasks) || fresh(list.tasks)
      invariant list.done == old(list.done) || fresh(list.done)
    {
      LoadStep(lines, i);
      ghost var entries := Load(lines[..i]).entries;
      ghost var p := ParseTask(CString(lines[i]));
      var malformed := ParseInto(list, CString(lines[i]));
      if malformed {
        skipped := skipped + [lines[i]];
      } else {
        assert (c0 + entries) + [p.value] == c0 + (entries + [p.value]);
      }
      i := i + 1;
    }
    assert lines[..i] == lines;
  }
}
