# cto-do: a verified model of the task list core

cto-do is a terminal to-do list written in C (`ctodo.c`). It keeps one list
of tasks in memory in the global `tdlist list`. That structure holds two
parallel arrays, `tasks` (C strings in 2048-byte buffers) and `done`, plus
`len` and `capacity`. A task whose first byte is `0x07` is a divider: it is
drawn as a heading and is not counted as a task. The user moves a cursor
`pos` with `j`/`k`, moves entries with `J`/`K`, deletes with `R`, flips the
done flag with Enter, creates a task with space and edits one with `E`. The
list is saved as one line `text:flag` per entry and read back with
`fgets` and `parse_task`.

The model follows the program's structure:

- `ctypes.dfy` (modules `CTypes`, `Keys`): bytes, C strings (`StrLen`,
  `CString`), 32-bit `unsigned` arithmetic (`Wrap32`), the `unsigned` to
  `int` cast (`ToInt32`) and the ncurses key codes. The platform is taken
  to have 32-bit `int`/`unsigned` (two's complement) and 64-bit `size_t`.
- `entries.dfy` (module `Entries`): the abstract list, a sequence of
  `Entry(text, done)`. It holds the divider test, the counts `num_tasks`,
  `num_tasks_done` and `adjust_pos`, and the edits insert, remove and swap.
- `tasklist.dfy` (module `TaskStore`): the class `TaskList`. Its fields are
  two arrays, `len` and `capacity`. `init_list`, `add_task` (with the
  capacity doubling and the `memmove`), `remove_task` and `swap_task_up`
  work in place. Each is proved equal to the abstract edit on `Contents()`.
- `taskfile.dfy` (module `TaskFile`): the line format of `write_list`, the
  `fgets` line splitting, `parse_task` and the load loop. The round trip
  from writing to loading is proved.
- `editor.dfy` (module `Editor`): the key loop of `edit_task` on a 2048-byte
  buffer, as a function and as a method over an `array`.
- `display.dfy` (module `Display`): `num_width`, `list_room`, the scroll
  rule of `update_pads`, the rows `draw` visits and the title percentage.
- `commands.dfy` (module `Commands`): `input` and `new_task` as a function
  `Step` on the state (entries and `pos`). A command whose C code has
  undefined behaviour gives the outcome `Fault`. This happens when it
  indexes outside the list, or hands `add_task` a position outside
  `-1 .. len`. It also happens when `edit_task` echoes a buffer that holds
  no terminator: the loop prints the buffer with `wprintw` before every
  key it reads. There is one modelling guard besides: `E` on a text of
  2048 bytes or more is a `Fault`. The program never builds such a text,
  and the model's task buffer could not hold it.
- `session.dfy` (module `App`): the class `Session`. It holds the global
  list and the globals `pos`, `offset`, `list_room`, `num_width` and
  `new`. Its methods `LoadList`, `Input`, `NewTask`, `UpdatePads` and
  `Draw` update them in place, and `Save` reads them. Each is proved against
  `Commands.Step`, `TaskFile.Load`, `TaskFile.Serialize` and the `Display`
  functions.

The model keeps the program's quirks:

- The cursor wraps to `0u - 1` after deleting the only entry.
- `new_task` moves the cursor past the end on an empty list.
- `parse_task` needs at least three bytes.
- A typed key in `edit_task` writes no terminator.
- `edit_task` stores only the low byte of a key code, including for function
  keys it does not handle. Key 0x10A stores a newline: the task's line then
  breaks in two in the file, the task is not `Storable`, and it does not
  survive saving and loading. Key 0x100 stores a NUL, which cuts the task's
  text where it was typed. The bytes typed after it stay in the buffer but
  are not part of the string, so `fputs` does not write them.
- `edit_task` stores a typed key at every index below 2048. After 2048 typed
  keys the buffer holds no terminator, and the next echo reads past it.
- The percentage is taken over `list.len`, dividers included.

The corrected behaviours sit beside the model as separate definitions
(see "## Findings").

Two behaviours worth noting:

- The divider's done flag is written and read back exactly as stored,
  not reset on loading.
- `num_width` is what the loop computes: one, plus one for every
  division by ten while the value is above one. This is not the number
  of digits of the largest index. A list of 9 entries gets two columns.

## Model

| member | source | states |
|---|---|---|
| CTypes.Wrap32 | ctodo.c:128-130 | the value of an `unsigned` operation is the mathematical value modulo 2^32: unchanged in range, +2^32 when it went below 0, -2^32 past the top |
| CTypes.ToInt32 | ctodo.c:625-639 | `(int) u` is in the `int` range, is negative exactly when `u >= 2^31`, and converts back to `u` |
| CTypes.StrLen | ctodo.c:292 | `strlen` is at most the buffer length; the byte at it (if inside) is NUL and none before it is |
| CTypes.CString | ctodo.c:312-313 | the C string of a buffer is a NUL-free prefix of it, followed by a NUL when shorter |
| CTypes.CStringOfTerminated | ctodo.c:298 | a string followed by a NUL and anything reads as that string |
| CTypes.CStringOfPrefixAndZeros | ctodo.c:520 | a buffer zero from a point on holds the same string as its prefix up to there |
| CTypes.CStringOfTerminatedPrefix | ctodo.c:298 | a buffer that continues a prefix with a NUL holds that prefix's string and contains a terminator |
| CTypes.CStringOfNulFree | ctodo.c:312-313 | a NUL-free buffer is its own C string |
| CTypes.Zeros | ctodo.c:520 | `calloc` gives a buffer of the requested size, zero at every index |
| Keys.KeyByte | ctodo.c:578 | storing an `int` key in a `char` keeps it when it is below 256 |
| Keys.FunctionKeyBytes | ctodo.c:578 | function keys lose their high byte: code 0x157 stores `W`, 0x10A a newline and 0x100 a NUL |
| Entries.NumTasks | ctodo.c:330-336 | `num_tasks` is at most the number of entries |
| Entries.IsDivider | ctodo.c:333 | an entry is a divider when its first byte is 0x07; the empty string, whose first byte in C is its NUL, is a task |
| Entries.NumTasksDone | ctodo.c:338-344 | `num_tasks_done` is at most `num_tasks` |
| Entries.AdjustPos | ctodo.c:346-352 | `adjust_pos(p)` is at most `p` |
| Entries.InsertAt | ctodo.c:205-219 | the new entry is at `i`, entries before `i` are unchanged, entries from `i` on move up one, length grows by one |
| Entries.InsertAtEnd | ctodo.c:205-207 | inserting at index `len` appends |
| Entries.RemoveAt | ctodo.c:237-248 | entries before `i` unchanged, entries after move down one, length shrinks by one |
| Entries.SwapUp | ctodo.c:222-235 | at 0 nothing changes; otherwise entries `i-1` and `i` trade places (text and flag together) and every other index is unchanged |
| Entries.NumTasksAppend | ctodo.c:330-344 | both counts add up over concatenation |
| Entries.NumTasksIsCount | ctodo.c:330-336 | `num_tasks` is the number of indices whose text does not start with 0x07, and the length minus the number of dividers |
| Entries.IndicesSnoc | ctodo.c:330-336 | one more entry at the end adds one to the task indices, or to the divider indices when it is a divider |
| Entries.CountBounds | ctodo.c:330-344 | `num_tasks_done <= num_tasks <= len` |
| Entries.FullCountIsAllDone | ctodo.c:338-344 | `num_tasks_done == num_tasks` exactly when every entry that is not a divider is done |
| Entries.AdjustPosAtEnd | ctodo.c:346-352 | `adjust_pos(len) == num_tasks` |
| Entries.AdjustPosStep | ctodo.c:346-352 | across entry `p`, `adjust_pos` grows by 1 for a task and 0 for a divider |
| Entries.AdjustPosMonotone | ctodo.c:346-352 | `adjust_pos` is non-decreasing |
| Entries.OrdinalsDistinct | ctodo.c:404 | two different tasks are shown with different numbers |
| Entries.OrdinalBound | ctodo.c:404 | a task's number (from 1) is at most `num_tasks` |
| Entries.InsertCounts | ctodo.c:193-220 | an insert adds one task (and one done task if done) unless it is a divider |
| Entries.RemoveCounts | ctodo.c:237-252 | a removal takes one task away unless it removes a divider |
| Entries.PairCounts | ctodo.c:330-344 | the counts of two entries do not depend on their order |
| Entries.SwapUpShape | ctodo.c:227-234 | a swap is the same three pieces with the middle pair reversed |
| Entries.SwapCounts | ctodo.c:222-235 | a swap keeps both counts |
| Entries.InsertThenRemove | ctodo.c:193-252 | `add_task` at `i` followed by `remove_task(i)` gives the list back |
| Entries.SwapTwice | ctodo.c:222-235 | swapping the same neighbours twice is the identity |
| TaskStore.Zip | ctodo.c:10-15 | the parallel arrays pair up index by index |
| TaskStore.ZipInsert | ctodo.c:205-219 | arrays that hold the old slots before `i`, the new pair at `i` and the old slots shifted up behind it pair up to the list with the entry inserted at `i` |
| TaskStore.ZipRemove | ctodo.c:237-248 | arrays that hold the old slots before `i` and the old slots shifted down from `i` on pair up to the list without entry `i` |
| TaskStore.InsertIndex | ctodo.c:205-218 | the entry goes at the end exactly when `pos` is -1 or `len` or the list is empty, at `pos` otherwise |
| TaskStore.TaskList.constructor | ctodo.c:179-191 | `init_list`: an empty list with capacity 1 |
| TaskStore.TaskList.AddTask | ctodo.c:193-220 | length grows by one, capacity doubles exactly when the list was full, `len <= capacity` holds, and the contents are the old contents with the entry inserted at the index `add_task` picks |
| TaskStore.TaskList.Grow | ctodo.c:194-203 | the `realloc` doubles both arrays and keeps every old slot |
| TaskStore.TaskList.Place | ctodo.c:205-219 | with room left, the entry is stored at the index `add_task` picks, the arrays stay, and the contents are the old contents with the entry inserted there |
| TaskStore.TaskList.ShiftUp | ctodo.c:209-215 | the `memmove` moves slots `at .. len-1` up one and leaves those before `at` alone |
| TaskStore.TaskList.RemoveTask | ctodo.c:237-252 | the contents are the old contents without entry `at`; length shrinks by one, the arrays and capacity stay |
| TaskStore.TaskList.SwapTaskUp | ctodo.c:222-235 | the contents are the old contents with `at-1` and `at` swapped |
| TaskStore.TaskList.ToggleDone | ctodo.c:652-653 | only the flag of entry `at` flips |
| TaskStore.TaskList.SetText | ctodo.c:647-648 | only the text of entry `at` changes |
| TaskFile.LineEnd | ctodo.c:273 | `fgets` stops after a newline, after 2047 bytes, or at the end of the file, and sees no newline before that |
| TaskFile.Lines | ctodo.c:273 | the successive `fgets` buffers of a file: each holds 1 to 2047 bytes, and there are none exactly for an empty file |
| TaskFile.ParseTask | ctodo.c:290-301 | a line is accepted exactly when its third byte from the end is `:`; the text is what comes before that `:`, and it is three bytes shorter than the line |
| TaskFile.FormatLine | ctodo.c:312-317 | the line for an entry is its C string followed by `:`, the flag and a newline: three bytes longer than the string |
| TaskFile.Serialize | ctodo.c:303-321 | the file is at least three bytes per entry, and empty exactly for an empty list |
| TaskFile.Load | ctodo.c:273-301 | every line is either appended as an entry or skipped |
| TaskFile.ParseFormatLine | ctodo.c:290-301 | parsing the line `write_list` writes for an entry gives the entry back |
| TaskFile.FormatParsedLine | ctodo.c:290-301 | a well-formed line with flag `0`/`1` and a newline is the line written for what it parses to |
| TaskFile.LineEndAtNewline | ctodo.c:273 | `fgets` stops exactly after the first newline when it is within the buffer |
| TaskFile.LinesOfFormatted | ctodo.c:273 | a written line is read back by one `fgets` call |
| TaskFile.LoadAppend | ctodo.c:273-281 | loading is additive over the lines |
| TaskFile.LoadStep | ctodo.c:273-301 | one more line either appends the entry it parses to, or, when its third byte from the end is not `:`, leaves the entries unchanged and is reported |
| TaskFile.ParsableParts | ctodo.c:292-293 | concatenations and tails of lines `parse_task` can read are readable too |
| TaskFile.LoadSerialize | ctodo.c:273-317 | writing the list and loading it back gives the same entries and no warning |
| TaskFile.LoadWritten | ctodo.c:290-317 | a written line in front of other lines loads as its entry in front of theirs |
| TaskFile.MilkLine | ctodo.c:312-317 | the line `buy milk:0` is what `write_list` writes for the task `buy milk`, not done |
| TaskFile.GarbageLine | ctodo.c:273-301 | the line `garbage` is one `fgets` buffer, and `parse_task` rejects it |
| TaskFile.LoadExample | ctodo.c:273-301 | the file `buy milk:0`, `garbage` reads as two lines; the first loads as the task `buy milk`, not done, and the second is skipped |
| TaskFile.SerializeAppend | ctodo.c:312-317 | the file of a list with one more entry ends in that entry's line |
| TaskFile.SerializePrefix | ctodo.c:312-317 | one more pass of the `write_list` loop appends the line of the next entry |
| TaskFile.WriteList | ctodo.c:312-317 | the bytes written are the serialization of the list |
| TaskFile.ParseInto | ctodo.c:290-301 | `parse_task` reports a line exactly when its third byte from the end is not `:`, and then leaves the list unchanged; otherwise it appends the parsed entry |
| TaskFile.LoadLines | ctodo.c:273-301 | the list becomes the old list followed by the parsed entries (a malformed line leaves it unchanged), and the skipped lines are returned |
| Editor.EditLoop | ctodo.c:568-599 | the loop ends with a 2048-byte buffer, or with the backup |
| Editor.EditResult | ctodo.c:546-599 | `edit_task` on a 2048-byte buffer gives a 2048-byte buffer, unchanged when the first key read is Enter or Escape |
| Editor.EchoesTerminated | ctodo.c:568-599 | whether every buffer echoed by `wprintw`, once before each key read, holds a terminator |
| Editor.EditEchoesTerminated | ctodo.c:552-599 | the echoes of `edit_task(buf)` from its first key on are all terminated |
| Editor.EchoedResultTerminated | ctodo.c:568-599 | when every echo and the backup are terminated, so is the buffer the loop ends with |
| Editor.EchoesUpToExit | ctodo.c:568-599 | only the echoes before the first Enter or Escape count |
| Editor.EchoesWithinReach | ctodo.c:577-587 | a terminator beyond the cursor's reach keeps every echo terminated |
| Editor.FillingEchoFaults | ctodo.c:569-580 | typing keys that are not NUL until the buffer is full leaves the next echo without a terminator (finding) |
| Editor.KeysRead | ctodo.c:568-599 | the loop reads keys up to and including the first Enter or Escape |
| Editor.EditTask | ctodo.c:546-599 | the key loop on the buffer leaves it as `EditResult` describes and reads `KeysRead` keys |
| Editor.TextEdit | ctodo.c:577-587 | the typed string never exceeds its capacity |
| Editor.EscapeRestores | ctodo.c:593-596 | Escape restores the backup byte for byte, whatever was typed first |
| Editor.EditCancelled | ctodo.c:593-596 | an edit cancelled with Escape leaves the buffer exactly as it was |
| Editor.EnterFinishes | ctodo.c:589-591 | keys after Enter are not read |
| Editor.EditStaysInReach | ctodo.c:577-587 | typed keys are only written at indices the cursor reaches, all below `max_ind` |
| Editor.EditOnCleanBuffer | ctodo.c:577-587 | on a buffer zero behind its string, the loop edits exactly the typed string |
| Editor.EditNewBuffer | ctodo.c:520-526 | `new_task`'s edit of a zeroed buffer builds the typed string |
| Editor.TypingRevealsStaleBytes | ctodo.c:577-580 | one typed key on a loaded task brings back the old flag and newline (finding) |
| Editor.ParsedBuffer | ctodo.c:280-298 | the buffer `strcpy` fills and `parse_task` cuts: the text, the NUL over the `:`, the flag, the newline and the copied NUL |
| Editor.ParsedBufferStrings | ctodo.c:280-298 | that buffer reads as the text, and behind its terminator as the flag and the newline |
| Editor.ParsedEchoesTerminated | ctodo.c:569-571 | both echoes of that edit hold a terminator: the NUL over the `:` and then the one `strcpy` copied |
| Editor.EditLoopFixed | ctodo.c:568-599 | the corrected loop ends with a 2048-byte buffer or the backup |
| Editor.EditResultFixed | ctodo.c:546-599 | the corrected `edit_task` gives a 2048-byte buffer, unchanged when the first key read is Enter or Escape |
| Editor.EchoesTerminatedFixed | ctodo.c:568-599 | whether every buffer the corrected loop echoes holds a terminator |
| Editor.EditEchoesTerminatedFixed | ctodo.c:552-599 | the echoes of the corrected `edit_task(buf)` are all terminated |
| Editor.FixedEchoesTerminated | ctodo.c:569-587 | the corrected loop keeps a NUL under the cursor, so every buffer it echoes is terminated |
| Editor.EditFixedEditsText | ctodo.c:577-587 | the corrected loop keeps a terminator and edits exactly the typed string |
| Editor.EditFixedIgnoresStaleBytes | ctodo.c:577-587 | corrected, the edit ignores the bytes behind the terminator |
| Display.NumWidth | ctodo.c:501-506 | `num_width` is at least 1, and 1 when `len <= 1` |
| Display.DigitsMonotone | ctodo.c:433-436 | a larger number needs no fewer digits |
| Display.NumWidthDigits | ctodo.c:501-506 | `num_width` is the number of digits of `len` or one more |
| Display.NumberFits | ctodo.c:501-506 | every number up to `len` fits in `num_width` columns |
| Display.OrdinalFits | ctodo.c:404 | the number shown for a task fits in `num_width` columns |
| Display.NumWidthExamples | ctodo.c:501-506 | widths for 1, 9, 10, 19, 20 and 100 entries |
| Display.ListRoom | ctodo.c:508-510 | `list_room` is `LINES - 3`, wrapped when `LINES < 3` |
| Display.ScrollKeepsCursorVisible | ctodo.c:512-516 | whenever `list_room > 0`, even when `offset + list_room` wraps, `offset <= pos < offset + list_room` afterwards |
| Display.ScrollDown | ctodo.c:512-513 | scrolling down moves the offset by the least amount that puts `pos` on the last row |
| Display.ScrollUp | ctodo.c:515-516 | scrolling up sets the offset to `pos` |
| Display.ScrollStays | ctodo.c:512-516 | a visible cursor keeps the offset |
| Display.ScrollExample | ctodo.c:512-516 | with 10 rows: offset 0, pos 12 gives 3; then pos 1 gives 1 |
| Display.Scroll | ctodo.c:512-516 | the offset never passes the cursor, and it stays when the cursor is already in `[offset, offset + list_room)` |
| Display.LastRow | ctodo.c:381-382 | the end of the drawn range is `offset + list_room`, cut to `len` |
| Display.Percent | ctodo.c:454-456 | the percentage lies in `[0, 100]` and is 0 without tasks |
| Display.PercentCountsDividers | ctodo.c:456 | one divider and one done task: all tasks done, title says 50% (finding) |
| Display.PercentOfTasks | ctodo.c:456 | the corrected percentage lies in `[0, 100]` |
| Display.PercentOfTasksFull | ctodo.c:456 | corrected, 100% exactly when the done count equals the task count, and so exactly when every non-divider entry is done; never below the shown value |
| Display.PercentAgreesWithoutDividers | ctodo.c:456 | without dividers both percentages agree |
| Commands.EditBuffer | ctodo.c:538-556 | a task's buffer holds its string and a terminator |
| Commands.TerminatedPrefix | ctodo.c:298 | cutting a buffer behind its terminator keeps the string |
| Commands.NewTask | ctodo.c:519-536 | `new_task`: the zeroed buffer is edited; the command faults if an echo has no terminator; an empty string changes nothing; otherwise one entry is added and `pos` becomes `pos + 1` in `unsigned` arithmetic; it never quits |
| Commands.Step | ctodo.c:605-663 | `input` on one key: exactly `q` quits and changes nothing, and a command other than `R` and space keeps the number of entries |
| Commands.QuitStops | ctodo.c:608-609 | `q` ends the loop, changing nothing |
| Commands.MoveKeepsCursorInside | ctodo.c:611-621 | `j`/`k` keep the cursor inside the list, moving it by one unless at an end |
| Commands.MoveEntryDown | ctodo.c:623-628 | `J` swaps the current entry with the next and the cursor follows, counts unchanged |
| Commands.MoveEntryUp | ctodo.c:630-635 | `K` swaps the current entry with the previous and the cursor follows, counts unchanged |
| Commands.SwapKeepsGood | ctodo.c:222-235 | swapping neighbours keeps every text a storable C string |
| Commands.MoveEntryAtEnds | ctodo.c:623-635 | `J` on the last and `K` on the first entry change nothing |
| Commands.RemoveKeepsCursorInside | ctodo.c:637-644 | with two entries or more, `R` deletes the current entry and keeps `pos < len` |
| Commands.ToggleFlipsOnlyCurrent | ctodo.c:651-654 | Enter flips only `done[pos]` |
| Commands.EditCancelledKeepsState | ctodo.c:646-649 | `E` cancelled with Escape changes nothing, and faults exactly when a buffer echoed before the Escape has no terminator |
| Commands.NewEmptyTaskKeepsState | ctodo.c:528-535 | a new task whose edit echoes safely and ends empty leaves the list and cursor unchanged |
| Commands.NewTaskCancelled | ctodo.c:526-535 | Escape while typing a new task adds nothing, and faults exactly when an echo before it has no terminator; fewer than 2048 keys never fault |
| Commands.FullNewTaskFaults | ctodo.c:569-580 | 2048 typed keys fill a new task's buffer, and the command faults whatever keys follow (finding) |
| Commands.ShortEditEchoesTerminated | ctodo.c:569-580 | with only zeros behind a task's string, fewer keys than the bytes left after it keep every echo terminated |
| Commands.NewTaskInsertsAfterCursor | ctodo.c:528-532 | on a non-empty list the new task goes right after the cursor, which moves onto it |
| Commands.EditKeepsGood | ctodo.c:646-649 | an edit whose echoes are all terminated keeps the state good |
| Commands.NewTaskKeepsGood | ctodo.c:519-536 | a non-faulting new task on a non-empty list keeps the state good |
| Commands.StepFromGood | ctodo.c:605-663 | from a good state only `E` and space can fault, and the state stays good except after deleting the only entry or creating the first |
| Commands.NewTaskOnEmptyLeavesPosAtLen | ctodo.c:529-532 | creating the first task leaves `pos == len == 1` (finding) |
| Commands.NewTaskOfOneKey | ctodo.c:519-536 | one key and Enter on an empty list create that task |
| Commands.RemovePastEndFaults | ctodo.c:637-649 | with `pos == len`, `R` and `E` index outside the list (finding) |
| Commands.RemoveLastWraps | ctodo.c:637-644 | deleting the only entry wraps `pos` to `0u - 1`, after which `K` hands -1 to `swap_task_up` (finding) |
| Commands.EditRevealsStaleBytes | ctodo.c:646-649 | editing a loaded task, one key and Enter give the text with the key, the old flag and a newline (finding) |
| Commands.EditPrefix | ctodo.c:568-599 | the keys before the first Enter or Escape |
| Commands.NewTaskFixed | ctodo.c:519-536 | corrected `new_task`: the edit writes a terminator after each key, a new entry is added for a non-empty string, and `pos` moves only when the list was not empty |
| Commands.StepFixed | ctodo.c:605-663 | corrected `input`: exactly `q` quits, and `R` on a non-empty list removes exactly one entry |
| Commands.FixedKeepsGood | ctodo.c:605-663 | corrected, no command faults from a good state and the state stays good |
| Commands.FixedEditLeavesTerminator | ctodo.c:577-599 | the corrected edit always leaves a terminator |
| Commands.FixedEnterFinishes | ctodo.c:589-591 | in the corrected loop, keys after Enter are not read |
| Commands.FixedEscapeRestores | ctodo.c:593-596 | in the corrected loop, Escape restores the backup |
| Commands.FixedAgreesElsewhere | ctodo.c:605-663 | the corrections change only `R`, `E` and space |
| Commands.FixedFirstAndLast | ctodo.c:529-532 | corrected, deleting the only entry leaves `pos` 0 and the first task gets the cursor |
| App.Session.constructor | ctodo.c:179-191 | an empty list and the initial globals |
| App.Session.LoadList | ctodo.c:254-288 | a missing file marks the list new; otherwise the loaded entries are appended and the malformed lines returned |
| App.Session.Input | ctodo.c:605-663 | `input` changes the list and `pos` exactly as `Step` says and returns whether the loop goes on |
| App.Session.EditCurrent | ctodo.c:646-649 | the current entry's text becomes the string its edited buffer holds |
| App.Session.NewTask | ctodo.c:519-536 | `new_task` changes the list and `pos` exactly as `Commands.NewTask` says |
| App.Session.UpdatePads | ctodo.c:500-517 | `num_width`, `list_room` and the scrolled `offset`, with the cursor on screen whenever `list_room > 0` |
| App.Session.ScrollToCursor | ctodo.c:512-516 | the offset becomes `Scroll` of the old one, nothing else changes, and the cursor is on screen whenever `list_room > 0` |
| App.Session.Draw | ctodo.c:376-392 | the rows drawn are exactly `[offset, min(offset + list_room, len))`, all inside the list; when `offset + list_room` does not wrap and `pos < len`, they include the cursor exactly when it is on screen |
| App.Session.Save | ctodo.c:303-321 | `write_list` writes the serialization of the list |

## Left out

- ncurses output is not modelled: colours, `printw`, `pad_to_end`, `vpad` and the text of `draw_task`, `draw_div`, `draw_number` and `draw_mark`. `Draw` returns the row indices that would be drawn.
- The `edit_task` window geometry (float factors) is not modelled. Nor is what its echo of the buffer shows. The model keeps only the echo's need for a terminator (`Editor.EchoesTerminated`).
- Editor.EditTask: the method over the array does not check the echoes. Its callers `App.Session.Input` and `App.Session.NewTask` require `Step` not to fault, which includes every echo being terminated.
- Editor.EditLoop: when the keys run out before an Enter or Escape, the model returns the buffer as it stands. C would block in `getch` instead, so such a key sequence stands for no real run. The lemmas about finished edits all include the Enter or Escape.
- File and environment plumbing are not modelled: `get_dir`, `get_path`, `check_dir`, `fopen`, `fclose`. `LoadList` receives the file's bytes (or `None` for a file that does not open), and `Save` returns the bytes `write_list` would write.
- Allocation failures (`malloc`/`calloc`/`realloc` returning NULL, `abort`) are not modelled: memory is always available. `free` is not modelled either.
- `parse_args`, `main`'s loop, autosave and `free_list` are not modelled.
- Typed keys: each key `getch` returns is an abstract `int` code. The keys an edit reads are passed as a sequence.
- App.Session.EditCurrent: the program edits the task's buffer in place. The model edits a copy, built from the string and the `stale` bytes the caller supplies, and stores the resulting C string. The bytes behind a task's terminator are not tracked from one edit to the next.
- App.Session.LoadList: requires every line to hold at least three bytes before its NUL. `parse_task` on a shorter line reads before its buffer.
- TaskFile.LoadSerialize: assumes every text is free of newlines and NULs and that its line fits the 2047 bytes `fgets` reads. Longer lines are split by `fgets` and are not round-tripped.
- Display.Percent: `100 * num_done` is taken without `int` overflow. That overflow would need more than 21 million tasks.
- App.Session.Input: requires that `Step` does not fault. A faulting command has undefined behaviour in C, and the model does not say what happens next.
- Commands.StepFromGood, Commands.FixedKeepsGood, Commands.MoveKeepsCursorInside, Commands.MoveEntryDown, Commands.MoveEntryUp, Commands.RemoveKeepsCursorInside, Commands.NewTaskInsertsAfterCursor, Commands.NewTaskKeepsGood, Commands.RemovePastEndFaults: these require `Small`, which keeps the list below 2^31 - 1 entries so that `pos + 1` converts to `int` unchanged.

## Findings

| source | as written | input that shows it | evidently intended | confidence | as-written member | corrected member |
|---|---|---|---|---|---|---|
| ctodo.c:528-532 | `list.len != 0` is tested after `add_task`, so `pos` always moves down | on an empty list, type one key and Enter: `pos == 1 == len`; then `R` calls `remove_task(1)` on one entry | test the length before the insert, leaving the cursor on the first task | not executed | Commands.NewTaskOnEmptyLeavesPosAtLen | Commands.FixedFirstAndLast |
| ctodo.c:637-644 | after deleting the last entry `pos -= 1` runs with `pos == 0` | one entry, `R`: `pos == 0u - 1`; then `K` calls `swap_task_up(-1)` | do not move the cursor below 0 | not executed | Commands.RemoveLastWraps | Commands.FixedKeepsGood |
| ctodo.c:577-580 | a typed key overwrites the terminator and writes no new one | edit a loaded `buy milk:0`, type `s`, Enter: the text becomes `buy milks0` plus a newline | write a terminator after each typed key | not executed | Commands.EditRevealsStaleBytes | Editor.EditFixedIgnoresStaleBytes |
| ctodo.c:569-580 | a typed key is stored at every index below `max_ind`, so the terminator can be overwritten at the last index | type 2048 keys into a new task: the buffer holds no NUL, and the `wprintw` echo before the next key reads past its end | store a key only while one byte stays free for the terminator | not executed | Commands.FullNewTaskFaults | Editor.FixedEchoesTerminated |
| ctodo.c:456 | the percentage divides by `list.len`, dividers included | one divider and one done task: `1/1` tasks done, title shows 50% | divide by `num_total` | not executed | Display.PercentCountsDividers | Display.PercentOfTasksFull |
