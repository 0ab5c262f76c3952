# vt100-iface in Dafny

This project models the core of vt100-iface, a small C library that
captures one line of text from a VT100 terminal. The line editor takes the
bytes a terminal sends one at a time. It keeps the line in a
caller-supplied buffer, and it handles:

- cursor keys and Home/End/Delete (`ESC [ n ~`);
- Shift + arrows (`ESC O C`, `ESC O D`);
- Backspace and Shift + Backspace (erase a word);
- Tab and Shift + Tab (cycle through a hint set);
- the up and down arrows (recall lines from a history).

The history is a ring of fixed-width slots. `oldest`, `newest` and a
browsing position `pos` walk it with wrap-around. A separate tokenizer
splits a finished line into arguments. It understands double quotes and C
backslash escapes, and writes each argument's terminating NUL into the line
itself.

The model has six modules, one per file:

- `CType` (ctype.dfy): bytes and the C-locale classes `isspace`, `isprint`
  and `isdigit`. It also has `CStr`, the C string stored at the start of a
  buffer.
- `History` (history.dfy): history.c. `Ring` is the history as a value,
  and its specification functions are `Erased`, `Added`, `StepBack`,
  `FindBack`, `StepFwd` and `FindFwd`. `Entries` reads the stored lines
  oldest first. The class `History` holds the slots in an `array` and
  updates `oldest`, `newest` and `pos` in place. Each of its methods is
  proved equal to the matching function.
- `Vt100Spec` (vt100_spec.dfy): vt100.c as functions on an `Editor`
  value. An `Editor` holds the text `line[0..len)`, the cursor, the escape
  parameter, the parser state and the hint index. This module also holds
  the lemmas that state what each editing operation does.
- `Vt100` (vt100.dfy): vt100.c as the source runs it. The class
  `LineEditor` owns the line buffer as an `array<byte>` plus the fields of
  `struct vt100state`. The static functions of vt100.c that change the
  state are its methods; the scans `nextword`, `prevword`, `nexthint` and
  `prevhint` are methods of the module over the buffer. All of them keep
  the loops and in-place moves of the source. `movecursor` and `eraseend`
  only write to the terminal and are left out. Each method's
  postcondition says:
  - the new state is what the `Vt100Spec` function gives;
  - the bytes after the text are untouched.
- `Vt100Scenarios` (vt100_scenarios.dfy): `vt100_getline` of
  vt100-tgetc.c, applied to a finite input. The unit tests of test/test.c
  are stated as lemmas about it, once for any words and once for the
  test's own words.
- `Clarg` (clarg.dfy): clarg.c.
  - `Split` is the specification of `clarg`, a function on the line as a
    value. `Unquote` is the specification of the copying loop of
    `parsearg`.
  - The method `Clarg` works in place on the buffer and on an `argv`
    array of start offsets. It is proved to return what `Split` gives,
    and to leave every argument readable as a C string at its offset.
  - `ClargRoundTrip` proves that a line built by quoting any list of
    arguments splits back into exactly that list.

Some behaviour of the code is easy to misread, and the model keeps it as
written:

- A quoted argument with no closing quote still counts as an argument
  (clarg.c:84-88, `UnclosedQuoteCounts`), although clarg.h:34-35 reserves
  a negative result for errors.
- `history_line` runs after every completed line whatever the echo mode
  (vt100.c:375-377), while recalling an entry needs full echo
  (vt100.c:269, 278).
- A history search that finds nothing still moves `pos`:
  - backward, it ends at `oldest` (history.c:86-97, `FindBackSpec`);
  - forward, it ends at `newest` (history.c:117-125), and the down arrow
    then cuts the line at the cursor (`NextEntryRecalls`).
- The first backward step lands on `newest`, and it must match the key
  like any later step (history.c:88-94).

The test terminal of the scenarios has a 128-byte buffer, echo on, and
neither a history nor hints (`Term`).

## Model

| member | source | states |
|---|---|---|
| Vt100Spec.NextWord | vt100.c:36-40 | `nextword` stops at `end` or at a word start after `pos`, with no word start in between, and it moves whenever `pos < end` |
| Vt100Spec.PrevWord | vt100.c:46-50 | `prevword` stops at the line start or at a word start before `pos`, with no word start in between, and it moves whenever `pos > 0` |
| Vt100Spec.SkipWord | vt100.c:37 | the first loop of `nextword` skips exactly the non-space bytes and stops on a space or at `end` |
| Vt100Spec.SkipBlanks | vt100.c:38 | the second loop of `nextword` skips exactly the spaces and stops on a non-space byte or at `end` |
| Vt100Spec.SkipBlanksBack | vt100.c:47 | the first loop of `prevword` steps back over exactly the spaces before `pos` |
| Vt100Spec.SkipWordBack | vt100.c:48 | the second loop of `prevword` steps back over exactly the non-space bytes |
| Vt100Spec.FirstHint | vt100.c:61-66 | an ascending hint loop returns the first index in its range whose hint begins with the key, or -1 when none does |
| Vt100Spec.LastHint | vt100.c:79-84 | a descending hint loop returns the last index in its range whose hint begins with the key, or -1 when none does |
| Vt100Spec.NextHint | vt100.c:58-68 | an empty key selects hint `h + 1`, wrapping to 0; a non-empty key selects another hint that begins with the key, or gives -1 |
| Vt100Spec.PrevHint | vt100.c:76-86 | an empty key selects hint `h - 1`, wrapping to the last hint; a non-empty key selects another hint that begins with the key, or gives -1 |
| Vt100Spec.NextHintFinds | vt100.c:58-68 | `nexthint` gives -1 exactly when no other hint matches; otherwise no matching hint lies nearer to `h` going forwards round the set |
| Vt100Spec.PrevHintFinds | vt100.c:76-86 | `prevhint` gives -1 exactly when no other hint matches; otherwise no matching hint lies nearer to `h` going backwards round the set |
| Vt100Spec.Init | vt100.c:344-353 | `vt100_init` gives a state that meets the editor invariant under every valid configuration |
| Vt100Spec.NewLine | vt100.c:356-360 | `vt100_newline` keeps the editor invariant |
| Vt100Spec.AddChar | vt100.c:143-159 | `addchar` keeps the editor invariant: the cursor stays in the text, two bytes stay free, and no NUL enters |
| Vt100Spec.RemoveChar | vt100.c:163-179 | `removechar` keeps the editor invariant |
| Vt100Spec.Delete | vt100.c:199-212 | `delete` keeps the editor invariant |
| Vt100Spec.Home | vt100.c:183-187 | `home` keeps the text and puts the cursor at 0 |
| Vt100Spec.End | vt100.c:191-195 | `end` keeps the text and puts the cursor at the end of the text |
| Vt100Spec.CursorForward | vt100.c:119-126 | `cursorforward` keeps the editor invariant |
| Vt100Spec.CursorBackward | vt100.c:131-138 | `cursorbackward` keeps the editor invariant |
| Vt100Spec.MoveNextWord | vt100.c:216-220 | `movenextword` keeps the text and never moves the cursor back |
| Vt100Spec.MovePrevWord | vt100.c:224-228 | `moveprevword` keeps the text and never moves the cursor forward |
| Vt100Spec.EraseWord | vt100.c:232-248 | `eraseword` keeps the editor invariant |
| Vt100Spec.Refill | vt100.c:255-264 | `refill` keeps the editor invariant |
| Vt100Spec.Room | vt100.c:144 | the bytes of a string that `addchar` accepts one by one: none that would leave fewer than two bytes free, and fewer than offered only once the buffer is full |
| Vt100Spec.Hint | vt100.c:288-296 | `hint` keeps the editor invariant |
| Vt100Spec.PrevEntry | vt100.c:277-283 | `preventry` keeps both the editor invariant and the history invariant, and it never attaches or drops the history |
| Vt100Spec.NextEntry | vt100.c:268-273 | `nextentry` keeps both invariants and never attaches or drops the history |
| Vt100Spec.CursorCtrl | vt100.c:300-306 | `cursorctrl` keeps the editor invariant |
| Vt100Spec.EscapeSquareBracket | vt100.c:312-321 | the `ESC [` dispatch keeps both invariants |
| Vt100Spec.EscapeBigO | vt100.c:326-333 | the `ESC O` dispatch keeps the editor invariant |
| Vt100Spec.VtChar | vt100.c:371-432 | `vt100_char` keeps both invariants, and it returns either -1 or the length of the line it completes |
| Vt100Spec.RemoveCharUndoesAddChar | vt100.c:143-179 | Backspace right after typing a byte restores the editor exactly |
| Vt100Spec.DeleteUndoesAddChar | vt100.c:131-212 | typing a byte, then Left, then Delete restores the editor exactly |
| Vt100Spec.CursorMoves | vt100.c:119-138 | the arrows keep the text, move by `param` (1 when it is 0) clamped to the line, and undo each other when not clamped |
| Vt100Spec.EraseWordCutsOneWord | vt100.c:232-248 | Shift + Backspace cuts exactly `[first, end)` around the cursor, where `first` and `end` are word starts (or the line ends) with no word start between them |
| Vt100Spec.RefillAppends | vt100.c:255-264 | `refill` keeps the cursor, replaces the tail with as much of the string as fits, and stops only when the buffer is full |
| Vt100Spec.HintShowsHint | vt100.c:288-296 | with no matching hint Tab changes nothing; otherwise it selects the found hint, which begins with the text before the cursor, and shows it whole when it fits |
| Vt100Spec.PrevEntryRecalls | vt100.c:277-283 | the up arrow searches the history backwards with the text before the cursor as the key; with no match the line stays, and otherwise the line becomes the found entry, cursor kept |
| Vt100Spec.NextEntryRecalls | vt100.c:268-273 | the down arrow searches forwards; with no match the line is cut at the cursor, and otherwise it becomes the found entry, cursor kept |
| Vt100Spec.LineCompletes | vt100.c:373-381 | only CR and LF complete a line; they return its length, empty the editor, and store the line in the history unless it repeats the browsed entry, dropping the oldest entry when the ring is full |
| Vt100Spec.SearchKeepsEntries | vt100.c:312-321 | no `ESC [` command changes the stored history entries; only `pos` may move |
| Vt100Spec.EditingKeepsHistory | vt100.c:383-431 | every byte other than CR and LF returns -1 and leaves the stored history entries alone |
| Vt100Spec.EchoGatesEditing | vt100.c:232-333 | without full echo, Shift + Backspace, Tab, the history and hint commands and the `ESC O` commands change nothing but the parser state |
| Vt100Spec.EscapeParsing | vt100.c:398-428 | ESC enters the escape state; `[` and `O` select their states (`[` clears `param`); digits accumulate, `;` clears `param`, and any other byte returns to the character state |
| Vt100Spec.TypingInserts | vt100.c:391-393 | a printable byte is inserted at the cursor when two bytes stay free, and is otherwise dropped |
| Vt100Spec.Short | vt100.h:70 | storing into a `short` keeps the value modulo 65536 within the `short` range, and leaves values already in range unchanged |
| Vt100Spec.ParamOverflowLeavesLine | vt100.c:420 | as written, `ESC [ 40000` wraps `param` to -25536, after which either arrow puts the cursor outside the line |
| Vt100Spec.ParamAsWritten | vt100.c:420 | as written, the digit step stores `10 * param + digit` back into a `short`: the value wraps modulo 65536 into the `short` range and is exact only while it fits |
| Vt100Spec.ColumnsAsWritten | vt100.c:119-138 | as written, the arrows keep the cursor in the line for a non-negative `param`, but a negative one makes Right move by `param` (backwards) and Left by `-param` (forwards) without any clamp |
| Vt100Spec.ParamAccumulates | vt100.c:410-421 | with `param` kept unbounded, `ESC [ d1 d2` accumulates the decimal value of its digits and leaves the text and cursor alone |
| Vt100Scenarios.BracketDigits | vt100.c:410-421 | any run of digits after `ESC [` accumulates its decimal value in `param` and changes nothing else, the history included |
| Vt100.NextWordAt | vt100.c:36-40 | the two loops over the buffer compute `NextWord` |
| Vt100.PrevWordAt | vt100.c:46-50 | the two loops over the buffer compute `PrevWord` |
| Vt100.NextHintAt | vt100.c:58-68 | the two search loops compute `NextHint` |
| Vt100.PrevHintAt | vt100.c:76-86 | the two search loops compute `PrevHint` |
| Vt100.InsertAt | vt100.c:148-154 | the swap loop of `addchar` inserts the byte at the cursor and shifts the rest of the text one place up, leaving the bytes beyond alone |
| Vt100.MoveDown | vt100.c:241 | the `memmove` of `eraseword` copies `n` bytes down to `dst` and leaves the bytes after them alone |
| Vt100.AddAtEnd | vt100.c:143-159 | `addchar` at the end of the text appends the byte, unless the buffer is full |
| Vt100.FilledStep | vt100.c:260-261 | each round of the `refill` loop adds the next byte of the string as `addchar` would |
| Vt100.FilledDone | vt100.c:259-263 | once the loop reaches the NUL, restoring the cursor gives `Refill` of the C string |
| Vt100.LineEditor.constructor | vt100.c:344-353 | `vt100_init` adopts the configuration and starts from the initial state |
| Vt100.LineEditor.NewLine | vt100.c:356-360 | `vt100_newline` empties the text and clears the cursor and hint index |
| Vt100.LineEditor.AddChar | vt100.c:143-159 | the buffer's new text and cursor are `AddChar` of the old state; the bytes after the text are untouched |
| Vt100.LineEditor.RemoveChar | vt100.c:163-179 | the shift-down loop gives `RemoveChar` of the old state |
| Vt100.LineEditor.Home | vt100.c:183-187 | the new state is `Home` of the old |
| Vt100.LineEditor.End | vt100.c:191-195 | the new state is `End` of the old |
| Vt100.LineEditor.Delete | vt100.c:199-212 | the shift-down loop gives `Delete` of the old state |
| Vt100.LineEditor.CursorForward | vt100.c:119-126 | the new state is `CursorForward` of the old |
| Vt100.LineEditor.CursorBackward | vt100.c:131-138 | the new state is `CursorBackward` of the old |
| Vt100.LineEditor.MoveNextWord | vt100.c:216-220 | the new state is `MoveNextWord` of the old |
| Vt100.LineEditor.MovePrevWord | vt100.c:224-228 | the new state is `MovePrevWord` of the old |
| Vt100.LineEditor.EraseWord | vt100.c:232-248 | the scans, the `memmove` and the `addchar` loop together give `EraseWord` of the old state |
| Vt100.LineEditor.Cut | vt100.c:238-243 | after the `memmove`, `len` and `cur` at `first`, the bytes `[first, end)` are gone from the text held in the buffer |
| Vt100.LineEditor.Regrow | vt100.c:244-245 | the `addchar` loop re-adopts the bytes already in the buffer as text |
| Vt100.LineEditor.Fill | vt100.c:259-261 | the `addchar` loop stops at the string's NUL (or its end), with the state `Filled` describes |
| Vt100.LineEditor.Refill | vt100.c:255-264 | the new state is `Refill` of the old with the C string read from `str` |
| Vt100.LineEditor.Hint | vt100.c:288-296 | the new state is `Hint` of the old |
| Vt100.LineEditor.PrevEntry | vt100.c:277-283 | the editor and history move together as `PrevEntry` says |
| Vt100.LineEditor.NextEntry | vt100.c:268-273 | the editor and history move together as `NextEntry` says |
| Vt100.LineEditor.CursorCtrl | vt100.c:300-306 | the new state is `CursorCtrl` of the old |
| Vt100.LineEditor.EscapeSquareBracket | vt100.c:312-321 | the editor and history move as `EscapeSquareBracket` says |
| Vt100.LineEditor.EscapeBigO | vt100.c:326-333 | the new state is `EscapeBigO` of the old |
| Vt100.LineEditor.Complete | vt100.c:373-381 | a line terminator writes the NUL after the text, stores the line in the history, empties the editor and returns the old length |
| Vt100.LineEditor.VtChar | vt100.c:371-432 | one byte moves the editor and history and gives the return value exactly as `Vt100Spec.VtChar` says |
| Vt100Scenarios.Run | vt100-tgetc.c:35-42 | feeding bytes to `vt100_char` keeps both invariants |
| Vt100Scenarios.Capture | vt100-tgetc.c:35-42 | the capture loop yields a line exactly when the input holds a terminator, and that line holds no NUL and fits the buffer |
| Vt100Scenarios.GetLine | vt100-tgetc.c:32-43 | `vt100_getline` over a finite input yields a line exactly when the input holds a terminator |
| Vt100Scenarios.RunAppend | vt100-tgetc.c:35-42 | feeding `a + b` is feeding `a` and then `b` |
| Vt100Scenarios.CaptureAfter | vt100-tgetc.c:35-42 | bytes before the first terminator only prepare the state in which the terminator arrives |
| Vt100Scenarios.TypeText | vt100.c:391-393 | typing printable bytes inserts them at the cursor while the buffer has room |
| Vt100Scenarios.BasicInput | test/test.c:144-152 | `One Two Three` followed by CR LF gives `One Two Three` |
| Vt100Scenarios.ArrowsWith | test/test.c:154-162 | for any three words, `ESC[100D ESC[50C ESC[6D ESC[C` puts the cursor after the first word, where the second is typed |
| Vt100Scenarios.Arrows | test/test.c:154-162 | the arrows test gives `One Two Three` |
| Vt100Scenarios.Arrows2With | test/test.c:164-172 | for any three words, two Shift + Left and one Shift + Right reach the start of the second word |
| Vt100Scenarios.Arrows2 | test/test.c:164-172 | the arrows2 test gives `One Two Three` |
| Vt100Scenarios.BackspaceEndWith | test/test.c:174-182 | for any words, one Backspace per byte of the last word removes it |
| Vt100Scenarios.BackspaceEnd | test/test.c:174-182 | the backSpaceEnd test gives `One Two Three` |
| Vt100Scenarios.BackspaceMiddleWith | test/test.c:184-192 | for any words, Shift + Left and then Backspace once per byte remove the word and space before the last word |
| Vt100Scenarios.BackspaceMiddle | test/test.c:184-192 | the backSpaceMiddle test gives `One Two Three` |
| Vt100Scenarios.ShiftBackspaceEndWith | test/test.c:194-202 | for any words, Shift + Backspace at the end erases the last word |
| Vt100Scenarios.ShiftBackspaceEnd | test/test.c:194-202 | the shiftBackSpaceEnd test gives `One Two Three` |
| Vt100Scenarios.ShiftBackspaceMiddleWith | test/test.c:204-212 | for any words, `ESC[12D` lands inside the second word and Shift + Backspace erases it with the space after it |
| Vt100Scenarios.ShiftBackspaceMiddle | test/test.c:204-212 | the shiftBackSpaceMiddle test gives `One Two Three` |
| Vt100Scenarios.DeleteWith | test/test.c:214-222 | for any words, `ESC[10D` and one Delete per byte remove the second word, and the new word is typed in its place |
| Vt100Scenarios.Delete | test/test.c:214-222 | the delete test gives `One Two Three` |
| Vt100Scenarios.HomeWith | test/test.c:224-232 | for any words, Home goes to the line start, where the first word is typed |
| Vt100Scenarios.Home | test/test.c:224-232 | the home test gives `One Two Three` |
| Vt100Scenarios.EndWith | test/test.c:234-242 | for any words, End after Home and typing goes back to the line end |
| Vt100Scenarios.End | test/test.c:234-242 | the end test gives `One Two Three` |
| History.Entries | history.c:53-66 | there are `Count` entries, at most one per slot, and the `k`-th oldest entry lives in slot `oldest + k`, wrapping round |
| History.Erased | history.c:37-45 | `history_erase` leaves a valid, empty, unbrowsed history that has NUL at the start of every slot |
| History.History.constructor | history.c:27-34 | `history_init` gives the erased history over the caller's slots |
| History.History.Erase | history.c:37-45 | the ring in the array is `Erased` of the old one |
| History.Stored | history.c:65 | `strncpy` fills the slot: a shorter line reads back as itself, and a longer one is cut to the slot width |
| History.IsDuplicate | history.c:51 | with the test made only while an entry is browsed, a duplicate is a line equal, as a C string, to one of the stored entries |
| History.Added | history.c:48-67 | `history_line` keeps the ring invariant, the number of slots and their width, and it either changes nothing or stops browsing |
| History.CStrOfPadded | history.c:65 | a NUL-free line padded with NULs reads back as the line |
| History.AddedEntries | history.c:48-67 | a line equal to the browsed entry changes nothing; otherwise the line is appended to the entries, the oldest entry is dropped when all slots were used, and browsing stops |
| History.AddedGrows | history.c:53-65 | with a free slot the line is appended and nothing is lost |
| History.AddedWraps | history.c:59-65 | with every slot used, the oldest entry is dropped and the line is appended |
| History.AddedCount | history.c:53-64 | the count grows by one up to the number of slots |
| History.History.AddLine | history.c:48-67 | the ring in the array becomes `Added` of the old one |
| History.DuplicateTestReadsOutsideRing | history.c:51 | as written, the duplicate test right after any stored line or an erase reads slot -1, which lies outside the buffer |
| History.StepBack | history.c:72-83 | `backward` returns nothing on an empty history and changes nothing then; otherwise it moves `pos` to the returned slot |
| History.StepBackFacts | history.c:72-83 | each `backward` step examines the entry one older than the last, starting from the newest and never going past the oldest |
| History.FindBack | history.c:86-97 | a found slot is the new `pos`, and its entry begins with the key |
| History.FindBackFrame | history.c:86-97 | the backward search changes only `pos`, and on an empty history it changes nothing |
| History.FindBackSpec | history.c:86-97 | the backward search returns the newest matching entry at or before its start; when nothing matches, it has checked every entry down to the oldest and stops there |
| History.History.Backward | history.c:72-83 | the ring and the result are `StepBack` of the old ring |
| History.History.SearchBackward | history.c:86-97 | the loop gives `FindBack` of the old ring |
| History.StepFwd | history.c:102-114 | `forward` returns nothing on an empty history or at `newest`; otherwise it moves `pos` to the returned slot |
| History.StepFwdFacts | history.c:102-114 | each `forward` step examines the entry one newer than the last, starting from the newest when not browsing |
| History.FindFwd | history.c:117-125 | a found slot is the new `pos`, and its entry begins with the key |
| History.FindFwdFrame | history.c:117-125 | the forward search changes only `pos` |
| History.FindFwdSpec | history.c:117-125 | the forward search returns the oldest matching entry from its start on; when nothing matches, it has checked every entry up to the newest and stops there |
| History.History.Forward | history.c:102-114 | the ring and the result are `StepFwd` of the old ring |
| History.History.SearchForward | history.c:117-125 | the loop gives `FindFwd` of the old ring |
| Clarg.SkipSpace | clarg.c:29-32 | `skipspace` stops at the first byte that is NUL or not white space, and only white space lies before it |
| Clarg.SkipNonSpace | clarg.c:37-40 | `skipnonspace` stops at the first NUL or white-space byte, and only other bytes lie before it |
| Clarg.SkipSpaceAt | clarg.c:29-32 | the loop over the buffer computes `SkipSpace` |
| Clarg.SkipNonSpaceAt | clarg.c:37-40 | the loop over the buffer computes `SkipNonSpace` |
| Clarg.EscCode | clarg.c:42-52 | exactly the ten escape letters have a non-NUL code, and every code is one of the ten escaped bytes |
| Clarg.EscapesBijective | clarg.c:43-47 | the escape table is a bijection between letters and codes: `Letter` inverts `EscCode` both ways |
| Clarg.GetEsc | clarg.c:42-52 | the table search returns `EscCode` |
| Clarg.Unquote | clarg.c:60-72 | the corrected copying loop stops at a quote or a control byte and never passes the terminator, and it writes no more bytes than it reads, none of them NUL |
| Clarg.Decode | clarg.c:61-71 | one round reads at least one byte and writes between one byte and as many as it read |
| Clarg.AfterQuoted | clarg.c:73 | `parsearg` returns a position between its start and the terminator |
| Clarg.UnquoteAsWritten | clarg.c:60-72 | the loop as written stays inside the buffer whenever it stops |
| Clarg.BackslashBeforeNul | clarg.c:63-70 | as written, the loop on `"\` steps over the NUL and leaves the buffer, while the corrected loop keeps the backslash and stops at the NUL |
| Clarg.UnquoteAsWrittenAgrees | clarg.c:60-72 | the loop as written and the corrected loop agree on every line without a backslash right before the terminator |
| Clarg.ParseArg | clarg.c:57-76 | `parsearg` on the buffer leaves the decoded word NUL-terminated at its start and returns where the quoted part ends |
| Clarg.CopyLoop | clarg.c:60-72 | the loop writes the decoded word from `str` on and reads the line unchanged ahead of the write position |
| Clarg.DecodeAt | clarg.c:61-71 | one round of the loop appends its decoded bytes behind the write position |
| Clarg.UnquoteSplit | clarg.c:60-72 | the loop's output is the first round's bytes followed by the rest of the loop's output |
| Clarg.SkipSpaceAgree | clarg.c:30 | `skipspace` reads nothing before its start, so writes behind it do not change its result |
| Clarg.SkipNonSpaceAgree | clarg.c:38 | `skipnonspace` reads nothing before its start |
| Clarg.UnquoteAgree | clarg.c:60-73 | the copying loop reads nothing before its start |
| Clarg.NextArg | clarg.c:81-97 | the next argument holds no NUL, and when more may follow the scan has moved on |
| Clarg.Quoted | clarg.c:84-89 | a quoted argument is always found, and the scan moves on when more may follow |
| Clarg.Plain | clarg.c:90-97 | an unquoted argument is non-empty and holds no white space |
| Clarg.Split | clarg.c:79-100 | `clarg` returns -1 after `max` arguments, or otherwise the number it found, and every argument is a NUL-free string |
| Clarg.TakeArg | clarg.c:81-97 | one round of `clarg` stores the start of the argument that `NextArg` finds and writes its terminating NUL into the line |
| Clarg.TakeQuoted | clarg.c:84-89 | a quoted argument is decoded in place and terminated |
| Clarg.TakePlain | clarg.c:90-97 | an unquoted argument is terminated in place by writing NUL over the space that ends it |
| Clarg.Step | clarg.c:80-98 | one round of the loop either stops with `Split`'s count, or adds the next word and continues from where `Split` continues |
| Clarg.StopNone | clarg.c:82-83 | a line with nothing more returns the count so far |
| Clarg.StopLast | clarg.c:87-88 | an argument that ends at the terminator is the last, and the count includes it |
| Clarg.StepWord | clarg.c:95-96 | an argument followed by more input adds one word, and the split continues after it |
| Clarg.StopFull | clarg.c:99 | after `max` arguments `clarg` returns -1 |
| Clarg.HeldKept | clarg.c:85-96 | writing at or after the scan position leaves the arguments already found intact |
| Clarg.AllHold | clarg.c:85-96 | each argument found reads back as a C string from its stored start |
| Clarg.Clarg | clarg.c:79-100 | `clarg` returns `Split`'s count, and `argv[j]` points at a C string equal to the `j`-th argument of `Split` |
| Clarg.UnquoteQuote | clarg.c:57-76 | decoding the quoted form of any word gives back the word and stops at the closing quote |
| Clarg.ClargRoundTrip | clarg.c:79-100 | quoting any list of at most `max` arguments into a line and splitting it gives back exactly that list and its length |
| Clarg.FirstWord | clarg.c:81-89 | a space, a quote, a quoted word and a closing quote are found as that word |
| Clarg.SplitFinds | clarg.c:79-100 | when the scan finds the words one after another, `Split` returns exactly them |
| Clarg.UnquotedWords | clarg.c:90-97 | on a line without quotes, every argument is a non-empty run of non-space bytes |
| Clarg.TrailingSpaceOverflows | clarg.c:93-99 | `a ` with room for one argument returns -1, while `a` returns 1 |
| Clarg.UnclosedQuoteCounts | clarg.c:84-88 | `"a` with no closing quote is counted as the argument `a` |
| Clarg.ControlByteEndsLine | clarg.c:60-88 | in `"a<TAB>b`, the tab ends the quoted argument and is overwritten by its NUL, so `clarg` returns 1 and `b` is never seen |

## Left out

- Terminal output is not modelled. This covers `tputc`, `tputs`, `movecursor`, `eraseend`, the `*` echo of the password mode and the CR LF written on completion. The echo mode only decides which operations act.
- `tgetc` and transport errors are left out. `vt100_getline` is modelled on a finite input: running out of input plays the part of `tgetc` returning a negative value.
- The history holds a slot's bytes. Recalled entries are read as the C string in the slot. A line at least as long as the slot is stored unterminated by `strncpy`. The model then reads the whole slot, where the C code would read on past it.
- The `short` width of `len`, `cur` and `h` is not modelled. They stay below `max`. With a buffer larger than 32767 bytes, C's `len` and `cur` could wrap, while the model keeps them unbounded; the model deviates from the code there.
- `argv` holds offsets into the line rather than addresses.
- example/ (servers and the demo program), vt100-io.h and vt100-tgetc.h are not part of this model.
- test/test.c:133 calls `vt100_getline` with one argument, following the prototype at vt100-tgetc.h:43, while the definition at vt100-tgetc.c:32 also takes the echo mode; the tests never set it. Full echo is the only mode in which the arrows2 and the two Shift + Backspace tests (test/test.c:164-172, 194-212) can pass, because of the gates at vt100.c:233 and 327, so `Term` assumes it, with no history and no hints.
- Vt100Spec.NextHint: requires a non-empty hint set. With no hints, `nexthint` would compare with the missing hint 1.
- Vt100Spec.PrevHint: requires a non-empty hint set, as `NextHint` does.
- Vt100Spec.AddChar: it requires a byte other than NUL. Every caller passes a printable byte or a byte already in the NUL-free text.

## Findings

| source | as written | input that shows it | evidently intended | confidence | as-written member | corrected member |
|---|---|---|---|---|---|---|
| vt100.c:420 | `param` is a `short`, and `10 * param + c - '0'` wraps round | `ESC [ 4 0 0 0 0 C` sets `param` to -25536, and `cursorforward` then moves the cursor before the line start | the decimal count of the digits, large enough for the line | high, not executed | Vt100Spec.ParamOverflowLeavesLine | Vt100Scenarios.BracketDigits |
| history.c:51 | `strcmp(line, lines[pos])` runs with `pos == -1` | completing a line right after `history_erase` or after any stored line reads `lines[-1]` | no duplicate test while no entry is being browsed | medium, not executed | History.DuplicateTestReadsOutsideRing | History.AddedEntries |
| clarg.c:64-69 | after a backslash, the byte that follows is copied and stepped over even when it is the NUL | the line `"\` makes the loop step over the terminator and read past the buffer | keep the backslash and stop at the terminator | high, not executed | Clarg.BackslashBeforeNul | Clarg.Unquote |
