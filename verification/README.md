# The text engine of μEmacs, modelled and verified

This project models the part of μEmacs that decides what the text is and what the user sees of it,
and proves properties of it: the MAGIC matcher and the literal searches, the list of lines with its
windows, undo and redo, regions, the gap buffer, the window layout, the screen update, the
encryption of files, and the first pass over a macro. `dafny verify dfyconfig.toml` checks it all.

Code of the editor that changes things step by step is a method here, with the same branches, loops
and fields, in a class where the original keeps its state in a structure or in globals. Each method
is proved against a specification function or a declarative statement, and the main results are
lemmas about those. Allocation always succeeds; atomics are plain fields.

The text of a buffer has three views, each proved to agree with the next:

- `LineMemory`, `LineSurgery`, `LineEditor`: lines in a memory, linked into a ring around the header
  line, with windows that hold pointers into it;
- `Text`, `TextEdits`: a sequence of lines with positions, and elementary edits on it;
- `Flat` and `Linear` of `Text`: one string of bytes, every line ending in a newline, and a place in it.

## Where the code departs from what it says

The model follows the code. These are the places where that shows, each with a theorem that says
exactly when.

- `ldelete` past the last newline reports success without having deleted everything asked for, when
  dot is not at the start of a line. The record it makes then holds more than was deleted, and a kill
  buffer takes newlines that are not in the text (`TextEnd.DeleteExactly`, `TextEnd.DeleteToEnd`,
  `Recording.DeletionOutcome`).
- A kill for which the kill buffer of 8191 bytes has no room fails without a record although it may
  have deleted lines already; undo then finds another text than it expects. Text and log go on
  agreeing after an `ldelete` iff the kill buffer has room and the bytes are all in the text, or it has
  none and nothing was deleted, or dot is on the header line (`KillLimit.KillOverflows`,
  `KillLimit.KillBreaksOff`, `Recording.UndoableBuffer.DeleteBytes`).
- An insertion made on the header line -- the first one in a new buffer is -- is logged with line
  number 0, and undo never takes it back. Undo then leaves dot inside the header line iff the logged
  offset is 0; for characters typed at the end of a buffer whose last line is not empty it is not
  (`UndoHistory.InsertionTakenBack`, `UndoStack.Stack.UndoOperation`). From there `lnewline` copies on
  and on, for the pointer that is to meet the end of the line has started behind it
  (`LineEditor.BreakMeetsEnd`).
- Opening an explicit undo group takes no new number and closing one keeps nothing out of it, although
  the code speaks of a fresh number for what follows: the group is undone by itself iff its number
  happens to be fresh, and what is typed on behind it within 400 ms is still undone with it
  (`UndoGroups.ExplicitGroup`, `UndoGroups.NextEditJoins`, `UndoGroups.ClosedGroupGrows`).
- While the ring of undo operations is exactly full, at 100, 200, ... and for good at 10000, nothing
  can be undone; typing that many characters gets there (`UndoFull.UndoAfterEdits`,
  `UndoFull.TypingFillsRing`).
- The first edit of a buffer gets the version number an untouched buffer counts as saved with: undone
  and redone it counts as unchanged though it changed the text, and undone it counts as changed though
  the text is the saved one (`UndoSaved.FirstEditLooksSaved`). An undo that fails at an insertion on
  the header line marks the buffer changed although it changes nothing, so with the saved text on the
  screen if that was saved there; a new buffer gets there with two characters, an undo, a save and an
  undo (`UndoSaved.FailedUndoMarksSaved`, `UndoSaved.NewBufferMarksSaved`). In no other case do undo
  and redo take another place in the log for the saved one, or the saved one for another
  (`UndoSaved.RunsKeepHonest`, `UndoSaved.FlagAfterMove`).
- A buffer shown in 256 other windows counts as shown in none, so switching to it takes the dot last kept
  with the buffer and not that of a window (`WindowEffects.SwitchExactly`).
- `linsert` leaves marks, and dots of other windows, where they are on the line in cases where the
  text they stood at moves on (`TextEdits.InsertMoves`).
- `bm_search_reverse` may return a match that ends after the place searched from, when the pattern
  stands at the start of a text too short for it up to there. In a text shorter than the pattern it
  reads on behind the text, and the match may lie there (`BoyerMoore.Context.SearchReverse`).
- The fast paths of `scanner` fold ASCII letters only, the plain loop also Latin-1 letters, so a
  pattern with such a letter can be found in different places (`Scanner.FastPathsInvisible`). This is
  for locales in which `tolower` folds ASCII letters alone, as those with UTF-8 do.
- Inserting into the gap buffer overruns the gap when the gap is not empty but too small and growth
  by what is missing frees too little (`GapBuffer.InsertKeepsShape`).
- Changing the screen size can leave the bottom window without a row of text
  (`WindowLayout.StepKeeps`).
- The driver takes `t_nrow` from the terminal without regard to the 500 rows of `t_mrow`
  (termcap.c:137-152). On a terminal of more than 512 lines 255 splits give one buffer 256 windows,
  its one-byte counter shows none, and the displayed buffer can be killed; on every other terminal
  that never happens (`WindowLayout.KillIsSafeIff`).
- A row written anew for reverse video comes out in normal video, whether because the row was not in
  reverse before or because its colours change (`Display.ReverseRow`).
- A cipher file read back differs from what was written iff a line held a NUL or a newline or was
  longer than 8190 bytes; after a NUL the following lines are deciphered with the wrong key
  (`CryptFile.FileRoundTrip`, `CryptFile.NulShiftsKey`).

## Model

| member | source | states |
|---|---|---|
| CircularText.StepsAreInverse | src/text/search.c:1410-1440 | walking forward and backward over the circular text are inverse and pass the same character |
| CircularText.NextCh | src/text/search.c:1410-1440 | one step in either direction returns the character passed and can be taken back |
| MagicMatch.GreedyIsLongestFirst | src/text/search.c:377-505 | matching greedily with backing off finds a match iff there is one in the declarative relation, and it is the one with the longest closures, first closure first |
| MagicMatch.GreedyComplete | src/text/search.c:377-505 | no match is missed, whatever repetition counts it has |
| MagicMatch.CountsDetermineEnd | src/text/search.c:377-505 | the repetition counts of the closures determine where a match ends |
| MagicScan.AMatch | src/text/search.c:377-505 | `amatch` reaches exactly the greedy end, in either direction, and terminates |
| MagicScan.Closure | src/text/search.c:414-447 | taking as many characters as a closure allows and backing off one at a time finds what the specification finds |
| MagicScan.Searcher.McScanner | src/text/search.c:308-365 | `mcscanner` succeeds iff some position of the scan has a match, picks the first tried, leaves dot at the asked end and untouched on failure |
| MagicMirror.MirrorSpans | src/text/search.c:1456-1562 | a span of a program is a span of its mirror in the other direction |
| MagicMirror.ReversalPreservesMeaning | src/text/search.c:1550-1555 | the mirrored program leads back from q to p iff the forward program has a match from p to q |
| MagicMirror.MirrorMatchesAt | src/text/search.c:1550-1555 | the mirror matches backward from q iff some forward match ends at q |
| MagicMirror.BackSearch | src/text/search.c:204-242 | a backward search succeeds iff a forward match ends at a visited position, and dot is left at the start of such a match |
| MagicMeaning.ClassTakes | src/text/search.c:1717-1733 | a class takes its members and, in a buffer that folds case, the ASCII letters whose other case is one; a negated class takes exactly what the class does not |
| MagicMeaning.CharacterTakes | src/text/search.c:1709-1715 | `.` takes everything but the line end; a literal takes itself and, folding case, the letter 32 away, Latin-1 included |
| MagicMeaning.SpansMeaning | src/text/search.c:377-505 | what a pattern spans, element by element: the line tests by the offset, one character one step, a closure none or one more that is no line end |
| MagicMeaning.ReadsText | src/text/search.c:1410-1440 | read forward the ring gives the bytes of the text in their order, one place after the other, up to the header |
| MagicMeaning.LiteralsSpan | src/text/search.c:377-505 | where case matters plain text as a pattern matches exactly where the text has these bytes, and the match ends behind them |
| MagicMeaning.ForwSearch | src/text/search.c:104-141 | a forward MAGIC search succeeds iff some place from dot to before the end of the text has a match, takes the first, and leaves dot at the end with the longest closures |
| MagicCompile.CompiledIsWellPlaced | src/text/search.c:1456-1562 | a compiled program has a line-start test only first, a line-end test only last, closures only on closable elements |
| MagicCompile.CompileReadsWritten | src/text/search.c:1456-1562 | every pattern of the written syntax compiles to the program it denotes |
| MagicCompile.CompiledPrograms | src/text/search.c:1456-1562 | exactly which programs NUL-terminated patterns of any length compile to |
| MagicMeaning.PlainPattern | src/text/search.c:1456-1562 | text without metacharacters compiles to its bytes as literals |
| MagicMeaning.MetaCharacters | src/text/search.c:1476-1546 | which of `.`, `^`, `$`, `*` and backslash mean something where they stand |
| MagicMeaning.PlainClass | src/text/search.c:1752-1826 | `[s]` and `[^s]` denote the bytes of s |
| MagicMeaning.RangeClass | src/text/search.c:1795-1803 | a range holds its ends and what lies between, bytes from 128 on below the others |
| MagicStore.SetRange | src/text/search.c:1795-1803 | the members a range adds to a class, for signed characters |
| MagicStore.ClassLoop | src/text/search.c:1789-1826 | the loop over a character class collects what the specification reads |
| MagicStore.CclMake | src/text/search.c:1752-1826 | `cclmake` reads a class or reports that it is not closed |
| MagicStore.MagicArrays.McStr | src/text/search.c:1456-1562 | `mcstr` fills `mcpat` with the compiled program and `tapcm` with its mirror, without overflowing either |
| MagicStore.MagicArrays.ReverseInto | src/text/search.c:1550-1555 | the reversed copy is the exact mirror |
| BoyerMoore.SkipIsSafe | src/text/boyer_moore.c:52-80 | no match begins between a window and the next one tried |
| BoyerMoore.Context.ComputeBadChar | src/text/boyer_moore.c:19-33 | every shift is at least 1, safe, and as large as it can be |
| BoyerMoore.Context.Init | src/text/boyer_moore.c:36-49 | which patterns are taken |
| BoyerMoore.Context.Search | src/text/boyer_moore.c:52-80 | `bm_search` returns the first match at or after the start, or -1 iff there is none |
| BoyerMoore.Context.SearchReverse | src/text/boyer_moore.c:83-111 | `bm_search_reverse` returns the last match ending at or before the start iff the pattern fits before it or does not stand at 0; a match reaches past the text iff the text is shorter than the pattern |
| BoyerMoore.ReverseOvershoots | src/text/boyer_moore.c:83-111 | two concrete searches that return a match ending too late, one of them past the text |
| Scanner.FastIsPlain | src/text/search.c:759-851 | a match of a fast path is a match of the character loop, with the same end |
| Scanner.PlainIsFast | src/text/search.c:886-936 | a match of the character loop lies within a line, and is a fast one if letters fold alike |
| Scanner.FastPathsAgree | src/text/search.c:756-936 | whichever fast path runs, found or not, status, position and end are those of the character loop alone |
| Scanner.LatinPatternsDisagree | src/text/search.c:942-953 | with a Latin-1 letter in the pattern there is a buffer in which they differ |
| Scanner.FastPathsInvisible | src/text/search.c:756-936 | the fast paths are invisible for a pattern in every buffer iff it has no Latin-1 letter or is too long for them |
| Scanner.ShortSearch | src/text/search.c:824-851 | the path for short patterns finds the first match from dot on, or there is none |
| Scanner.HorspoolSearch | src/text/search.c:759-787 | the path for longer patterns finds the first match from dot on, or there is none |
| Scanner.PlainLoop | src/text/search.c:886-936 | the character loop leaves what the recursive scan leaves, match position included |
| Scanner.Literal.ScanForward | src/text/search.c:517-936 | the forward literal scan as a whole, and its equality with the plain loop |
| PlainMagic.PlainIsMagic | src/text/search.c:896-926 | the comparison loop accepts exactly what the same text spans as a MAGIC pattern of literals |
| PlainMagic.PlainSearchIsMagic | src/text/search.c:308-365 | the character loop of `scanner` finds a text iff a forward MAGIC search for it would, at the same first place with the same end |
| Text.FlatInjective | src/core/line.c:465-479 | lines without newline bytes are determined by the linear text |
| Text.ApplyKeepsOk | src/core/line.c:122-158 | every elementary edit leaves all dots, marks and window tops on existing lines at existing offsets |
| Text.CutFlat | src/core/line.c:495-523 | cutting bytes out of a line is a splice of the linear text |
| Text.JoinFlat | src/core/line.c:572-657 | merging two lines removes one newline of the linear text |
| Text.SplitFlat | src/core/line.c:876-930 | breaking a line inserts one newline into the linear text |
| TextEdits.CutLinear | src/core/line.c:509-522 | dots and marks on the line move by the deletion map |
| TextEdits.JoinLinear | src/core/line.c:572-657 | dots and marks move by the deletion map when lines are merged |
| TextEdits.SplitLinear | src/core/line.c:907-924 | dots and marks move by the insertion map when a line is broken |
| TextEdits.DeleteRemoves | src/core/line.c:440-561 | `ldelete(n)` within the text removes exactly n bytes across any number of lines, moves every window's dot and mark by one map, keeps every top line the line that holds what it held, and gives the bytes to the kill buffer when asked |
| TextEdits.DeleteKeepsLines | src/core/line.c:440-561 | deleting puts no newline byte into a line |
| TextEnd.DeleteExactly | src/core/line.c:440-561 | with room in the kill buffer `ldelete(n)`, kill or not, succeeds having removed exactly n bytes iff they end before the last newline, or at it with dot at the start of a line; otherwise it may still report success; and exactly which bytes the kill buffer takes |
| TextEnd.DeleteToEnd | src/core/line.c:483-496 | what a deletion of more than there is leaves |
| TextEdits.InsertSplices | src/core/line.c:282-432 | `linsert` splices the bytes in at dot and leaves dot behind them |
| TextEdits.InsertMoves | src/core/line.c:316-405 | exactly which dots of other windows and which marks move with the text they stand at |
| TextEdits.InsertAtHeader | src/core/line.c:288-338 | from the header line the bytes go before the last newline, or get one of their own, and dot stands behind them |
| TextEdits.TypeTextFlat | src/core/line.c:185-197 | `linsert_str` splices the string into the linear text and leaves dot behind it |
| UndoLog.TypedAtEnd | src/core/line.c:185-197 | what typing a string on the header line makes of the bytes of the text, newlines included |
| WindowTops.TopAfterSplit | src/core/line.c:907-924 | a break at or behind the start of a window's first line leaves it where it is, so the part before dot stays in sight; a break before it moves it by the newline |
| WindowTops.TopAfterJoin | src/core/line.c:594-656 | a window that begins with the second of two merged lines begins with the merged one, later ones move by the newline |
| WindowTops.TopAfterDrop | src/core/line.c:122-158 | a window on the freed last line or the header begins at the end of the text |
| WindowTops.TopAfterCut | src/core/line.c:495-523 | bytes cut out of a line move the starts behind them |
| WindowTops.TopAfterPut | src/core/line.c:316-405 | bytes put into a line move the starts behind them, and the start of the line itself stays, reallocated or not |
| WindowTops.TopAfterFirst | src/core/line.c:288-312 | the windows of an empty buffer begin with its first line |
| LineMemory.SwapRing | src/core/line.c:572-657 | a doubly linked ring stays one when a stretch gives way to one line |
| LineMemory.DropRing | src/core/line.c:122-158 | a ring stays one when its last text line is freed |
| LineSurgery.InsertBeforeRing | src/core/line.c:893-906 | linking a line in before another keeps the ring and its texts |
| LineSurgery.ReplaceRing | src/core/line.c:619-656 | putting a new line in place of one or two keeps the ring |
| LineSurgery.TakeOutRing | src/core/line.c:594-618 | taking the second of two lines out keeps the ring |
| LineSurgery.WinOkView | src/core/line.c:3-14 | a window's pointers are good in memory iff its positions are good in the text |
| LineSurgery.MatchesEdit | src/core/line.c:282-657 | lines and windows changed alike are those of the abstract edit |
| LineSurgery.LineSizeIsLeast | src/core/line.c:93-102 | a line gets the least positive multiple of 16 bytes that holds it |
| LineEditor.Editor.constructor | src/core/main.c:454-486 | a new buffer: the header line and one window on it |
| LineEditor.Editor.LAlloc | src/core/line.c:93-114 | a fresh line whose size is no less than its text |
| LineEditor.Editor.LFree | src/core/line.c:122-158 | freeing the last line moves what pointed at it to the header |
| LineEditor.Editor.LNewline | src/core/line.c:876-930 | `lnewline` is the split of the text at dot, with every dot, mark and top line where the split moves it |
| LineEditor.BreakMeetsEnd | src/core/line.c:889-900 | the copying of `lnewline` ends at the line's end iff dot is not off the text on the header line |
| LineEditor.Editor.LDelNewline | src/core/line.c:572-657 | `ldelnewline` is the merge with the next line, in place or into a new line alike, or the removal of a blank last line |
| LineEditor.Editor.CutLine | src/core/line.c:495-523 | a cut within a line |
| LineEditor.Editor.LDelete | src/core/line.c:440-561 | `ldelete` is the abstract deletion, on text, windows, kill buffer, status and whether it comes to its record; on the header line it does nothing whatever the offset of dot |
| LineEditor.Editor.LInsert | src/core/line.c:282-432 | `linsert` is the abstract insertion, whether the line is reallocated, extended, or made first, and exactly when it is reallocated; from the header line whatever the offset of dot |
| LineEditor.Editor.LInsertStr | src/core/line.c:185-197 | `linsert_str` types its bytes in turn |
| LineEditor.Editor.KInsert | src/core/line.c:680-692 | the kill buffer takes a byte while it has room |
| LineEditor.Editor.KDelete | src/core/line.c:664-674 | the kill buffer is emptied |
| LineEditor.Editor.Yank | src/core/line.c:700-733 | `yank` types the kill buffer in, n times |
| LineEditor.YankSplices | src/core/line.c:700-733 | on a line of text that splices in n copies of the kill buffer and leaves dot behind the last |
| LineEditor.Editor.GetLineNum | src/core/line.c:73-85 | the number of a line, 0 for the header |
| LineEditor.Editor.GotoPlace | src/core/basic.c:146-231 | going to a numbered line and an offset on it; line 0 and lines behind the last are the header, and dot is then in range iff the offset is 0 |
| UndoLog.ChangeRoundTrip | src/core/undo.c:353-364 | taking a change back that undo takes back restores the text, and making it keeps the lines well formed |
| UndoHistory.InsertionTakenBack | src/core/undo.c:342-405 | a non-empty insertion just logged is taken back iff its line number is at least 1; otherwise undo changes nothing but dot, which stays in range iff the logged offset is 0 |
| UndoHistory.RecordKeepsOk | src/core/undo.c:174-248 | recording keeps group numbers non-decreasing, versions increasing, and a full ring without anything undone |
| UndoHistory.UndoKeepsOk | src/core/undo.c:342-479 | undo and redo keep the undo position at the edge of a group or behind an insertion on the header line, none of which is ever undone |
| UndoHistory.UndoRedo | src/core/undo.c:366-388 | redo after a successful undo returns to the same log position |
| UndoHistory.RedoUndo | src/core/undo.c:443-464 | undo after a successful redo returns to the same log position |
| UndoHistory.StepKeepsFaithful | src/core/undo.c:161-479 | every edit, undo, redo and group mark keeps the text equal to what the not-undone part of the log makes of the first text, in new buffers too |
| UndoHistory.HistorySafety | src/core/undo.c:75-479 | over every run the text is the initial one with exactly the not-undone changes made in order, each fitting where it is made, or the ring is full at 10000 and undo and redo do nothing for good |
| UndoHistory.UndoRedoRestoresText | src/core/undo.c:342-479 | undo and redo are inverse on text and history alike |
| UndoStack.Stack.constructor | src/core/undo.c:125-147 | a new stack is the empty history |
| UndoStack.Stack.ResizeIfNeeded | src/core/undo.c:75-120 | growing the ring changes nothing but the capacity, and fails only at the limit |
| UndoStack.Stack.DropUndone | src/core/undo.c:174-184 | what was undone is dropped, and only that |
| UndoStack.Stack.Push | src/core/undo.c:239-248 | the new operation goes behind the newest; the oldest is never overwritten |
| UndoStack.Stack.RecordInsert | src/core/undo.c:161-249 | recording an insertion is the step of the history, grouping included |
| UndoStack.Stack.RecordDelete | src/core/undo.c:252-339 | recording a deletion is the step of the history, grouping included |
| UndoStack.TakeBackChange | src/core/undo.c:356-364 | a logged change is taken back on the lines, dot at its place, or behind the bytes put in again; an insertion on the header line is not, and dot is left off the text iff the change is on the header line with an offset; the kill buffer stays |
| UndoStack.Stack.TakeBackGroup | src/core/undo.c:366-387 | the group that ends at the undo position is taken back, newest first, as far as no insertion on the header line is among it; dot goes to the last change tried |
| UndoStack.Stack.UndoOperation | src/core/undo.c:342-405 | `undo_operation` on the lines and the ring is the undo step of the session; it fails exactly when nothing is undoable, the ring is full, the buffer is read-only, or the newest change was made on the header line; dot is left at the place of the last change tried, behind its bytes if it was a deletion, or off the text; the kill buffer stays |
| UndoStack.Stack.MakeGroupAgain | src/core/undo.c:443-463 | the next group is made again, oldest first, and no step fails; dot goes to the last change of the group |
| UndoStack.Stack.RedoOperation | src/core/undo.c:408-479 | `redo_operation` on the lines and the ring is the redo step of the session; dot is left at the place of the last change made, behind its bytes if it was an insertion; the kill buffer stays |
| UndoStack.Stack.GroupBegin | src/core/undo.c:503-506 | an explicit group opens |
| UndoStack.Stack.GroupEndForced | src/core/undo.c:508-513 | it closes and the number goes up |
| UndoGroups.ExplicitGroup | src/core/undo.c:503-513 | an explicit group is undone by itself iff its number is fresh and none of its edits was made on the header line |
| UndoGroups.NextEditJoins | src/core/undo.c:203-234 | with no group open an edit is undone with the operation before it iff it joins it, be that the last of an explicit group or not |
| UndoGroups.ClosedGroupGrows | src/core/undo.c:508-513 | a closed group that an insertion joins |
| UndoRuns.UndoTakesRun | src/core/undo.c:200-234 | of single characters typed or deleted in a row one undo takes back the longest stretch at the end in which each came less than 400 ms after the one before it and began no word behind a separator |
| UndoStack.DeleteIsDeleteText | src/core/line.c:440-561 | the text a deletion leaves does not depend on other windows or on the kill buffer |
| KillLimit.KillOverflows | src/core/line.c:480-555 | a kill without room fails having deleted some of the bytes, and none iff it stops in a line at once or is about the last newline of a line with text |
| KillLimit.KillExactly | src/core/line.c:480-555 | whether `ldelete` comes to its record, and if not, exactly when it left the text as it was |
| KillLimit.KillBreaksOff | src/core/line.c:501-508 | a kill over a line break that loses the first line and fails |
| Recording.DeletionOutcome | src/core/line.c:440-561 | exactly when text and log agree after an `ldelete`, kill or not, wherever dot is and however far it reaches |
| Recording.UndoableBuffer.InsertBytes | src/core/line.c:282-432 | `linsert`, from the header line too, logs a change that fits the text and makes exactly that change; windows and kill buffer are those of the insertion |
| Recording.UndoableBuffer.InsertNewline | src/core/line.c:876-930 | so does `lnewline` |
| Recording.UndoableBuffer.CollectText | src/core/line.c:465-479 | the scan ahead collects the bytes from dot on as far as there are any, none on the header line |
| Recording.UndoableBuffer.DeleteBytes | src/core/line.c:440-561 | `ldelete` with its record, its windows and kill buffer, and exactly when the log still fits the text |
| Recording.UndoableBuffer.Undo | src/core/undo.c:342-405 | undo on a buffer edited that way, with nothing more to assume: its text, its log, and the place it leaves dot at |
| Recording.UndoableBuffer.Redo | src/core/undo.c:408-479 | and redo |
| UndoSaved.StepKeepsHonest | src/core/undo.c:390-472 | every command and save keeps the changed flag honest |
| UndoSaved.RunsKeepHonest | src/core/undo.c:390-501 | over every run a buffer not marked changed holds the text last saved iff not the following: it was saved before its first edit, the undo position is behind the first operation, and that changed something |
| UndoSaved.CollisionExactly | src/core/undo.c:390-398 | when the first version number stands for two texts they differ iff the first change is not empty |
| UndoSaved.FlagAfterMove | src/core/undo.c:342-472 | exactly when undo and redo set the changed flag wrongly, in either way, undo that fails included |
| UndoSaved.FailedUndoMarksSaved | src/core/undo.c:353-389 | an undo that fails at an insertion on the header line marks a buffer saved there changed |
| UndoSaved.NewBufferMarksSaved | src/core/undo.c:353-398 | a run from a new buffer that gets there |
| UndoSaved.FirstEditLooksSaved | src/core/undo.c:390-398 | every first edit of a line undone and redone before a save counts as unchanged with another text than the saved one, and undone it counts as changed with that very text |
| UndoFull.UndoAfterEdits | src/core/undo.c:75-120 | after edits alone nothing can be undone iff there was none, or as many as fill the ring, or the last was made on the header line |
| UndoFull.TypingFillsRing | src/core/undo.c:75-120 | typing n characters in any buffer with a line leaves a history on which undo does nothing iff n fills the ring, and for good from 10000 on |
| UndoSaved.SaveMark.VersionAt | src/core/undo.c:391-393 | the version found at the undo position, which after undoing everything is that of the unused last slot |
| UndoSaved.SaveMark.MarkSaved | src/core/undo.c:493-501 | saving marks the version at the undo position |
| UndoSaved.SaveMark.Decide | src/core/undo.c:390-398 | the flag after an undo or redo that succeeded |
| UndoSaved.SaveMark.AfterUndo | src/core/undo.c:353-398 | the flag after any undo is that of the tracked session |
| Region.GetRegion | src/text/region.c:200-252 | with a mark set it always succeeds with exactly the stretch between dot and mark |
| Region.ScanForMark | src/text/region.c:224-251 | the two-way scan finds the mark; the lost mark exit is unreachable |
| Region.KillRegion | src/text/region.c:37-53 | the region's bytes are deleted from its start and handed to the kill buffer |
| Region.KillYankRoundTrip | src/text/region.c:37-53 | killing a region and yanking it back restores the text with dot at the region's end |
| GapBuffer.Grown | src/core/gapbuffer.c:97-103 | growing by half ends, with the space asked for, once the capacity is 2 or more |
| GapBuffer.InsertKeepsShape | src/core/gapbuffer.c:127-157 | the size fields stay well formed iff the gap takes the insertion or no capacity of the sequence of growth by half leaves room for what is missing without leaving room for the insertion |
| GapBuffer.OverrunCases | src/core/gapbuffer.c:127-157 | an empty gap or a large enough one is never overrun, one too small but half the text or more always is |
| GapBuffer.FreshBufferOverrun | src/core/gapbuffer.c:127-157 | a fresh buffer of any size does not take a text one byte longer |
| GapBuffer.RunsAgree | src/core/gapbuffer.c:127-195 | over every run the size fields stay well formed and agree with the text iff no insertion overruns the gap |
| GapBuffer.InsertByByte | src/core/gapbuffer.c:127-157 | what an insertion makes of the text byte by byte, and that a deletion takes it back |
| GapBuffer.DeleteByByte | src/core/gapbuffer.c:160-186 | what a deletion makes of it, and that an insertion takes it back; outside the text nothing |
| GapBuffer.LineStartsStand | src/core/gapbuffer.c:253-297 | each indexed line start is 0 or stands behind a newline, with as many newlines before it as its number, so converting it back gives the line |
| GapBuffer.LineStartsComplete | src/core/gapbuffer.c:253-297 | every position behind a newline is indexed |
| GapBuffer.LineStartsIncrease | src/core/gapbuffer.c:253-297 | the index is strictly increasing |
| GapBuffer.LineOfOffset | src/core/gapbuffer.c:320-343 | the line found by bracketing is the number of newlines before the offset |
| GapBuffer.LineOfOffsetStarts | src/core/gapbuffer.c:311-343 | between the start of an offset's line and the offset there is no newline |
| GapBuffer.Buffer.constructor | src/core/gapbuffer.c:19-60 | a new buffer is empty and its index good |
| GapBuffer.Buffer.MoveGapTo | src/core/gapbuffer.c:72-94 | moving the gap leaves the text as it is |
| GapBuffer.Buffer.Expand | src/core/gapbuffer.c:97-124 | growing leaves the text as it is and gives all growth to the gap |
| GapBuffer.Buffer.Insert | src/core/gapbuffer.c:127-157 | an insertion that fits splices the text in and leaves the cursor behind it |
| GapBuffer.Buffer.Delete | src/core/gapbuffer.c:160-186 | a deletion cuts the text, compacting a large gap or not; outside the text it is refused |
| GapBuffer.Buffer.SetCursor | src/core/gapbuffer.c:189-195 | moving the cursor keeps text and index |
| GapBuffer.Buffer.GetChar | src/core/gapbuffer.c:203-213 | the byte at a position, NUL outside |
| GapBuffer.Buffer.GetText | src/core/gapbuffer.c:216-250 | as much of a stretch as there is and fits, copied from both sides of the gap |
| GapBuffer.Buffer.Compact | src/core/gapbuffer.c:367-394 | compacting leaves the text as it is |
| GapBuffer.Buffer.RebuildLineIndex | src/core/gapbuffer.c:253-297 | the rebuilt index holds the line starts of the text wherever the gap lies |
| GapBuffer.Buffer.LineCount | src/core/gapbuffer.c:300-308 | one more than the newlines |
| GapBuffer.Buffer.LineToOffset | src/core/gapbuffer.c:311-317 | the start of a line, from which the conversion back gives the line; the end of the text for a line there is not |
| GapBuffer.Buffer.OffsetToLine | src/core/gapbuffer.c:320-343 | the binary search gives the number of newlines before the offset |
| GapBuffer.Buffer.SearchForward | src/core/gapbuffer.c:397-427 | the first match in the text at or after the start, across the gap, or the size if there is none |
| WindowLayout.InitialIsGood | src/core/main.c:454-486 | the layout the editor starts with is well formed on every terminal |
| WindowLayout.SplitKeeps | src/core/window.c:314-388 | splitting keeps tiling, counters and current buffer |
| WindowLayout.SplitKeepsDotInSight | src/core/window.c:345-384 | splitting leaves dot in sight in the window that becomes current, and on its screen row unless that became a mode line |
| WindowLayout.DeleteKeeps | src/core/window.c:236-303 | deleting a window keeps them |
| WindowLayout.OnlyKeeps | src/core/window.c:189-228 | making a window the only one keeps them |
| WindowLayout.GrowKeeps | src/core/window.c:396-492 | enlarging and shrinking keep them, and leave the losing window a row |
| WindowLayout.ShrinkUndoesEnlarge | src/core/window.c:396-492 | shrinking by as much as one enlarged restores the layout |
| WindowLayout.NextAndPreviousInverse | src/core/window.c:58-124 | next and previous window are inverse; a numbered window counts from the top or from the bottom |
| WindowLayout.ResizedKeeps | src/core/window.c:583-663 | a new size keeps them, and leaves every window a row iff no window begins on the last text row |
| WindowLayout.SwitchKeeps | src/core/buffer.c:155-198 | switching buffers keeps them |
| WindowLayout.SwitchBackRestores | src/core/buffer.c:155-198 | switching to an undisplayed buffer and back returns to the same dot and mark |
| WindowEffects.EnlargeExactly | src/core/window.c:396-440 | enlarging by n succeeds iff there is a neighbour with more than n rows; that loses them to the current window, and nothing else changes |
| WindowEffects.ShrinkExactly | src/core/window.c:447-492 | shrinking succeeds iff there is a neighbour and the window has more than n rows; a negative argument makes one the other |
| WindowEffects.ResizeExactly | src/core/window.c:499-515 | a window gets exactly the rows asked for, or nothing changes, and when |
| WindowEffects.NextExactly | src/core/window.c:58-124 | the next window is the one below and the previous the one above, around the ends |
| WindowEffects.SplitExactly | src/core/window.c:314-388 | when a split succeeds, how it shares the rows, which half is current, and that all else stays |
| WindowEffects.DeleteExactly | src/core/window.c:236-303 | who gets the rows of a deleted window and becomes current, and what its buffer remembers |
| WindowEffects.OnlyExactly | src/core/window.c:189-228 | the one window left |
| WindowEffects.OnlySavesLast | src/core/window.c:189-228 | each other buffer shown remembers dot and mark of the lowest window on it |
| WindowEffects.NewSizeExactly | src/core/window.c:583-663 | a new size keeps exactly the windows that begin above its last row, changes only the lowest, and which one is current |
| WindowEffects.SwitchExactly | src/core/buffer.c:155-198 | switching changes the current window alone; dot and mark are those of the first other window on the buffer unless its counter shows none, then those kept with the buffer |
| WindowEffects.SwitchTakesShown | src/core/buffer.c:180-193 | while no counter wraps they are those of the first other window whenever there is one |
| WindowEffects.KillExactly | src/core/buffer.c:226-262 | when a buffer is killed, without a change to windows or other buffers |
| WindowLayout.CountersExact | include/internal/estruct.h:269-269 | with at most 511 rows, none of more than 500 squeezed, no window counter wraps |
| WindowLayout.KillRemoves | src/core/buffer.c:226-262 | a buffer is removed exactly when the user agrees and its number of windows is 0 modulo 256 |
| WindowLayout.KillIsSafeIff | src/core/buffer.c:226-262 | over all runs of commands from the first window, no displayed buffer is ever killed iff the terminal has at most 511 rows besides the message line |
| WindowLayout.StepKeeps | src/core/window.c:189-663 | every command keeps tiling, counters and current buffer; all windows keep a row iff no smaller size squeezes the bottom one |
| WindowLayout.RunsKeep | src/core/window.c:189-663 | over every run the windows tile the screen, counters are exact, no window shows a killed buffer, and only the bottom one may lack a row |
| WindowCommands.Screen.constructor | src/core/main.c:454-486 | the first window |
| WindowCommands.Screen.Undisplay | src/core/window.c:286-291 | the counter goes down, and the last window leaves dot and mark with its buffer |
| WindowCommands.Screen.SplitWind | src/core/window.c:314-388 | `splitwind` is the step of the layout |
| WindowCommands.Screen.FindTop | src/core/window.c:262-269 | the search for the window below always finds it |
| WindowCommands.Screen.FindModeLine | src/core/window.c:274-281 | the search for the window above always finds it |
| WindowCommands.Screen.DelWind | src/core/window.c:236-303 | `delwind` is the step of the layout |
| WindowCommands.Screen.OnlyWind | src/core/window.c:189-228 | `onlywind` is the step of the layout |
| WindowCommands.Screen.EnlargeWind | src/core/window.c:396-440 | `enlargewind` is the step of the layout |
| WindowCommands.Screen.ShrinkWind | src/core/window.c:447-492 | `shrinkwind` is the step of the layout |
| WindowCommands.Screen.Resize | src/core/window.c:499-515 | `resize` is the step of the layout |
| WindowCommands.Screen.NextWind | src/core/window.c:58-94 | `nextwind` is the step of the layout |
| WindowCommands.Screen.PrevWind | src/core/window.c:101-124 | `prevwind` is the step of the layout |
| WindowCommands.Screen.CutWindows | src/core/window.c:613-657 | the loop over windows too low or too long leaves exactly the windows that begin on the new screen |
| WindowCommands.Screen.NewSize | src/core/window.c:583-663 | `newsize` is the step of the layout |
| WindowCommands.Screen.SwitchBuffer | src/core/buffer.c:155-198 | `swbuffer` is the step of the layout |
| WindowCommands.Screen.KillBuffer | src/core/buffer.c:226-262 | `zotbuf` is the step of the layout |
| Display.WrittenShows | src/core/display.c:1182-1202 | the output loops show the right characters, and the right highlights if the video they believe in force is |
| Display.ReverseRow | src/core/display.c:1158-1303 | a row that wants reverse video is in normal video throughout when written anew, and when patched in reverse exactly where it was written; so it is in reverse throughout iff it is patched and the rest was |
| Display.RowShows | src/core/display.c:1158-1303 | in all other cases the row shows the virtual line, highlights included, if it showed the physical one or is written anew |
| Display.WriteRun | src/core/display.c:1265-1286 | one output loop, on terminal and physical image |
| Display.SkipRight | src/core/display.c:1237-1247 | the scan from the right stops behind the last difference, and tells whether something not blank was skipped |
| Display.EraseFrom | src/core/display.c:1249-1258 | what is left to erasing is blank and longer than three characters |
| Display.RewriteLine | src/core/display.c:1166-1217 | a line written anew has exactly the specified cells, whatever the row showed before |
| Display.PatchLine | src/core/display.c:1219-1301 | a patched row has exactly the specified cells: what lies outside the differences is kept or erased |
| Display.UpdateLine | src/core/display.c:1122-1303 | `updateline`: the physical image becomes the virtual line, the row has exactly the specified cells, no other row changes |
| Display.LinesDiffer | src/core/display.c:77-87 | lines called equal are equal; lines called different differ or have different checksums |
| Display.UpdUpd | src/core/display.c:848-876 | after `updupd` without scrolling every row is current, whatever the checksums were; highlights too where they were right, except on rows that stay in reverse video |
| Crypt.BeaufortIsInvolution | src/io/crypt.c:174-179 | enciphering a character twice with one key gives it back |
| Crypt.TurnIsInvolution | src/io/crypt.c:159-199 | deciphering a character leaves the state that enciphering it left |
| Crypt.EncryptIsInvolution | src/io/crypt.c:147-201 | the cipher is its own inverse on any bytes, and both directions end in one state |
| Crypt.AlphabetKept | src/io/crypt.c:163-199 | printables stay printable, all else stays what it is |
| Crypt.ChunksJoin | src/io/crypt.c:147-201 | how a stream is cut into calls does not matter |
| Crypt.StateInRange | src/io/crypt.c:169-196 | the key fits 31 bits and the salt its modulus |
| Crypt.AutokeyAdvances | src/io/crypt.c:159-196 | in plain arithmetic, what a printable character becomes, and that the key takes in itself twice, clear text, cipher text and salt |
| Crypt.SameStateIff | src/io/crypt.c:159-196 | two printable characters leave the same state iff both or neither lie beyond the letter of the key |
| Crypt.OthersPass | src/io/crypt.c:159-163 | any other character passes and leaves the state as it was |
| Crypt.SaltCounts | src/io/crypt.c:188-190 | over a text the salt advances by the number of printables modulo 20857 |
| Crypt.Mod95 | src/io/crypt.c:203-219 | the mathematical remainder, for negative values too |
| Crypt.Machine.Apply | src/io/crypt.c:147-201 | `myencrypt` in place is the cipher, and the same call takes it back |
| CryptFile.LinesSurvive | src/io/crypt.c:147-201 | a line gains or loses no NUL or newline by being enciphered |
| CryptFile.ReadWritten | src/io/fileio.c:105-195 | what comes back of the lines a reader can return, key and pieces included |
| CryptFile.FileRoundTrip | src/io/fileio.c:69-195 | what is written character by character and read piece by piece is what was written iff every line is free of NUL and newline and at most 8190 bytes long |
| CryptFile.NulShiftsKey | src/io/fileio.c:135-191 | a line with a NUL comes back short and the next one under the wrong key |
| CryptFile.Stream.PutLine | src/io/fileio.c:69-97 | `ffputline` appends the line enciphered character by character |
| CryptFile.Stream.FGets | src/util/file.c:79-101 | the read of up to 8191 bytes or a newline |
| CryptFile.Stream.GetLine | src/io/fileio.c:105-195 | `ffgetline` returns the next piece deciphered, or the end of the file |
| CryptFile.Stream.ReadAll | src/io/file.c:251-270 | the loop over the lines of a file |
| Crypt.ResetKey | src/io/file.c:113-142 | `resetkey` leaves the stored key as it was and the cipher in a state that depends on it alone |
| WhileScan.EndIsUnique | src/config/exec.c:527-539 | a block has one end, and it is an `!endwhile` |
| WhileScan.BreakHasLoop | src/config/exec.c:511-525 | a break in place has an innermost loop around it |
| WhileScan.BreakEndsWithItsLoop | src/config/exec.c:527-539 | a break ends where that loop ends |
| WhileScan.EachStartOnce | src/config/exec.c:499-525 | every block is listed once |
| WhileScan.ScanState.EndBlocks | src/config/exec.c:527-539 | the pop loop ends at the newest loop and never runs off the stack |
| WhileScan.ScanState.ScanWhileBlocks | src/config/exec.c:477-551 | `scan_while_blocks` accepts exactly the well nested macros, and lists every `!while` and `!break` once with its end; the kinds of the lines are those their bytes spell |
| WhileScan.Classify | src/config/exec.c:489-527 | what a line is to the scan |
| WhileScan.KindIsSpelt | src/config/exec.c:489-527 | the bytes that make a line a `!while`, `!break` or `!endwhile`: blanks, then `!wh`, `!br` or `!endw`, two of them at least on the line |

## Left out

- MagicMeaning.ForwSearch: one pass, as `MagicMirror.BackSearch`; the loop over the repeat count is not modelled.
- UndoStack.Stack.UndoOperation: requires a text the log is faithful to, which the methods of `Recording.UndoableBuffer` provide and `Recording.UndoableBuffer.DeleteBytes` may end; and in a read-only buffer that the change to be taken back is not an empty one on the header line.
- UndoStack.Stack.RedoOperation: requires the same, and in a read-only buffer that the change to be made again is not empty.
- UndoHistory.HistorySafety: an edit of a run is made with dot put at its place first, so no run goes on from a dot that undo left off the text; and kills for which the kill buffer has no room are not among the edits.
- Recording.UndoableBuffer.InsertBytes: only for bytes other than NUL and newline, because a NUL ends the string undo would put back, and not for no byte at all on the header line.
- Recording.UndoableBuffer.InsertNewline: requires dot in place, for otherwise the line's bytes are copied without end.
- Recording.UndoableBuffer.DeleteBytes: a deletion only of bytes other than NUL.
- MagicCompile.CompiledPrograms: does not count bytes; the array of the pattern holds 127, so a program whose shortest spelling is longer is never compiled.
- LineEditor.Editor.LFree: windows on other buffers and the saved dots of undisplayed buffers are not part of this model; only the blank last line is ever freed.
- LineEditor.Editor.KDelete: what was killed before is not handed to the kill ring and the clipboard.
- Scanner.FastPathsInvisible: locales in which `tolower` folds other letters than those of ASCII.
- Display.PatchLine: colours are fields that decide the branch, not something a cell shows, and every character takes one cell.
- WindowCommands.Screen.SplitWind: the first displayed line of a window is not modelled beyond `WindowLayout.SplitKeepsDotInSight`; the number of lines down to dot is a parameter.
- WindowCommands.Screen.SwitchBuffer: reading in a file that was not read yet is not modelled.
- WindowCommands.Screen.constructor: the screen image, which holds only 500 rows on a taller terminal, is not part of the layout.
- CryptFile.Stream.ReadAll: neither the limit on the number of lines nor the mode that skips NULs is modelled, and no I/O error occurs.
- GapBuffer.Buffer.Insert: positions and lengths do not wrap around at the width of `size_t`; the text is shown spliced in only for insertions that do not overrun the gap.
- The window list is a sequence and `curwp` a position in it, lines live in a map from pointers to lines, and the lists of macro blocks are sequences: sharing of nodes beyond that is not captured.
- The saved window (`savewnd`, `restwnd`), pop-ups and scrolling windows.
- The regular expression automaton of nfa.c, the Two-Way search for patterns with newlines, the reverse literal scan, `matchlen` after backing off, replacement, and the interactive reading of patterns.
- Statistics, the clipboard and the kill ring, the column cache, word movement, paragraph filling.
- Scrolling the terminal, extended lines, the mode line's text, the display matrix.
- The gap buffer's character cache and counters.
- Executing a macro after its first pass.
- Terminal, signals, files beyond the cipher's lines, locks, spawning, key bindings, plugins.
