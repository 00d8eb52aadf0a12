# vee-go editing core in Dafny

This is a model of the editing core of vee-go, a small modal text editor
written in Go. Its package `state` holds:

- the buffer, a list of lines;
- a selection, made of an anchor and a cursor;
- the current mode: Normal, Insert or Space.

A cursor is a line `Y`, a character offset `X` and a cached visual column
`col`. On an empty line `X` is `-1`.

The model covers six parts:

- **Diffs** (`diffs.dfy`) is the diff engine of `state/history.go`. A diff
  replaces one window of lines by another. `Apply` and `Revert` are inverse
  splices. `Composition` and the method `Compose` merge two successive
  diffs into one. Applying the merged diff is proved equal to applying the
  two in turn.
- **Movements** (`movements.dfy`) covers the coordinates of
  `state/movements.go`:
  - tab-stop widths;
  - columns computed from offsets, and offsets from columns;
  - the two word regexps, written as scans over ASCII character classes and
    proved to find the leftmost match;
  - `Target`, which says where each movement puts a cursor.
- **Edits** (`edits.dfy`) holds the buffer edits of `state/insert.go` and
  `state/actions.go` as functions on the text. Each also gets a lemma about
  the text read as one string, with every line followed by a line break.
  In that reading:
  - insert adds one character at the cursor's offset;
  - backspace and delete remove one character;
  - word backspace removes a range ending at the cursor;
  - delete removes the selection's range.
- **Editor** (`editor.dfy`) is the `State` object as a class:
  - every movement is a method returning the moved cursor; the
    `setCursorX`/`setCursorY` loops carry their loop invariants;
  - every edit is a method whose postcondition names its Edits function;
  - `setMode`, the diff history and the snapshot history are methods too.
  - `HandleKey` is the dispatcher for Normal, Insert and Space mode. It
    keeps the invariant `Coherent` between keys: the text is never empty,
    the positions lie inside it, and outside Insert mode the text equals
    the current snapshot. It moves between modes as `NextMode` says.
- **Findings** (`findings.dfy`) models `deleteLines` as written, with the
  input on which it fails.
- **Options** (`options.dfy`) is the optional value that stands for a
  regexp match that may be nil.

The character width `rw.RuneWidth` is a function parameter with results in
0..2. `TabWidth` is a positive constant of the state.

The repository holds two generations of the same code:

- `state/state.go`, one monolithic file;
- the split files `state/movements.go`, `insert.go`, `actions.go`,
  `history.go` and `mode.go`.

Shared definitions are modelled once, from the split files. Only two
things come from `state/state.go`, because nothing else has them: the
snapshot history and `HandleKey`.

`mode.go`'s `setMode` calls `recordHistory`, which no source file declares.
It is modelled as `snapshot`, which is the call `state/state.go:283` makes at
the same point. `deleteLines` is modelled from `state/actions.go`, which
clamps the anchor's line; `state/state.go:195-200` does not.

## Model

| member | source | states |
|---|---|---|
| Diffs.Apply | state/history.go:13-25 | An empty diff returns the text unchanged. Otherwise the result has `len(text) - len(before) + len(after)` lines. |
| Diffs.Revert | state/history.go:27-35 | An empty diff returns the text unchanged. The length changes by `len(before) - len(after)`. |
| Diffs.ApplyWindows | state/history.go:17-25 | After apply: `text[..start]` is kept, `after` sits at `[start, start+len(after))`, and the text after the old window follows. |
| Diffs.RevertWindows | state/history.go:27-35 | The same three windows for revert, with `before` put back. |
| Diffs.ApplyCapturesAfter | state/history.go:17-25 | The applied text holds `after` in the diff's window, so revert is defined on it. |
| Diffs.RevertApply | state/history.go:17-35 | Round trip: if the text's window holds `before`, revert after apply gives back the text. |
| Diffs.ApplyRevert | state/history.go:17-35 | Round trip the other way: if the window holds `after`, apply after revert gives back the text. |
| Diffs.Intermediate | state/history.go:41-53 | The lines compose rebuilds span `[min(starts), max(ends))`. |
| Diffs.IntermediateIsSlice | state/history.go:41-53 | Those rebuilt lines are exactly that slice of the text between the two diffs. |
| Diffs.Composition | state/history.go:37-65 | An empty `a` gives `b` back. Otherwise the composed diff starts at `min(a.start, b.start)`. |
| Diffs.Compose | state/history.go:37-65 | The loop over `[start, end)` fills both intermediate arrays. Its result is `Composition(b, a)`. |
| Diffs.CompositionBefore | state/history.go:56-59 | The composed `before` is the original text of the merged window. |
| Diffs.IntermediateOutside | state/history.go:41-53 | Outside `b`'s window the rebuilt lines agree with the text between the two diffs, whatever `b.before` holds, because there they come from `a.after`. |
| Diffs.CompositionAfter | state/history.go:60-63 | The composed `after` is the merged window after `b`, for any `b` whose window lies inside the text. |
| Diffs.ComposeApply | state/history.go:37-65 | Applying `compose(b, a)` equals applying `a` then `b`, whenever `b` overlaps or touches `a.after`'s window and `b`'s window lies inside the text between them. |
| Diffs.ComposeCaptured | state/history.go:37-65 | If `a` and `b` were each captured against their texts, the composed diff is captured against the original text. |
| Diffs.Min | state/history.go:117-122 | The result is one of the two arguments and at most both. |
| Diffs.Max | state/history.go:124-129 | The result is one of the two arguments and at least both. |
| Movements.VisualWidth | state/movements.go:10-15 | A tab is 1..tabWidth wide and ends on a tab stop. Any other character has its rune width, at most 2. |
| Movements.TabStop | state/movements.go:11-13 | `tabWidth - col % tabWidth` lies in 1..tabWidth and brings `col` to a multiple of `tabWidth`. |
| Movements.ColumnMonotone | state/movements.go:17-23 | The column setCursorX computes never decreases as the offset grows. |
| Movements.ColumnOfNarrowText | state/movements.go:17-23 | Over width-1 characters that are not tabs, the column equals the offset. |
| Movements.OffsetForColumn | state/movements.go:25-36 | The offset lies in -1..len(line)-1, and is -1 exactly when the line is empty. |
| Movements.FirstExceedingIsFirst | state/movements.go:30-35 | setCursorY's scan stops at the first character whose end column passes `col`, or at the last character. |
| Movements.OffsetForColumnIff | state/movements.go:25-36 | On a non-empty line the offset is x exactly when x is the first character past `col`, or the last if none passes. |
| Movements.OffsetOfOwnColumn | state/movements.go:17-36 | Moving to a wide character's own column lands on that character. |
| Movements.OffsetOverlapsColumn | state/movements.go:25-36 | A column inside the line lands on the character that covers it. |
| Movements.TrailingBlanks | state/movements.go:97-99 | The `[[:blank:]]*$` tail of a string is all blanks, and maximal. |
| Movements.LeadingBlanks | state/movements.go:112-114 | The `^[[:blank:]]*` head of a string is all blanks, and maximal. |
| Movements.RunStart | state/movements.go:97-99 | The start of the run in one class that ends at e, as far left as possible. |
| Movements.RunEnd | state/movements.go:112-114 | The end of the run in one class that starts at b, as far right as possible. |
| Movements.StartOfWordMatch | state/movements.go:97-110 | A found offset lies inside the string. |
| Movements.EndOfWordMatch | state/movements.go:112-125 | A found match end lies in 1..len(s). |
| Movements.StartOfWordEnds | state/movements.go:97-99 | Every match of reStartOfWord ends where the trailing blanks begin. |
| Movements.RunStartIsLeftmost | state/movements.go:97-99 | No run of the class reaches further left than RunStart. |
| Movements.StartOfWordIsLeftmost | state/movements.go:97-110 | A found offset is the leftmost match of reStartOfWord. None is found only when no offset matches. |
| Movements.RunEndIsLongest | state/movements.go:112-114 | No run of the class reaches further right than RunEnd. |
| Movements.EndOfWordStarts | state/movements.go:112-114 | Every match of reEndOfWord starts right after the leading blanks. |
| Movements.EndOfWordIsLeftmostFirst | state/movements.go:112-125 | The match end is the longest `[[:word:]]+` match, or else the longest `[[:punct:]]+` one; none is found only when neither matches. This is how Go's leftmost-first alternation behaves. |
| Movements.Indentation | state/movements.go:80-87 | The first character that is not a space or tab: everything before it is blank. |
| Movements.SettledMoveDefined | state/movements.go:38-125 | From a Settled cursor (on a character, or at the start of an empty line) every movement is defined: each line and character it reads lies inside the text. That the target stays in the text is TargetKeeps. |
| Movements.TargetKeeps | state/movements.go:38-125 | Movements keep a cursor in the text and keep it Settled. Left settles any in-text cursor. Up and down keep `col`; only they change the line; up never goes down and down never up. Left and word start never increase `X`; right and word end never decrease it. |
| Edits.Inserted | state/insert.go:3-20 | An inserted line break adds a line; any other character keeps the line count. |
| Edits.Backspaced | state/insert.go:22-38 | The text loses a line exactly when backspace is at the start of a line other than the first. |
| Edits.WordStart | state/insert.go:46-57 | Where word backspace erases back to lies strictly before the cursor. |
| Edits.WordErased | state/insert.go:40-58 | Like backspace, the text loses a line only at a line start. |
| Edits.Deleted | state/insert.go:60-70 | The text loses a line exactly when the cursor is at or past a line end that is not the last. |
| Edits.SelectionDeleted | state/actions.go:19-27 | Deleting a selection that spans lines a.Y..c.Y removes `c.Y - a.Y` lines. |
| Edits.LinesDeleted | state/actions.go:32-34 | Deleting lines ay..cy removes `cy - ay + 1` lines, but at least one line is left. This is the corrected deleteLines. |
| Edits.InsertedFlat | state/insert.go:3-20 | In the one-string text, insert adds the character at the cursor's offset. The cursor ends one past it. |
| Edits.BreakFlat | state/insert.go:4-14 | Splitting the line at x shapes the text so that the line break lands at the cursor's offset. |
| Edits.BackspacedFlat | state/insert.go:22-38 | Backspace removes the one character before the cursor's offset, a line break at a line start. The cursor ends on that offset. |
| Edits.JoinFlat | state/insert.go:25-32 | Joining line y+1 onto line y removes exactly line y's break. |
| Edits.WordErasedFlat | state/insert.go:46-57 | Word backspace removes the characters from WordStart up to the cursor's offset. |
| Edits.DeletedFlat | state/insert.go:60-70 | insertDelete removes the character at the cursor's offset, a line break at a line end. At the end of the last line it changes nothing. |
| Edits.SelectionDeletedFlat | state/actions.go:19-27 | delete removes the characters from the selection's start (the line start for X = -1) through its end, the end's own character included. The start comes no later than the end. |
| Edits.LinesDeletedFlat | state/actions.go:32-37 | deleteLines removes the selected lines with their breaks. With no line left, the text becomes one empty line. |
| Edits.BackspaceUndoesInsert | state/insert.go:3-38 | Backspace right after insert gives back the text, for every character, line breaks included. |
| Edits.DeleteUndoesInsert | state/insert.go:3-70 | Forward delete at the old cursor, after insert, gives back the text. |
| Editor.Normalised | state/actions.go:12-17 | The result is the same two positions, possibly swapped, in lexicographic order. A pair already in order is kept as it is. |
| Editor.NormalMovement | state/state.go:374-430 | Unshifted arrows move 9 lines and drag the anchor. Shifted arrows move the cursor only. |
| Editor.MovementKeyCase | state/state.go:374-405 | A movement rune drags the anchor exactly when it is lower case. |
| Editor.RecordKeeps | state/state.go:310-319 | Truncating the snapshot list and appending an entry keeps every snapshot non-empty and Settled. |
| Editor.ChainRecord | state/history.go:74-82 | Truncating the change list at the head and appending a change keeps the chain of texts that each change leads between. |
| Editor.State.constructor | state/state.go:29-38 | A fresh state: the given text, both positions at the origin, Normal mode, both histories empty. |
| Editor.State.SetCursorX | state/movements.go:17-23 | Its loop computes WithX: `X := x`, and `col` is the column of offset x. |
| Editor.State.SetCursorY | state/movements.go:25-36 | Its loop computes WithY: line y, `col` kept, and `X` the offset for that column, -1 on an empty line. |
| Editor.State.MoveLeft | state/movements.go:38-44 | Its result is `Target(Left)`: unchanged when `X <= 0`, else one character left. |
| Editor.State.MoveRight | state/movements.go:46-56 | Its result is `Target(Right)`: unchanged on an empty line or on the last character, else one character right. |
| Editor.State.MoveUp | state/movements.go:58-67 | Its result is `Target(Up(n))`: unchanged on the first line, else n lines up, held at line 0, `col` kept. |
| Editor.State.MoveDown | state/movements.go:69-78 | Its result is `Target(Down(n))`: unchanged on the last line, else n lines down, held at the last line. |
| Editor.State.MoveStartOfLine | state/movements.go:80-87 | Its result is `Target(StartOfLine)`: the first character that is not blank, or unchanged when there is none. |
| Editor.State.MoveEndOfLine | state/movements.go:89-95 | Its result is `Target(EndOfLine)`: the last character, or unchanged on an empty line. |
| Editor.State.MoveStartOfWord | state/movements.go:97-110 | Its result is `Target(StartOfWord)`: the reStartOfWord match in the text before the cursor, or unchanged. |
| Editor.State.MoveEndOfWord | state/movements.go:112-125 | Its result is `Target(EndOfWord)`: the last character of the reEndOfWord match after the cursor, or unchanged. |
| Editor.State.Moved | state/movements.go:127-130 | Applying the movement `move` is handed gives its Target. |
| Editor.State.Move | state/movements.go:127-130 | The cursor goes to the movement's Target and the anchor follows it. |
| Editor.State.Insert | state/insert.go:3-20 | The text becomes `Inserted` and the cursor goes to `InsertedAt`. After a line break that is (Y+1, 0, 0); otherwise X+1 with `col` recomputed. The anchor follows. |
| Editor.State.InsertBackspace | state/insert.go:22-38 | The text becomes `Backspaced`. At (0, 0) nothing changes. At a line start the cursor goes to the old end of the previous line; otherwise it goes to X-1. |
| Editor.State.InsertBackspaceWord | state/insert.go:40-58 | The text becomes `WordErased`. At a line start it behaves as backspace; otherwise the cursor goes to WordStart. |
| Editor.State.InsertDelete | state/insert.go:60-70 | The text becomes `Deleted`; the cursor does not move. |
| Editor.State.NewLineAbove | state/actions.go:3-10 | An empty line is inserted at the cursor's line, with the lines around it kept. The cursor gets X = -1, its `col` kept, and the anchor follows. |
| Editor.State.NormaliseSelection | state/actions.go:12-17 | Afterwards (anchor, cursor) is `Normalised` of the old pair. |
| Editor.State.Delete | state/actions.go:19-30 | The text becomes `SelectionDeleted` of the ordered selection. Both positions go to setCursorY of the start's line and are Settled. |
| Editor.State.DeleteLines | state/actions.go:32-40 | The text becomes `LinesDeleted`. Both positions go to the start's line, held at the last line, and are Settled. This is the corrected behaviour; see findings.dfy. |
| Editor.State.Snapshot | state/state.go:310-319 | The snapshots after the head are dropped and a copy of text and positions is appended. The head points at it. Settled snapshots stay Settled. |
| Editor.State.Init | state/state.go:40-42 | From no snapshots, Init leaves exactly one, with the head at 1. |
| Editor.State.SnapshotUndo | state/state.go:321-330 | At a head of 1 or less nothing happens. Otherwise the head steps back and text and positions come from the snapshot there. |
| Editor.State.SnapshotRedo | state/state.go:332-341 | At the end of the list nothing happens. Otherwise text and positions come from the next snapshot and the head steps forward. |
| Editor.State.SetMode | state/mode.go:12-28 | Leaving Insert moves left with the anchor following and records a snapshot. Entering Insert turns X = -1 into X = 0 and collapses the anchor. Afterwards the mode is `m`, and anything else changes only the mode. |
| Editor.State.StartChange | state/history.go:67-72 | The pending change becomes an empty diff with the current anchor and cursor as its "before" positions. |
| Editor.State.ApplyDiff | state/history.go:84-95 | The text becomes `Apply(d, Text)` and the pending diff `Composition(d, pending)`. The pending diff still leads from the text at the start of the change to the current text. |
| Editor.State.EndChange | state/history.go:74-82 | An empty pending diff records nothing. Otherwise the change gets the current positions as its "after" positions, the history is cut at the head and the change appended, and the head points past it. The chain of texts is kept. |
| Editor.State.Undo | state/history.go:97-105 | At the first change (head 0) nothing happens. Otherwise the head steps back, the change is reverted, and its "before" positions come back. The history stays consistent. |
| Editor.State.Redo | state/history.go:107-115 | At the end nothing happens. Otherwise the change at the head is applied, its "after" positions come back, and the head moves on. |
| Editor.State.AtHeadUndoRedoDefined | state/history.go:97-115 | While the history is consistent, undo and redo always index inside the text. |
| Editor.State.ChangeThenUndo | state/history.go:67-105 | startChange, one applyDiff of a captured non-empty diff, endChange and then undo give back the text and both positions from before the session. The recorded change is that diff. |
| Editor.State.ChangeUndoRedo | state/history.go:67-115 | The same session, undone and then redone, leaves the diff applied, the session's end positions and the head just past the new change. |
| Editor.State.HandleKey | state/state.go:343-464 | Keeps `Coherent`, and the mode becomes `NextMode`. It returns true exactly for q in Space mode. In Normal mode the key does what `NormalDone` says: a movement moves the cursor to its Target, Esc collapses the selection, x and X delete and record a snapshot, z and Z step the snapshot head, and a key with no case changes nothing. In Insert mode the key does what `InsertDone` says: Esc steps the cursor left, collapses the anchor onto it and records a snapshot; any other key makes the text `Typed` (inserted, backspaced, word-erased or deleted at the cursor), puts the cursor at `TypedAt` and keeps the snapshots. A Space-mode key changes neither the text nor the positions. |
| Editor.State.LeaveSpace | state/state.go:453-461 | Any Space-mode key but q goes back to Normal mode. |
| Editor.State.HandleNormalKey | state/state.go:345-433 | A movement key moves the cursor to its Target and leaves the text alone; the anchor follows for lower-case keys and unshifted arrows. Esc collapses the anchor onto the cursor. The other runes do what `RuneDone` says. A key with no case (a rune such as q, or a key other than the arrows and Esc) leaves text, positions and snapshots as they were. |
| Editor.State.Collapse | state/state.go:431-432 | Esc sets the anchor to the cursor. |
| Editor.State.NormalRune | state/state.go:348-418 | x deletes the ordered selection and X deletes its lines; both record the result as the new last snapshot, dropping the ones after the head. z and Z step the snapshot head back or forward within its bounds. A rune with no case, and ' ', leave text, positions and snapshots as they were. The mode becomes `NextMode`. |
| Editor.State.MovementKey | state/state.go:374-430 | The cursor goes to the movement's Target. The anchor follows for lower-case keys and unshifted arrows. |
| Editor.State.InsertBefore | state/state.go:352-353 | a enters Insert mode, keeping `Coherent`. |
| Editor.State.InsertLineAbove | state/state.go:354-356 | A opens an empty line and enters Insert mode, keeping `Coherent`. |
| Editor.State.InsertAfter | state/state.go:357-359 | d enters Insert mode one character on, keeping `Coherent`. |
| Editor.State.InsertLineBelow | state/state.go:360-364 | D breaks the line after its end and stays in Insert mode, keeping `Coherent`. |
| Editor.State.ChangeSelection | state/state.go:365-367 | f deletes the selection and enters Insert mode, keeping `Coherent`. |
| Editor.State.ChangeLines | state/state.go:368-371 | F replaces the lines by one empty line and enters Insert mode, keeping `Coherent`. |
| Editor.State.DeleteSelection | state/state.go:408-410 | x: the text becomes `SelectionDeleted`. The snapshots after the head are dropped and one of the new state appended. |
| Editor.State.DeleteSelectedLines | state/state.go:411-413 | X: the text becomes `LinesDeleted`. The snapshots after the head are dropped and one of the new state appended. |
| Editor.State.UndoKey | state/state.go:414-415 | z steps the snapshot head back, never below 1, and keeps the list. |
| Editor.State.RedoKey | state/state.go:416-417 | Z steps the snapshot head forward, never past the end, and keeps the list. |
| Editor.State.HandleInsertKey | state/state.go:434-452 | Runes, Tab and Enter make the text `Inserted` and put the cursor at `InsertedAt`. Backspace, Ctrl-W and Delete make it `Backspaced`, `WordErased` and `Deleted`, with the cursor at `BackspacedAt`, `WordErasedAt` and where it was. The other keys but Esc change nothing. Esc returns to Normal mode: the cursor steps left, the anchor follows and the state is recorded as the new last snapshot. |
| Editor.State.TypeKey | state/state.go:436-441 | The text becomes `Inserted` and the cursor goes to `InsertedAt`. |
| Editor.State.BackspaceKey | state/state.go:442-445 | The text becomes `Backspaced`, or `WordErased` for Ctrl-W. The cursor goes to `BackspacedAt`, or `WordErasedAt`, and the anchor follows. |
| Editor.State.DeleteKey | state/state.go:446-447 | The text becomes `Deleted`. |
| Findings.DeleteLinesAsWritten | state/actions.go:32-37 | deleteLines as written: the number of lines left, and a clamped line no greater than the anchor's. |
| Findings.AsWrittenLineOutside | state/actions.go:32-38 | The line it hands setCursorY is outside the text exactly when every line was selected. |
| Findings.AsWrittenCounterexample | state/actions.go:32-38 | On `["a"]` with both positions on line 0, no line is left and setCursorY gets line -1. |
| Findings.CorrectedAgrees | state/actions.go:32-40 | The corrected version always leaves a line for the anchor. Wherever the code as written does not fail, the two agree. |

## Left out

- The UI (`ui/ui.go`), `main.go`, the clipboard, file saving and the debug helpers are outside the model: they are terminal drawing and I/O.
- `setCursorShape` prints a terminal escape sequence. It is left out, so `setMode` is modelled without it.
- The Insert-mode default branch writes a message into `Msg` for the status line. The model leaves the text unchanged there and does not keep `Msg`.
- `rw.RuneWidth` is a parameter with results in 0..2; its tables are not modelled. The `regexp` engine is not modelled: the two word regexps are explicit scans over ASCII classes.
- A line is a sequence of characters, one index per character. The Go code indexes bytes, and on ASCII text the two agree. UTF-8 decoding in moveLeft/moveRight is not modelled.
- Go slices share backing arrays (`append(text[:start], ...)`). The model uses value semantics, so aliasing between `history` entries and `Text` is not modelled.
- `recordHistory` is not declared in any source file. It is modelled as `snapshot`.
- Editor.State.HandleKey: requires `KeyDefined`, leaving out the keys on which Go panics on a slice bound:
  - d when the cursor is past the line's last character;
  - D on an empty line whose X is not -1;
  - f and x when the selection ends past its line's last character.

  Leaving Insert mode on an empty line leaves X = 0, Settled allows that, and x or f there would panic.
  For a, A, d, D, f and F, HandleKey states only what the six methods below state.
- Editor.State.InsertBefore: states only `Coherent` and Insert mode. What it does follows from the SetMode contract it calls.
- Editor.State.InsertLineAbove: states only `Coherent` and Insert mode (NewLineAbove, then SetMode).
- Editor.State.InsertAfter: states only `Coherent` and Insert mode (SetCursorX, then SetMode).
- Editor.State.InsertLineBelow: states only `Coherent` and Insert mode (Move, SetCursorX, SetMode, then Insert).
- Editor.State.ChangeSelection: states only `Coherent` and Insert mode (Delete, then SetMode).
- Editor.State.ChangeLines: states only `Coherent` and Insert mode (DeleteLines, NewLineAbove, then SetMode).
- `TabWidth` is required to be positive. With 0 Go divides by zero in `visualWidth`, and the model does not cover that.
- Move counts are `nat`. Only 1 and 9 occur in the source.
- compose follows the code: it takes the lines inside `a.after`'s window from `a.after` and the rest from `b.before`. Composing diffs that neither overlap nor touch is excluded by `ComposeDefined`, because Go would index `b.before` out of range.
- In Space mode, q returns true before `s.mode = modeNormal` is reached, so the mode stays Space. The model follows the code.
- The diff-based history methods (StartChange, ApplyDiff, EndChange, Undo, Redo) are not reached from HandleKey. The key dispatcher in the source uses the snapshot history.

## Findings

| source | as written | input that shows it | evidently intended | confidence | as-written member | corrected member |
|---|---|---|---|---|---|---|
| state/actions.go:32-38 | deleteLines removes the selected lines, then clamps the anchor's line to `len(Text) - 1` and calls setCursorY on it. | A text of one line `"a"` with anchor and cursor on line 0 (key X): Text becomes empty, the clamp gives -1, and setCursorY indexes `Text[-1]`. | The buffer is left as one empty line, the editor's form of an empty document, with both positions on it. F calls newLineAbove after deleteLines, so F over the whole text then leaves two empty lines. | not executed | Findings.DeleteLinesAsWritten, Findings.AsWrittenCounterexample | Edits.LinesDeleted, Editor.State.DeleteLines |
