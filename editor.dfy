/**
 * The editor session of package state: the State object with its buffer,
 * selection and mode; the cursor movements of state/movements.go; the
 * edits of state/insert.go and state/actions.go; the mode switch of
 * state/mode.go; the diff-based undo history of state/history.go; and the
 * snapshot history and key dispatcher of state/state.go.
 */
module Editor {
  import opened Options
  import opened Diffs
  import opened Movements
  import opened Edits

  datatype Mode = NormalMode | InsertMode | SpaceMode

  /** history.go's change: one grouped diff with the positions before and after it. */
  datatype Change = Change(
    diff: Diff,
    anchorBefore: Position, anchorAfter: Position,
    cursorBefore: Position, cursorAfter: Position)

  /** state.go's history entry: a copy of the text with both positions. */
  datatype HistoryEntry = HistoryEntry(text: seq<Line>, anchor: Position, cursor: Position)

  /** The key events HandleKey tells apart; modifiers matter only for the arrows. */
  datatype Key =
    | Rune(r: char)
    | ArrowUp(shift: bool)
    | ArrowDown(shift: bool)
    | Tab            // tcell.KeyTAB
    | Enter          // tcell.KeyCR
    | Backspace      // tcell.KeyDEL
    | BackspaceWord  // key code 0x17, Ctrl-W
    | Delete         // tcell.KeyDelete
    | Esc
    | Other

  /** Go's zero cursor. */
  const Origin := Position(0, 0, 0)

  /** normaliseSelection on a pair (anchor, cursor): swap them when the cursor comes first. */
  function Normalised(anchor: Position, cursor: Position): (r: (Position, Position))
    ensures r == (anchor, cursor) || r == (cursor, anchor)
    ensures r.0.Y < r.1.Y || (r.0.Y == r.1.Y && r.0.X <= r.1.X)
    ensures (anchor.Y < cursor.Y || (anchor.Y == cursor.Y && anchor.X <= cursor.X)) ==> r == (anchor, cursor)
  {
    if cursor.Y < anchor.Y || (cursor.Y == anchor.Y && cursor.X < anchor.X) then (cursor, anchor)
    else (anchor, cursor)
  }

  /** The text an Insert-mode key leaves with the cursor at (y, x): typed keys insert, deletion keys edit. */
  function Typed(k: Key, text: seq<Line>, y: int, x: int): seq<Line>
    requires 0 <= y < |text| && 0 <= x <= |text[y]|
  {
    match k
    case Rune(ch) => Inserted(text, y, x, ch)
    case Tab => Inserted(text, y, x, '\t')
    case Enter => Inserted(text, y, x, '\n')
    case Backspace => Backspaced(text, y, x)
    case BackspaceWord => WordErased(text, y, x)
    case Delete => Deleted(text, y, x)
    case _ => text
  }

  /** Where an Insert-mode key other than Esc leaves the cursor at (y, x), as (Y, X). */
  function TypedAt(k: Key, text: seq<Line>, y: int, x: int): (int, int)
    requires 0 <= y < |text| && 0 <= x <= |text[y]|
  {
    match k
    case Rune(ch) => InsertedAt(y, x, ch)
    case Tab => InsertedAt(y, x, '\t')
    case Enter => InsertedAt(y, x, '\n')
    case Backspace => BackspacedAt(text, y, x)
    case BackspaceWord => WordErasedAt(text, y, x)
    case _ => (y, x)
  }

  /** The Normal-mode keys that act: the movements, Esc, and the runes with a case other than ' '. */
  predicate NormalActs(k: Key) {
    NormalMovement(k).Some? || k == Esc || (k.Rune? && k.r in "aAdDfFxXzZ")
  }

  /** The indices delete touches lie inside the text, once the selection is normalised. */
  predicate DeleteDefined(text: seq<Line>, anchor: Position, cursor: Position) {
    var (a, c) := Normalised(anchor, cursor);
    && 0 <= a.Y && 0 <= c.Y < |text| && -1 <= c.X < |text[c.Y]|
    && (a.X != -1 ==> 0 <= a.X <= |text[a.Y]|)
  }

  /** What the Normal-mode key k does to the cursor: the movement, and whether the anchor follows. */
  function NormalMovement(k: Key): (r: Option<(Movement, bool)>)
    ensures k.ArrowUp? ==> r == Some((Up(9), !k.shift))
    ensures k.ArrowDown? ==> r == Some((Down(9), !k.shift))
  {
    match k
    case Rune(ch) =>
      if ch == 'y' then Some((StartOfLine, true)) else if ch == 'Y' then Some((StartOfLine, false))
      else if ch == 'o' then Some((EndOfLine, true)) else if ch == 'O' then Some((EndOfLine, false))
      else if ch == 'u' then Some((StartOfWord, true)) else if ch == 'U' then Some((StartOfWord, false))
      else if ch == 'i' then Some((EndOfWord, true)) else if ch == 'I' then Some((EndOfWord, false))
      else if ch == 'h' then Some((Left, true)) else if ch == 'H' then Some((Left, false))
      else if ch == 'l' then Some((Right, true)) else if ch == 'L' then Some((Right, false))
      else if ch == 'k' then Some((Up(1), true)) else if ch == 'K' then Some((Up(1), false))
      else if ch == 'j' then Some((Down(1), true)) else if ch == 'J' then Some((Down(1), false))
      else None
    case ArrowUp(shift) => Some((Up(9), !shift))
    case ArrowDown(shift) => Some((Down(9), !shift))
    case _ => None
  }

  /** The Normal-mode keys that end in Insert mode: a, A, d, D, f and F. */
  predicate EntersInsert(ch: char) {
    ch == 'a' || ch == 'A' || ch == 'd' || ch == 'D' || ch == 'f' || ch == 'F'
  }

  /** The mode HandleKey leaves the editor in after key k in mode m. */
  function NextMode(m: Mode, k: Key): Mode {
    match m
    case NormalMode =>
      if k == Rune(' ') then SpaceMode
      else if k.Rune? && EntersInsert(k.r) then InsertMode
      else NormalMode
    case InsertMode => if k == Esc then NormalMode else InsertMode
    case SpaceMode => if k == Rune('q') then SpaceMode else NormalMode
  }

  /** Lower-case movement keys drag the anchor along; upper-case ones and shifted arrows leave it. */
  lemma MovementKeyCase(ch: char)
    requires NormalMovement(Rune(ch)).Some?
    ensures NormalMovement(Rune(ch)).value.1 <==> 'a' <= ch <= 'z'
  {
  }

  /** Every recorded snapshot has a line. */
  predicate AllNonEmpty(snaps: seq<HistoryEntry>) {
    forall i :: 0 <= i < |snaps| ==> |snaps[i].text| >= 1
  }

  /** Every recorded snapshot has both its positions Settled in its text. */
  predicate AllSettled(snaps: seq<HistoryEntry>) {
    forall i :: 0 <= i < |snaps| ==> Settled(snaps[i].text, snaps[i].anchor) && Settled(snaps[i].text, snaps[i].cursor)
  }

  /** Dropping the snapshots after k and recording e keeps both properties that e has. */
  lemma RecordKeeps(snaps: seq<HistoryEntry>, k: nat, e: HistoryEntry)
    requires k <= |snaps|
    ensures AllNonEmpty(snaps) && |e.text| >= 1 ==> AllNonEmpty(snaps[..k] + [e])
    ensures AllSettled(snaps) && Settled(e.text, e.anchor) && Settled(e.text, e.cursor) ==> AllSettled(snaps[..k] + [e])
  {
    var t := snaps[..k] + [e];
    assert forall i :: 0 <= i < k ==> t[i] == snaps[i];
    assert t[k] == e;
  }

  /** Change c was recorded going from text `before` to text `after`, its positions in those texts. */
  ghost predicate Step(c: Change, before: seq<Line>, after: seq<Line>) {
    && Captured(c.diff, before)
    && Apply(c.diff, before) == after
    && InText(before, c.anchorBefore) && InText(before, c.cursorBefore)
    && InText(after, c.anchorAfter) && InText(after, c.cursorAfter)
  }

  /** versions[i] is the text before history[i] and versions[i + 1] the text after it. */
  ghost predicate ChainOf(history: seq<Change>, versions: seq<seq<Line>>) {
    && |versions| == |history| + 1
    && (forall i :: 0 <= i < |versions| ==> |versions[i]| >= 1)
    && (forall i :: 0 <= i < |history| ==> Step(history[i], versions[i], versions[i + 1]))
  }

  /** Recording a change at head k drops the undone changes and keeps the chain. */
  lemma ChainRecord(history: seq<Change>, versions: seq<seq<Line>>, k: nat, c: Change, text: seq<Line>)
    requires ChainOf(history, versions) && k <= |history|
    requires |text| >= 1 && Step(c, versions[k], text)
    ensures ChainOf(history[..k] + [c], versions[..k + 1] + [text])
  {
    var h, v := history[..k] + [c], versions[..k + 1] + [text];
    forall i | 0 <= i < |v|
      ensures |v[i]| >= 1
    {
      if i <= k {
        assert v[i] == versions[i];
      }
    }
    forall i | 0 <= i < |h|
      ensures Step(h[i], v[i], v[i + 1])
    {
      assert v[i] == versions[i];
      if i < k {
        assert h[i] == history[i] && v[i + 1] == versions[i + 1];
      }
    }
  }

  class State {
    const TabWidth: int
    /** rw.RuneWidth, which the model leaves abstract. */
    const runeWidth: RuneWidth
    var Text: seq<Line>
    var Anchor: Position
    var Cursor: Position
    var mode: Mode
    // The diff-based history of state/history.go.
    var history: seq<Change>
    var historyHead: int
    var change: Change
    // The snapshot history of state/state.go (its field `history`).
    var snapshots: seq<HistoryEntry>
    var snapshotHead: int
    /** The texts the recorded changes lead through: versions[i] is the text before history[i]. */
    ghost var versions: seq<seq<Line>>
    /** The text when the pending change was started. */
    ghost var changeBase: seq<Line>

    /** The shape every operation keeps: a buffer of at least one line, heads within their histories. */
    ghost predicate Valid()
      reads this
    {
      && |Text| >= 1 && TabWidth > 0
      && 0 <= historyHead <= |history|
      && 0 <= snapshotHead <= |snapshots|
      && AllNonEmpty(snapshots)
    }

    /**
     * The invariant HandleKey keeps once Init has run: both positions lie in
     * the text; in Insert mode they coincide and X is a real offset; outside
     * Insert mode they are Settled and the text is the current snapshot.
     */
    ghost predicate Coherent()
      reads this
    {
      && Valid()
      && 1 <= snapshotHead
      && InText(Text, Anchor) && InText(Text, Cursor)
      && AllSettled(snapshots)
      && (mode == InsertMode ==> Anchor == Cursor && Cursor.X >= 0)
      && (mode != InsertMode ==>
            Settled(Text, Anchor) && Settled(Text, Cursor) && Text == snapshots[snapshotHead - 1].text)
    }

    /** The recorded changes replay from the first version up to the last. */
    ghost predicate Chain()
      reads this
    {
      ChainOf(history, versions) && 0 <= historyHead <= |history|
    }

    /** No change is pending: the text is the version at the head. */
    ghost predicate AtHead()
      reads this
    {
      Chain() && Text == versions[historyHead]
    }

    /** A change is pending: applying its diff to the version at the head gives the text. */
    ghost predicate InSession()
      reads this
    {
      && Chain()
      && changeBase == versions[historyHead]
      && Captured(change.diff, changeBase)
      && Text == Apply(change.diff, changeBase)
      && InText(changeBase, change.anchorBefore)
      && InText(changeBase, change.cursorBefore)
    }

    /** A State as main.go builds it: the text and tab width set, every other field zero. */
    constructor(text: seq<Line>, tabWidth: int, w: RuneWidth)
      requires |text| >= 1 && tabWidth > 0
      ensures Valid() && AtHead()
      ensures Text == text && TabWidth == tabWidth && runeWidth == w
      ensures Anchor == Origin && Cursor == Origin && mode == NormalMode
      ensures history == [] && historyHead == 0 && change == Change(NoDiff, Origin, Origin, Origin, Origin)
      ensures snapshots == [] && snapshotHead == 0
    {
      TabWidth := tabWidth;
      runeWidth := w;
      Text := text;
      Anchor, Cursor := Origin, Origin;
      mode := NormalMode;
      history, historyHead := [], 0;
      change := Change(NoDiff, Origin, Origin, Origin, Origin);
      snapshots, snapshotHead := [], 0;
      versions := [text];
      changeBase := text;
    }

    // ---- movements.go -------------------------------------------------

    /** setCursorX: offset x on c's line, the column summed over the characters before x. */
    method SetCursorX(c: Position, x: int) returns (r: Position)
      requires Valid() && 0 <= c.Y < |Text| && 0 <= x <= |Text[c.Y]|
      ensures r == WithX(Text, TabWidth, runeWidth, c, x)
    {
      var line := Text[c.Y];
      r := c.(X := x, col := 0);
      for i := 0 to x
        invariant r == Position(x, c.Y, Column(line, i, TabWidth, runeWidth))
      {
        r := r.(col := r.col + VisualWidth(r.col, TabWidth, line[i], runeWidth));
      }
    }

    /** setCursorY: line y, the cached column kept, X the character at that column (the range variable's last value). */
    method SetCursorY(c: Position, y: int) returns (r: Position)
      requires Valid() && 0 <= y < |Text|
      ensures r == WithY(Text, TabWidth, runeWidth, c, y)
    {
      var line := Text[y];
      r := c.(Y := y, X := -1);
      var col := 0;
      var i := 0;
      while i < |line|
        invariant 0 <= i <= |line|
        invariant r == Position(i - 1, y, c.col)
        invariant col == Column(line, i, TabWidth, runeWidth)
        invariant forall j :: 0 <= j < i ==> ColumnAfter(line, j, TabWidth, runeWidth) <= c.col
      {
        r := r.(X := i);
        col := col + VisualWidth(col, TabWidth, line[i], runeWidth);
        if col > c.col {
          break;
        }
        i := i + 1;
      }
      if |line| > 0 {
        OffsetForColumnIff(line, c.col, TabWidth, runeWidth, r.X);
      }
    }

    method MoveLeft(c: Position) returns (r: Position)
      requires Valid() && MoveDefined(Left, Text, c)
      ensures r == Target(Left, Text, TabWidth, runeWidth, c)
    {
      if c.X <= 0 {
        return c;
      }
      r := SetCursorX(c, c.X - 1);
    }

    method MoveRight(c: Position) returns (r: Position)
      requires Valid() && MoveDefined(Right, Text, c)
      ensures r == Target(Right, Text, TabWidth, runeWidth, c)
    {
      var line := Text[c.Y];
      if |line| == 0 {
        return c;
      }
      if c.X == |line| - 1 {
        return c;
      }
      // utf8.DecodeRuneInString of the empty rest of the line has size 0.
      var size := if c.X < |line| then 1 else 0;
      r := SetCursorX(c, c.X + size);
    }

    method MoveUp(c: Position, n: nat) returns (r: Position)
      requires Valid() && MoveDefined(Up(n), Text, c)
      ensures r == Target(Up(n), Text, TabWidth, runeWidth, c)
    {
      if c.Y == 0 {
        return c;
      }
      if c.Y - n >= 0 {
        r := SetCursorY(c, c.Y - n);
      } else {
        r := SetCursorY(c, 0);
      }
    }

    method MoveDown(c: Position, n: nat) returns (r: Position)
      requires Valid() && MoveDefined(Down(n), Text, c)
      ensures r == Target(Down(n), Text, TabWidth, runeWidth, c)
    {
      if c.Y == |Text| - 1 {
        return c;
      }
      if c.Y + n <= |Text| - 1 {
        r := SetCursorY(c, c.Y + n);
      } else {
        r := SetCursorY(c, |Text| - 1);
      }
    }

    method MoveStartOfLine(c: Position) returns (r: Position)
      requires Valid() && MoveDefined(StartOfLine, Text, c)
      ensures r == Target(StartOfLine, Text, TabWidth, runeWidth, c)
    {
      var line := Text[c.Y];
      for x := 0 to |line|
        invariant forall k :: 0 <= k < x ==> line[k] == ' ' || line[k] == '\t'
      {
        if line[x] != ' ' && line[x] != '\t' {
          r := SetCursorX(c, x);
          return;
        }
      }
      r := c;
    }

    method MoveEndOfLine(c: Position) returns (r: Position)
      requires Valid() && MoveDefined(EndOfLine, Text, c)
      ensures r == Target(EndOfLine, Text, TabWidth, runeWidth, c)
    {
      if |Text[c.Y]| == 0 {
        return c;
      }
      r := SetCursorX(c, |Text[c.Y]| - 1);
    }

    method MoveStartOfWord(c: Position) returns (r: Position)
      requires Valid() && MoveDefined(StartOfWord, Text, c)
      ensures r == Target(StartOfWord, Text, TabWidth, runeWidth, c)
    {
      if |Text[c.Y]| == 0 {
        return c;
      }
      var match0 := StartOfWordMatch(Text[c.Y][..c.X]);
      r := c;
      if match0.Some? {
        r := SetCursorX(c, match0.value);
      }
    }

    method MoveEndOfWord(c: Position) returns (r: Position)
      requires Valid() && MoveDefined(EndOfWord, Text, c)
      ensures r == Target(EndOfWord, Text, TabWidth, runeWidth, c)
    {
      if |Text[c.Y]| == 0 {
        return c;
      }
      var match1 := EndOfWordMatch(Text[c.Y][c.X + 1..]);
      r := c;
      if match1.Some? {
        r := SetCursorX(c, c.X + match1.value);
      }
    }

    /** f(c) for the movement function f that `move` is handed. */
    method Moved(m: Movement, c: Position) returns (r: Position)
      requires Valid() && MoveDefined(m, Text, c)
      ensures r == Target(m, Text, TabWidth, runeWidth, c)
    {
      match m
      case Left => r := MoveLeft(c);
      case Right => r := MoveRight(c);
      case Up(n) => r := MoveUp(c, n);
      case Down(n) => r := MoveDown(c, n);
      case StartOfLine => r := MoveStartOfLine(c);
      case EndOfLine => r := MoveEndOfLine(c);
      case StartOfWord => r := MoveStartOfWord(c);
      case EndOfWord => r := MoveEndOfWord(c);
    }

    /** move(f): move the cursor, and the anchor with it. */
    method Move(m: Movement)
      requires Valid() && MoveDefined(m, Text, Cursor)
      modifies this`Cursor, this`Anchor
      ensures Cursor == Target(m, Text, TabWidth, runeWidth, old(Cursor))
      ensures Anchor == Cursor
    {
      Cursor := Moved(m, Cursor);
      Anchor := Cursor;
    }

    // ---- insert.go ----------------------------------------------------

    /** insert: a new line break splits the cursor's line; any other character goes in at the cursor. */
    method Insert(ch: char)
      requires Valid() && 0 <= Cursor.Y < |Text| && 0 <= Cursor.X <= |Text[Cursor.Y]|
      modifies this`Text, this`Cursor, this`Anchor
      ensures Valid()
      ensures Text == Inserted(old(Text), old(Cursor.Y), old(Cursor.X), ch)
      ensures (Cursor.Y, Cursor.X) == InsertedAt(old(Cursor.Y), old(Cursor.X), ch)
      ensures ch == '\n' ==> Cursor == Position(0, old(Cursor.Y) + 1, 0)
      ensures ch != '\n' ==> Cursor == WithX(Text, TabWidth, runeWidth, old(Cursor), old(Cursor.X) + 1)
      ensures Anchor == Cursor && InText(Text, Cursor) && Cursor.X >= 0
    {
      var y, x := Cursor.Y, Cursor.X;
      var line := Text[y];
      if ch == '\n' {
        Text := Text[..y] + [line[..x], line[x..]] + Text[y + 1..];
        Cursor := SetCursorY(Cursor, y + 1);
        Cursor := SetCursorX(Cursor, 0);
        Anchor := Cursor;
        return;
      }
      Text := Text[y := line[..x] + [ch] + line[x..]];
      Cursor := SetCursorX(Cursor, x + 1);
      Anchor := Cursor;
    }

    /** insertBackspace: join onto the previous line at the start of a line, else remove the character before the cursor. */
    method InsertBackspace()
      requires Valid() && 0 <= Cursor.Y < |Text| && 0 <= Cursor.X <= |Text[Cursor.Y]|
      modifies this`Text, this`Cursor, this`Anchor
      ensures Valid()
      ensures Text == Backspaced(old(Text), old(Cursor.Y), old(Cursor.X))
      ensures (Cursor.Y, Cursor.X) == BackspacedAt(old(Text), old(Cursor.Y), old(Cursor.X))
      ensures old(Cursor.X == 0 && Cursor.Y == 0) ==> Cursor == old(Cursor) && Anchor == old(Anchor)
      ensures old(Cursor.X == 0 && Cursor.Y > 0) ==>
        Cursor == WithX(Text, TabWidth, runeWidth, old(Cursor).(Y := old(Cursor.Y) - 1), old(|Text[Cursor.Y - 1]|))
      ensures old(Cursor.X) > 0 ==> Cursor == WithX(Text, TabWidth, runeWidth, old(Cursor), old(Cursor.X) - 1)
      ensures old(Cursor.X != 0 || Cursor.Y != 0) ==> Anchor == Cursor
      ensures InText(Text, Cursor) && Cursor.X >= 0
    {
      var y, x := Cursor.Y, Cursor.X;
      if x == 0 && y == 0 {
        return;
      } else if x == 0 {
        var prevLen := |Text[y - 1]|;
        Text := Text[..y - 1] + [Text[y - 1] + Text[y]] + Text[y + 1..];
        Cursor := SetCursorY(Cursor, y - 1);
        Cursor := SetCursorX(Cursor, prevLen);
        Anchor := Cursor;
        return;
      }
      Text := Text[y := Text[y][..x - 1] + Text[y][x..]];
      Cursor := SetCursorX(Cursor, x - 1);
      Anchor := Cursor;
    }

    /**
     * insertBackspaceWord: at the start of a line, as insertBackspace;
     * otherwise remove back to where reStartOfWord matches before the
     * cursor, or to the start of the line when it does not match.
     */
    method InsertBackspaceWord()
      requires Valid() && 0 <= Cursor.Y < |Text| && 0 <= Cursor.X <= |Text[Cursor.Y]|
      modifies this`Text, this`Cursor, this`Anchor
      ensures Valid()
      ensures Text == WordErased(old(Text), old(Cursor.Y), old(Cursor.X))
      ensures old(Cursor.X == 0) ==> (Cursor.Y, Cursor.X) == BackspacedAt(old(Text), old(Cursor.Y), old(Cursor.X))
      ensures old(Cursor.X == 0 && Cursor.Y == 0) ==> Cursor == old(Cursor) && Anchor == old(Anchor)
      ensures old(Cursor.X == 0 && Cursor.Y > 0) ==>
        Cursor == WithX(Text, TabWidth, runeWidth, old(Cursor).(Y := old(Cursor.Y) - 1), old(|Text[Cursor.Y - 1]|))
      ensures old(Cursor.X) > 0 ==>
        Cursor == WithX(Text, TabWidth, runeWidth, old(Cursor), WordStart(old(Text), old(Cursor.Y), old(Cursor.X)))
      ensures old(Cursor.X != 0 || Cursor.Y != 0) ==> Anchor == Cursor
      ensures InText(Text, Cursor) && Cursor.X >= 0
    {
      var y, x := Cursor.Y, Cursor.X;
      if x == 0 && y == 0 {
        return;
      } else if x == 0 {
        InsertBackspace();
        return;
      }
      var found := StartOfWordMatch(Text[y][..x]);
      if found.Some? {
        Text := Text[y := Text[y][..found.value] + Text[y][x..]];
        Cursor := SetCursorX(Cursor, found.value);
        Anchor := Cursor;
      } else {
        assert Text[y][..0] + Text[y][x..] == Text[y][x..];
        Text := Text[y := Text[y][x..]];
        Cursor := SetCursorX(Cursor, 0);
        Anchor := Cursor;
      }
    }

    /** insertDelete: at a line end join the next line, else remove the character under the cursor; the cursor stays. */
    method InsertDelete()
      requires Valid() && 0 <= Cursor.Y < |Text| && (Cursor.X < |Text[Cursor.Y]| ==> 0 <= Cursor.X)
      modifies this`Text
      ensures Valid()
      ensures Text == Deleted(old(Text), old(Cursor.Y), old(Cursor.X))
      ensures old(InText(Text, Cursor)) ==> InText(Text, Cursor)
    {
      var y, x := Cursor.Y, Cursor.X;
      if x >= |Text[y]| && y == |Text| - 1 {
        return;
      } else if x >= |Text[y]| {
        Text := Text[..y] + [Text[y] + Text[y + 1]] + Text[y + 2..];
        return;
      }
      Text := Text[y := Text[y][..x] + Text[y][x + 1..]];
    }

    // ---- actions.go ---------------------------------------------------

    /** newLineAbove: an empty line goes in at the cursor's line, and the cursor onto it. */
    method NewLineAbove()
      requires Valid() && 0 <= Cursor.Y <= |Text|
      modifies this`Text, this`Cursor, this`Anchor
      ensures Valid()
      ensures Text == old(Text[..Cursor.Y]) + [[]] + old(Text[Cursor.Y..])
      ensures Cursor == Position(-1, old(Cursor.Y), old(Cursor.col)) && Anchor == Cursor
      ensures Settled(Text, Cursor)
    {
      var y := Cursor.Y;
      Text := Text[..y] + [[]] + Text[y..];
      Cursor := SetCursorY(Cursor, y);
      Anchor := Cursor;
    }

    /** normaliseSelection: afterwards the anchor does not come after the cursor. */
    method NormaliseSelection()
      modifies this`Cursor, this`Anchor
      ensures (Anchor, Cursor) == Normalised(old(Anchor), old(Cursor))
    {
      if Cursor.Y < Anchor.Y || (Cursor.Y == Anchor.Y && Cursor.X < Anchor.X) {
        Cursor, Anchor := Anchor, Cursor;
      }
    }

    /**
     * delete: remove the selection, the character under its end included;
     * the lines it spans become one, and both positions go to its start line.
     */
    method Delete()
      requires Valid() && DeleteDefined(Text, Anchor, Cursor)
      modifies this`Text, this`Cursor, this`Anchor
      ensures Valid()
      ensures var (a, c) := Normalised(old(Anchor), old(Cursor));
        && Text == SelectionDeleted(old(Text), a, c)
        && Anchor == WithY(Text, TabWidth, runeWidth, a, a.Y)
      ensures Cursor == Anchor && Settled(Text, Cursor)
    {
      NormaliseSelection();
      var joined;
      if Anchor.X == -1 {
        joined := Text[Cursor.Y][Cursor.X + 1..];
      } else {
        joined := Text[Anchor.Y][..Anchor.X] + Text[Cursor.Y][Cursor.X + 1..];
      }
      Text := Text[Cursor.Y := joined];
      Text := Text[..Anchor.Y] + Text[Cursor.Y..];
      Anchor := SetCursorY(Anchor, Anchor.Y);
      Cursor := Anchor;
    }

    /**
     * deleteLines: remove every line the selection touches and put both
     * positions on the line after them, clamped to the last line.  When the
     * selection covers the whole text the buffer is left as one empty line
     * (state/actions.go leaves it with no line at all: see findings.dfy).
     */
    method DeleteLines()
      requires Valid() && 0 <= Normalised(Anchor, Cursor).0.Y && Normalised(Anchor, Cursor).1.Y < |Text|
      modifies this`Text, this`Cursor, this`Anchor
      ensures Valid()
      ensures var (a, c) := Normalised(old(Anchor), old(Cursor));
        && Text == LinesDeleted(old(Text), a.Y, c.Y)
        && Anchor == WithY(Text, TabWidth, runeWidth, a, Min(a.Y, |Text| - 1))
      ensures Cursor == Anchor && Settled(Text, Cursor)
    {
      NormaliseSelection();
      Text := Text[..Anchor.Y] + Text[Cursor.Y + 1..];
      if |Text| == 0 {
        Text := [[]];
      }
      if Anchor.Y >= |Text| {
        Anchor := Anchor.(Y := |Text| - 1);
      }
      Anchor := SetCursorY(Anchor, Anchor.Y);
      Cursor := Anchor;
    }

    // ---- state.go: snapshot history -----------------------------------

    /** snapshot: drop the undone snapshots and record a copy of the text with both positions. */
    method Snapshot()
      requires Valid()
      modifies this`snapshots, this`snapshotHead
      ensures Valid()
      ensures snapshots == old(snapshots[..snapshotHead]) + [HistoryEntry(Text, Anchor, Cursor)]
      ensures snapshotHead == old(snapshotHead) + 1 == |snapshots|
      ensures old(AllSettled(snapshots)) && Settled(Text, Anchor) && Settled(Text, Cursor) ==> AllSettled(snapshots)
    {
      RecordKeeps(snapshots, snapshotHead, HistoryEntry(Text, Anchor, Cursor));
      snapshots := snapshots[..snapshotHead] + [HistoryEntry(Text, Anchor, Cursor)];
      snapshotHead := snapshotHead + 1;
    }

    /** Init: record the first snapshot. */
    method Init()
      requires Valid()
      modifies this`snapshots, this`snapshotHead
      ensures Valid()
      ensures snapshots == old(snapshots[..snapshotHead]) + [HistoryEntry(Text, Anchor, Cursor)]
      ensures snapshotHead == old(snapshotHead) + 1 == |snapshots|
      ensures old(snapshots) == [] ==> |snapshots| == 1 && snapshotHead == 1
      ensures old(snapshots == [] && mode != InsertMode && Settled(Text, Anchor) && Settled(Text, Cursor)) ==> Coherent()
    {
      Snapshot();
    }

    /** undo: go back to the snapshot before the current one, if there is one. */
    method SnapshotUndo()
      requires Valid()
      modifies this`Text, this`Anchor, this`Cursor, this`snapshotHead
      ensures Valid()
      ensures old(snapshotHead) <= 1 ==>
        Text == old(Text) && Anchor == old(Anchor) && Cursor == old(Cursor) && snapshotHead == old(snapshotHead)
      ensures old(snapshotHead) > 1 ==>
        && snapshotHead == old(snapshotHead) - 1
        && HistoryEntry(Text, Anchor, Cursor) == snapshots[snapshotHead - 1]
    {
      if snapshotHead <= 1 {
        return;
      }
      var s := snapshots[snapshotHead - 2];
      Text := s.text;
      Anchor := s.anchor;
      Cursor := s.cursor;
      snapshotHead := snapshotHead - 1;
    }

    /** redo: go forward to the next snapshot, if there is one. */
    method SnapshotRedo()
      requires Valid()
      modifies this`Text, this`Anchor, this`Cursor, this`snapshotHead
      ensures Valid()
      ensures old(snapshotHead) == |snapshots| ==>
        Text == old(Text) && Anchor == old(Anchor) && Cursor == old(Cursor) && snapshotHead == old(snapshotHead)
      ensures old(snapshotHead) < |snapshots| ==>
        && snapshotHead == old(snapshotHead) + 1
        && HistoryEntry(Text, Anchor, Cursor) == snapshots[snapshotHead - 1]
    {
      if snapshotHead == |snapshots| {
        return;
      }
      var s := snapshots[snapshotHead];
      Text := s.text;
      Anchor := s.anchor;
      Cursor := s.cursor;
      snapshotHead := snapshotHead + 1;
    }

    // ---- mode.go ------------------------------------------------------

    /**
     * setMode: leaving Insert mode steps the cursor left and records a
     * snapshot; entering it moves a cursor off the virtual offset and
     * collapses the anchor onto the cursor.
     */
    method SetMode(m: Mode)
      requires Valid()
      requires mode == InsertMode ==> MoveDefined(Left, Text, Cursor)
      requires m == InsertMode && Cursor.X == -1 ==> 0 <= Cursor.Y < |Text|
      modifies this`Cursor, this`Anchor, this`mode, this`snapshots, this`snapshotHead
      ensures Valid() && mode == m
      ensures var left := if old(mode) == InsertMode then Target(Left, Text, TabWidth, runeWidth, old(Cursor)) else old(Cursor);
        && Cursor == (if m == InsertMode && left.X == -1 then WithX(Text, TabWidth, runeWidth, left, 0) else left)
        && Anchor == (if old(mode) == InsertMode || m == InsertMode then Cursor else old(Anchor))
        && snapshots == (if old(mode) == InsertMode then old(snapshots[..snapshotHead]) + [HistoryEntry(Text, left, left)] else old(snapshots))
        && snapshotHead == (if old(mode) == InsertMode then old(snapshotHead) + 1 else old(snapshotHead))
      ensures old(AllSettled(snapshots)) && old(InText(Text, Cursor)) ==> AllSettled(snapshots)
    {
      if mode == InsertMode {
        TargetKeeps(Left, Text, TabWidth, runeWidth, Cursor);
        Move(Left);
        Snapshot();
      }
      if m == InsertMode {
        if Cursor.X == -1 {
          Cursor := SetCursorX(Cursor, 0);
        }
        Anchor := Cursor;
      }
      mode := m;
    }

    // ---- history.go: diff-based history -------------------------------

    /** startChange: remember the positions and start an empty pending diff. */
    method StartChange()
      modifies this`change, this`changeBase
      ensures change == Change(NoDiff, Anchor, Origin, Cursor, Origin)
      ensures old(AtHead()) && InText(Text, Anchor) && InText(Text, Cursor) ==> InSession()
    {
      change := Change(NoDiff, Anchor, Origin, Cursor, Origin);
      changeBase := Text;
    }

    /** applyDiff: apply d to the text and fold it into the pending diff. */
    method ApplyDiff(d: Diff)
      requires Fits(d, Text) && ComposeDefined(d, change.diff)
      modifies this`Text, this`change
      ensures Text == Apply(d, old(Text))
      ensures change == old(change).(diff := Composition(d, old(change.diff)))
      ensures old(InSession()) && Captured(d, old(Text)) ==> InSession()
    {
      ghost var wasInSession := InSession();
      ghost var pending := change.diff;
      var copied := Diff(d.start, d.before, d.after);
      Text := Apply(copied, Text);
      var composed := Compose(copied, change.diff);
      change := change.(diff := composed);
      if wasInSession && Captured(d, old(Text)) {
        ComposeApply(d, pending, changeBase);
        ComposeCaptured(d, pending, changeBase);
      }
    }

    /** endChange: record the pending change unless its diff is empty. */
    method EndChange()
      requires 0 <= historyHead <= |history|
      modifies this`change, this`history, this`historyHead, this`versions
      ensures IsEmpty(old(change.diff)) ==>
        change == old(change) && history == old(history) && historyHead == old(historyHead)
      ensures !IsEmpty(old(change.diff)) ==>
        && change == old(change).(anchorAfter := Anchor, cursorAfter := Cursor)
        && history == old(history[..historyHead]) + [change]
        && historyHead == old(historyHead) + 1 == |history|
      ensures old(InSession()) && |Text| >= 1 && InText(Text, Anchor) && InText(Text, Cursor) ==> AtHead()
    {
      if IsEmpty(change.diff) {
        return;
      }
      change := change.(anchorAfter := Anchor, cursorAfter := Cursor);
      history := history[..historyHead] + [change];
      // EndChange does not require Chain(), so the ghost versions may be
      // shorter than the history; the guard keeps their update in range.
      if historyHead < |versions| {
        ghost var wasInSession := old(InSession()) && |Text| >= 1 && InText(Text, Anchor) && InText(Text, Cursor);
        if wasInSession {
          ChainRecord(old(history), versions, historyHead, change, Text);
        }
        versions := versions[..historyHead + 1] + [Text];
      }
      historyHead := historyHead + 1;
    }

    /** undo: revert the change before the head and restore the positions it started from. */
    method Undo()
      requires 0 <= historyHead <= |history|
      requires historyHead > 0 ==> FitsAfter(history[historyHead - 1].diff, Text)
      modifies this`Text, this`Anchor, this`Cursor, this`historyHead
      ensures old(historyHead) == 0 ==>
        Text == old(Text) && Anchor == old(Anchor) && Cursor == old(Cursor) && historyHead == 0
      ensures old(historyHead) > 0 ==>
        && historyHead == old(historyHead) - 1
        && Text == Revert(history[historyHead].diff, old(Text))
        && Anchor == history[historyHead].anchorBefore
        && Cursor == history[historyHead].cursorBefore
      ensures old(AtHead()) ==> AtHead() && (old(historyHead) > 0 ==> InText(Text, Anchor) && InText(Text, Cursor))
    {
      if historyHead == 0 {
        return;
      }
      historyHead := historyHead - 1;
      ghost var wasAtHead := old(AtHead());
      Text := Revert(history[historyHead].diff, Text);
      Anchor := history[historyHead].anchorBefore;
      Cursor := history[historyHead].cursorBefore;
      if wasAtHead {
        RevertApply(history[historyHead].diff, versions[historyHead]);
      }
    }

    /** redo: apply the change at the head and restore the positions it ended with. */
    method Redo()
      requires 0 <= historyHead
      requires historyHead < |history| ==> Fits(history[historyHead].diff, Text)
      modifies this`Text, this`Anchor, this`Cursor, this`historyHead
      ensures old(historyHead) >= |history| ==>
        Text == old(Text) && Anchor == old(Anchor) && Cursor == old(Cursor) && historyHead == old(historyHead)
      ensures old(historyHead) < |history| ==>
        && historyHead == old(historyHead) + 1
        && Text == Apply(history[historyHead - 1].diff, old(Text))
        && Anchor == history[historyHead - 1].anchorAfter
        && Cursor == history[historyHead - 1].cursorAfter
      ensures old(AtHead()) ==> AtHead() && (old(historyHead) < |history| ==> InText(Text, Anchor) && InText(Text, Cursor))
    {
      if historyHead >= |history| {
        return;
      }
      Text := Apply(history[historyHead].diff, Text);
      Anchor := history[historyHead].anchorAfter;
      Cursor := history[historyHead].cursorAfter;
      historyHead := historyHead + 1;
    }

    /** Once changes are recorded, undo and redo always index within the text. */
    lemma AtHeadUndoRedoDefined()
      requires AtHead()
      ensures historyHead > 0 ==> FitsAfter(history[historyHead - 1].diff, Text)
      ensures historyHead < |history| ==> Fits(history[historyHead].diff, Text)
    {
      if historyHead > 0 {
        ApplyCapturesAfter(history[historyHead - 1].diff, versions[historyHead - 1]);
      }
      if historyHead < |history| {
        assert Step(history[historyHead], versions[historyHead], versions[historyHead + 1]);
      }
    }

    /**
     * One change session (startChange, one applyDiff, endChange) followed by
     * undo: the text and both positions are back where the session started,
     * and the recorded change is the applied diff.
     */
    method ChangeThenUndo(d: Diff)
      requires 0 <= historyHead <= |history| && Captured(d, Text) && !IsEmpty(d)
      modifies this`change, this`changeBase, this`Text, this`history, this`historyHead, this`versions
      modifies this`Anchor, this`Cursor
      ensures Text == old(Text) && Anchor == old(Anchor) && Cursor == old(Cursor)
      ensures history == old(history[..historyHead]) + [change] && historyHead == old(historyHead)
      ensures change.diff == d && change.anchorAfter == old(Anchor) && change.cursorAfter == old(Cursor)
    {
      StartChange();
      ApplyDiff(d);
      EndChange();
      ApplyCapturesAfter(d, old(Text));
      Undo();
      RevertApply(d, old(Text));
    }

    /** The same session, undone and then redone: the change and its end positions come back. */
    method ChangeUndoRedo(d: Diff)
      requires 0 <= historyHead <= |history| && Captured(d, Text) && !IsEmpty(d)
      modifies this`change, this`changeBase, this`Text, this`history, this`historyHead, this`versions
      modifies this`Anchor, this`Cursor
      ensures Text == Apply(d, old(Text)) && Anchor == old(Anchor) && Cursor == old(Cursor)
      ensures historyHead == old(historyHead) + 1 == |history|
    {
      ChangeThenUndo(d);
      Redo();
    }

    // ---- state.go: HandleKey ------------------------------------------

    /** The end of the normalised selection is on a character of its line. */
    ghost predicate SelectionEndsOnText()
      reads this
      requires Coherent()
    {
      var c := Normalised(Anchor, Cursor).1;
      c.X < |Text[c.Y]|
    }

    /** The keys whose handling stays within the text (Go panics on the others). */
    ghost predicate KeyDefined(k: Key)
      reads this
      requires Coherent()
    {
      mode == NormalMode && k.Rune? ==>
        && (k.r == 'd' ==> Cursor.X < |Text[Cursor.Y]|)
        && (k.r == 'D' ==> (|Text[Cursor.Y]| == 0 ==> Cursor.X == -1))
        && (k.r == 'f' || k.r == 'x' ==> SelectionEndsOnText())
    }

    /** HandleKey: dispatch on the mode; only q in Space mode asks to quit. */
    method HandleKey(k: Key) returns (quit: bool)
      requires Coherent() && KeyDefined(k)
      modifies this
      ensures Coherent() && mode == NextMode(old(mode), k)
      ensures quit <==> old(mode) == SpaceMode && k == Rune('q')
      ensures old(mode) == NormalMode ==>
        NormalDone(k, old(Text), old(Anchor), old(Cursor), old(snapshots), old(snapshotHead))
      ensures old(mode) == InsertMode ==> InsertDone(k, old(Text), old(Cursor), old(snapshots), old(snapshotHead))
      ensures old(mode) == SpaceMode ==> Text == old(Text) && Anchor == old(Anchor) && Cursor == old(Cursor)
    {
      quit := false;
      match mode
      case NormalMode => HandleNormalKey(k);
      case InsertMode => HandleInsertKey(k);
      case SpaceMode =>
        if k == Rune('q') {
          return true;
        }
        LeaveSpace();
    }

    /** Space mode: any key but q goes back to Normal mode and changes nothing else. */
    method LeaveSpace()
      requires Coherent() && mode == SpaceMode
      modifies this`mode
      ensures Coherent() && mode == NormalMode
    {
      mode := NormalMode;
    }

    /** Normal mode: movement keys, Esc, and the runes that switch mode or edit. */
    method HandleNormalKey(k: Key)
      requires Coherent() && mode == NormalMode && KeyDefined(k)
      modifies this
      ensures Coherent() && mode == NextMode(NormalMode, k)
      ensures NormalDone(k, old(Text), old(Anchor), old(Cursor), old(snapshots), old(snapshotHead))
    {
      if NormalMovement(k).Some? {
        MovementKey(k);
        return;
      }
      match k
      case Rune(ch) => NormalRune(ch);
      case Esc => Collapse();
      case _ =>
    }

    /** The state a Normal-mode movement key (m, drag) leaves, from text, anchor and cursor. */
    ghost predicate MovedBy(md: (Movement, bool), text: seq<Line>, anchor: Position, cursor: Position)
      reads this
    {
      && Valid() && Text == text && MoveDefined(md.0, text, cursor)
      && Cursor == Target(md.0, text, TabWidth, runeWidth, cursor)
      && Anchor == (if md.1 then Cursor else anchor)
    }

    /**
     * What the Normal-mode key k leaves, from the text, anchor, cursor and
     * snapshots before it: a movement moves, Esc collapses the selection, any
     * other rune does what RuneDone says, and a key with no case changes
     * nothing but, for ' ', the mode.
     */
    ghost predicate NormalDone(k: Key, text: seq<Line>, anchor: Position, cursor: Position,
                               snaps: seq<HistoryEntry>, head: int)
      reads this
      requires InText(text, anchor) && InText(text, cursor)
    {
      && (NormalMovement(k).Some? ==> MovedBy(NormalMovement(k).value, text, anchor, cursor))
      && (k == Esc ==> Text == text && Cursor == cursor && Anchor == Cursor)
      && (k.Rune? && NormalMovement(k).None? ==> RuneDone(k.r, text, anchor, cursor, snaps, head))
      && (!NormalActs(k) ==> Unchanged(text, anchor, cursor, snaps, head))
    }

    /** Text, positions and snapshots are the given ones. */
    ghost predicate Unchanged(text: seq<Line>, anchor: Position, cursor: Position, snaps: seq<HistoryEntry>, head: int)
      reads this
    {
      Text == text && Anchor == anchor && Cursor == cursor && snapshots == snaps && snapshotHead == head
    }

    /**
     * What the Insert-mode key k leaves, from the text, cursor and snapshots
     * before it. Esc steps the cursor left, collapses the anchor onto it and
     * records a snapshot; any other key edits as Typed says, puts the cursor
     * where TypedAt says, and keeps the snapshots; Delete and the keys with
     * no case leave the cursor where it was.
     */
    ghost predicate InsertDone(k: Key, text: seq<Line>, cursor: Position, snaps: seq<HistoryEntry>, head: int)
      reads this
      requires 0 <= cursor.Y < |text| && 0 <= cursor.X <= |text[cursor.Y]|
    {
      if k == Esc then
        && Valid() && Text == text
        && Cursor == Target(Left, text, TabWidth, runeWidth, cursor) && Anchor == Cursor
        && Recorded(snaps, head)
      else
        && Text == Typed(k, text, cursor.Y, cursor.X)
        && (Cursor.Y, Cursor.X) == TypedAt(k, text, cursor.Y, cursor.X)
        && Anchor == Cursor && snapshots == snaps && snapshotHead == head
        && (k.Delete? || k.ArrowUp? || k.ArrowDown? || k.Other? ==> Cursor == cursor)
    }

    /**
     * What the Normal-mode actions x, X, z and Z leave: x and X delete and
     * record the result as the new last snapshot, z and Z move the snapshot
     * head back or forward within its bounds. A rune with no case (or ' ',
     * which only switches the mode) changes nothing.
     */
    ghost predicate RuneDone(ch: char, text: seq<Line>, anchor: Position, cursor: Position,
                             snaps: seq<HistoryEntry>, head: int)
      reads this
      requires InText(text, anchor) && InText(text, cursor)
    {
      var (a, c) := Normalised(anchor, cursor);
      && (ch == 'x' && c.X < |text[c.Y]| ==> Text == SelectionDeleted(text, a, c) && Recorded(snaps, head))
      && (ch == 'X' ==> Text == LinesDeleted(text, a.Y, c.Y) && Recorded(snaps, head))
      && (ch == 'z' ==> snapshots == snaps && snapshotHead == Max(head - 1, 1))
      && (ch == 'Z' ==> snapshots == snaps && snapshotHead == Min(head + 1, |snaps|))
      && (ch !in "aAdDfFxXzZ" ==> Unchanged(text, anchor, cursor, snaps, head))
    }

    /** The current state was recorded over snaps, dropping the snapshots after head. */
    ghost predicate Recorded(snaps: seq<HistoryEntry>, head: int)
      reads this
    {
      && 0 <= head <= |snaps|
      && snapshots == snaps[..head] + [HistoryEntry(Text, Anchor, Cursor)]
      && snapshotHead == head + 1
    }

    /** Esc in Normal mode: drop the selection onto the cursor. */
    method Collapse()
      requires Coherent() && mode == NormalMode
      modifies this`Anchor
      ensures Coherent() && Anchor == Cursor
    {
      Anchor := Cursor;
    }

    /** A Normal-mode rune that is not a movement: a mode switch or an action. */
    method NormalRune(ch: char)
      requires Coherent() && mode == NormalMode && KeyDefined(Rune(ch)) && NormalMovement(Rune(ch)).None?
      modifies this
      ensures Coherent() && mode == NextMode(NormalMode, Rune(ch))
      ensures RuneDone(ch, old(Text), old(Anchor), old(Cursor), old(snapshots), old(snapshotHead))
    {
      match ch {
        case ' ' => SetMode(SpaceMode);
        case 'a' => InsertBefore();
        case 'A' => InsertLineAbove();
        case 'd' => InsertAfter();
        case 'D' => InsertLineBelow();
        case 'f' => ChangeSelection();
        case 'F' => ChangeLines();
        case 'x' => DeleteSelection();
        case 'X' => DeleteSelectedLines();
        case 'z' => UndoKey();
        case 'Z' => RedoKey();
        case _ =>
      }
    }

    /**
     * A movement key in Normal mode: the cursor goes where the movement
     * says, the anchor with it for the unshifted and lower-case keys.
     */
    method MovementKey(k: Key)
      requires Coherent() && mode == NormalMode && NormalMovement(k).Some?
      modifies this`Cursor, this`Anchor
      ensures Coherent() && MovedBy(NormalMovement(k).value, old(Text), old(Anchor), old(Cursor))
    {
      var (m, drag) := NormalMovement(k).value;
      SettledMoveDefined(m, Text, Cursor);
      TargetKeeps(m, Text, TabWidth, runeWidth, Cursor);
      Cursor := Moved(m, Cursor);
      if drag {
        Anchor := Cursor;
      }
    }

    /** a: enter Insert mode at the cursor. */
    method InsertBefore()
      requires Coherent() && mode == NormalMode
      modifies this
      ensures Coherent() && mode == InsertMode
    {
      SetMode(InsertMode);
    }

    /** A: open an empty line at the cursor's line and enter Insert mode on it. */
    method InsertLineAbove()
      requires Coherent() && mode == NormalMode
      modifies this
      ensures Coherent() && mode == InsertMode
    {
      NewLineAbove();
      SetMode(InsertMode);
    }

    /** d: enter Insert mode one character after the cursor. */
    method InsertAfter()
      requires Coherent() && mode == NormalMode && Cursor.X < |Text[Cursor.Y]|
      modifies this
      ensures Coherent() && mode == InsertMode
    {
      Cursor := SetCursorX(Cursor, Cursor.X + 1);
      SetMode(InsertMode);
    }

    /** D: go to the end of the line, enter Insert mode after it and break the line. */
    method InsertLineBelow()
      requires Coherent() && mode == NormalMode && (|Text[Cursor.Y]| == 0 ==> Cursor.X == -1)
      modifies this
      ensures Coherent() && mode == InsertMode
    {
      Move(EndOfLine);
      Cursor := SetCursorX(Cursor, Cursor.X + 1);
      SetMode(InsertMode);
      Insert('\n');
    }

    /** f: delete the selection and enter Insert mode. */
    method ChangeSelection()
      requires Coherent() && mode == NormalMode && SelectionEndsOnText()
      modifies this
      ensures Coherent() && mode == InsertMode
    {
      Delete();
      SetMode(InsertMode);
    }

    /** F: replace the selected lines by one empty line and enter Insert mode on it. */
    method ChangeLines()
      requires Coherent() && mode == NormalMode
      modifies this
      ensures Coherent() && mode == InsertMode
    {
      DeleteLines();
      NewLineAbove();
      SetMode(InsertMode);
    }

    /** x: delete the selection and record a snapshot. */
    method DeleteSelection()
      requires Coherent() && mode == NormalMode && SelectionEndsOnText()
      modifies this
      ensures Coherent() && mode == NormalMode
      ensures var (a, c) := Normalised(old(Anchor), old(Cursor)); Text == SelectionDeleted(old(Text), a, c)
      ensures Recorded(old(snapshots), old(snapshotHead))
    {
      Delete();
      Snapshot();
    }

    /** X: delete the selected lines and record a snapshot. */
    method DeleteSelectedLines()
      requires Coherent() && mode == NormalMode
      modifies this
      ensures Coherent() && mode == NormalMode
      ensures var (a, c) := Normalised(old(Anchor), old(Cursor)); Text == LinesDeleted(old(Text), a.Y, c.Y)
      ensures Recorded(old(snapshots), old(snapshotHead))
    {
      DeleteLines();
      Snapshot();
    }

    /** z: go back one snapshot. */
    method UndoKey()
      requires Coherent() && mode == NormalMode
      modifies this
      ensures Coherent() && mode == NormalMode
      ensures snapshots == old(snapshots) && snapshotHead == Max(old(snapshotHead) - 1, 1)
    {
      SnapshotUndo();
    }

    /** Z: go forward one snapshot. */
    method RedoKey()
      requires Coherent() && mode == NormalMode
      modifies this
      ensures Coherent() && mode == NormalMode
      ensures snapshots == old(snapshots) && snapshotHead == Min(old(snapshotHead) + 1, |snapshots|)
    {
      SnapshotRedo();
    }

    /** Insert mode: runes, tab and enter are typed; the deletion keys edit; Esc leaves. */
    method HandleInsertKey(k: Key)
      requires Coherent() && mode == InsertMode
      modifies this
      ensures Coherent() && mode == NextMode(InsertMode, k)
      ensures InsertDone(k, old(Text), old(Cursor), old(snapshots), old(snapshotHead))
    {
      match k
      case Rune(ch) => TypeKey(ch);
      case Tab => TypeKey('\t');
      case Enter => TypeKey('\n');
      case Backspace => BackspaceKey(false);
      case BackspaceWord => BackspaceKey(true);
      case Delete => DeleteKey();
      case Esc => SetMode(NormalMode);
      case _ =>
    }

    /** Typing ch in Insert mode. */
    method TypeKey(ch: char)
      requires Coherent() && mode == InsertMode
      modifies this`Text, this`Cursor, this`Anchor
      ensures Coherent()
      ensures Text == Inserted(old(Text), old(Cursor.Y), old(Cursor.X), ch)
      ensures (Cursor.Y, Cursor.X) == InsertedAt(old(Cursor.Y), old(Cursor.X), ch)
    {
      Insert(ch);
    }

    /** Backspace, or Ctrl-W when word is set, in Insert mode. */
    method BackspaceKey(word: bool)
      requires Coherent() && mode == InsertMode
      modifies this`Text, this`Cursor, this`Anchor
      ensures Coherent()
      ensures Text == if word then WordErased(old(Text), old(Cursor.Y), old(Cursor.X))
                      else Backspaced(old(Text), old(Cursor.Y), old(Cursor.X))
      ensures (Cursor.Y, Cursor.X) == if word then WordErasedAt(old(Text), old(Cursor.Y), old(Cursor.X))
                                      else BackspacedAt(old(Text), old(Cursor.Y), old(Cursor.X))
      ensures Anchor == Cursor
    {
      if word {
        InsertBackspaceWord();
      } else {
        InsertBackspace();
      }
    }

    /** Delete in Insert mode. */
    method DeleteKey()
      requires Coherent() && mode == InsertMode
      modifies this`Text
      ensures Coherent()
      ensures Text == Deleted(old(Text), old(Cursor.Y), old(Cursor.X))
    {
      InsertDelete();
    }
  }
}
