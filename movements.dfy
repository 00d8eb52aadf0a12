/**
 * The pure part of state/movements.go: visual widths and columns, the
 * offset a cached column maps back to, and the two word regexps of the
 * word movements written out as scans over ASCII character classes.
 */
module Movements {
  import opened Options
  import opened Diffs

  /** rw.RuneWidth: the display width of a character, 0, 1 or 2 cells. */
  type RuneWidth = w: char -> nat | forall c :: w(c) <= 2 witness (c: char) => 1

  /**
   * A cursor: X is the character offset in line Y, or -1 for the virtual
   * offset of an empty line; col is the cached visual column.
   */
  datatype Position = Position(X: int, Y: int, col: int)

  /** visualWidth: a tab reaches the next multiple of tabWidth, any other character its own width. */
  function VisualWidth(col: nat, tabWidth: int, c: char, w: RuneWidth): (r: nat)
    requires tabWidth > 0
    ensures c == '\t' ==> 1 <= r <= tabWidth && (col + r) % tabWidth == 0
    ensures c != '\t' ==> r == w(c) && r <= 2
  {
    if c == '\t' then TabStop(col, tabWidth); tabWidth - col % tabWidth else w(c)
  }

  /** The width of a tab at col brings the column to the next tab stop. */
  lemma TabStop(col: nat, tabWidth: int)
    requires tabWidth > 0
    ensures 1 <= tabWidth - col % tabWidth <= tabWidth
    ensures (col + (tabWidth - col % tabWidth)) % tabWidth == 0
  {
    var q, m := col / tabWidth, col % tabWidth;
    var x := col + (tabWidth - m);
    assert x == (q + 1) * tabWidth;
    var d, m2 := x / tabWidth, x % tabWidth;
    assert (q + 1 - d) * tabWidth == m2;
    MultipleBelow(q + 1 - d, tabWidth, m2);
  }

  /** The only multiple of n in [0, n) is 0. */
  lemma MultipleBelow(k: int, n: int, m: int)
    requires n > 0 && 0 <= m < n && k * n == m
    ensures m == 0
  {
  }

  /** The visual column reached after the first n characters of `line`: the sum setCursorX accumulates. */
  function Column(line: Line, n: nat, tabWidth: int, w: RuneWidth): nat
    requires n <= |line| && tabWidth > 0
  {
    if n == 0 then 0
    else
      var c := Column(line, n - 1, tabWidth, w);
      c + VisualWidth(c, tabWidth, line[n - 1], w)
  }

  /** The visual column just after character j. */
  function ColumnAfter(line: Line, j: nat, tabWidth: int, w: RuneWidth): nat
    requires j < |line| && tabWidth > 0
  {
    Column(line, j + 1, tabWidth, w)
  }

  /** Columns never decrease along a line. */
  lemma {:induction false} ColumnMonotone(line: Line, i: nat, j: nat, tabWidth: int, w: RuneWidth)
    requires i <= j <= |line| && tabWidth > 0
    ensures Column(line, i, tabWidth, w) <= Column(line, j, tabWidth, w)
  {
    if i < j {
      ColumnMonotone(line, i, j - 1, tabWidth, w);
    }
  }

  /** A line of tab-free, single-width characters has its column equal to its offset. */
  lemma {:induction false} ColumnOfNarrowText(line: Line, n: nat, tabWidth: int, w: RuneWidth)
    requires n <= |line| && tabWidth > 0
    requires forall k :: 0 <= k < n ==> line[k] != '\t' && w(line[k]) == 1
    ensures Column(line, n, tabWidth, w) == n
  {
    if n > 0 {
      ColumnOfNarrowText(line, n - 1, tabWidth, w);
    }
  }

  /** The scan of setCursorY from character k on: stop at the first character whose end passes col, or at the last. */
  function FirstExceeding(line: Line, col: int, tabWidth: int, w: RuneWidth, k: nat): (r: nat)
    requires k < |line| && tabWidth > 0
    ensures k <= r < |line|
    decreases |line| - k
  {
    if ColumnAfter(line, k, tabWidth, w) > col || k == |line| - 1 then k
    else FirstExceeding(line, col, tabWidth, w, k + 1)
  }

  /** The offset setCursorY derives from a cached column: -1 on an empty line. */
  function OffsetForColumn(line: Line, col: int, tabWidth: int, w: RuneWidth): (r: int)
    requires tabWidth > 0
    ensures -1 <= r < |line|
    ensures r == -1 <==> |line| == 0
  {
    if |line| == 0 then -1 else FirstExceeding(line, col, tabWidth, w, 0)
  }

  /** What the scan from k finds: every character before it ends at or before col, and it is the last or passes col. */
  lemma {:induction false} FirstExceedingIsFirst(line: Line, col: int, tabWidth: int, w: RuneWidth, k: nat)
    requires k < |line| && tabWidth > 0
    ensures forall j :: k <= j < FirstExceeding(line, col, tabWidth, w, k) ==>
      ColumnAfter(line, j, tabWidth, w) <= col
    ensures var r := FirstExceeding(line, col, tabWidth, w, k);
      r == |line| - 1 || ColumnAfter(line, r, tabWidth, w) > col
    decreases |line| - k
  {
    if !(ColumnAfter(line, k, tabWidth, w) > col || k == |line| - 1) {
      FirstExceedingIsFirst(line, col, tabWidth, w, k + 1);
    }
  }

  /** The offset of a column on a line that is not empty, as a property rather than a scan. */
  predicate IsOffsetForColumn(line: Line, col: int, tabWidth: int, w: RuneWidth, x: int)
    requires tabWidth > 0
  {
    && 0 <= x < |line|
    && (forall j :: 0 <= j < x ==> ColumnAfter(line, j, tabWidth, w) <= col)
    && (x == |line| - 1 || ColumnAfter(line, x, tabWidth, w) > col)
  }

  /**
   * setCursorY's result on a line that is not empty is exactly the first
   * character whose end passes the column, or the last character.
   */
  lemma OffsetForColumnIff(line: Line, col: int, tabWidth: int, w: RuneWidth, x: int)
    requires |line| > 0 && tabWidth > 0
    ensures OffsetForColumn(line, col, tabWidth, w) == x <==> IsOffsetForColumn(line, col, tabWidth, w, x)
  {
    var r := OffsetForColumn(line, col, tabWidth, w);
    FirstExceedingIsFirst(line, col, tabWidth, w, 0);
    assert IsOffsetForColumn(line, col, tabWidth, w, r);
  }

  /**
   * Mapping a character's own column back gives the character again, so a
   * vertical move onto a line and back keeps the offset, provided the
   * character has a visible width.
   */
  lemma OffsetOfOwnColumn(line: Line, x: nat, tabWidth: int, w: RuneWidth)
    requires x < |line| && tabWidth > 0
    requires ColumnAfter(line, x, tabWidth, w) > Column(line, x, tabWidth, w)
    ensures OffsetForColumn(line, Column(line, x, tabWidth, w), tabWidth, w) == x
  {
    var col := Column(line, x, tabWidth, w);
    forall j | 0 <= j < x ensures ColumnAfter(line, j, tabWidth, w) <= col {
      ColumnMonotone(line, j + 1, x, tabWidth, w);
    }
    OffsetForColumnIff(line, col, tabWidth, w, x);
  }

  /**
   * The character found for a column overlaps it: it starts at or before the
   * column and ends after it, whenever the line reaches that far.
   */
  lemma OffsetOverlapsColumn(line: Line, col: nat, tabWidth: int, w: RuneWidth)
    requires |line| > 0 && tabWidth > 0
    requires col < ColumnAfter(line, |line| - 1, tabWidth, w)
    ensures var x := OffsetForColumn(line, col, tabWidth, w);
      0 <= x && Column(line, x, tabWidth, w) <= col < ColumnAfter(line, x, tabWidth, w)
  {
    var x := OffsetForColumn(line, col, tabWidth, w);
    OffsetForColumnIff(line, col, tabWidth, w, x);
    if x > 0 {
      assert ColumnAfter(line, x - 1, tabWidth, w) <= col;
    }
  }

  // Character classes of Go's RE2 syntax, ASCII only.

  /** [[:word:]] = [0-9A-Za-z_] */
  predicate IsWordChar(c: char) {
    ('0' <= c <= '9') || ('A' <= c <= 'Z') || ('a' <= c <= 'z') || c == '_'
  }

  /** [[:punct:]] = [!-/:-@[-`{-~]; note that '_' is in both classes. */
  predicate IsPunct(c: char) {
    ('!' <= c <= '/') || (':' <= c <= '@') || ('[' <= c <= '`') || ('{' <= c <= '~')
  }

  /** [[:blank:]] = [\t ] */
  predicate IsBlank(c: char) {
    c == ' ' || c == '\t'
  }

  /** The two alternatives of the word regexps. */
  datatype Class = Word | Punct

  predicate InClass(c: char, cl: Class) {
    match cl
    case Word => IsWordChar(c)
    case Punct => IsPunct(c)
  }

  /** s[i..p] is all in class cl. */
  predicate AllIn(s: string, i: nat, p: nat, cl: Class)
    requires i <= p <= |s|
  {
    forall k :: i <= k < p ==> InClass(s[k], cl)
  }

  /** s[i..p] is one nonempty run of ([[:word:]]+|[[:punct:]]+). */
  predicate Run(s: string, i: nat, p: nat) {
    i < p <= |s| && (AllIn(s, i, p, Word) || AllIn(s, i, p, Punct))
  }

  /** s[p..] is [[:blank:]]*$. */
  predicate BlankFrom(s: string, p: nat) {
    p <= |s| && forall k :: p <= k < |s| ==> IsBlank(s[k])
  }

  /** s[..b] is ^[[:blank:]]*. */
  predicate BlankUpTo(s: string, b: nat) {
    b <= |s| && forall k :: 0 <= k < b ==> IsBlank(s[k])
  }

  /** reStartOfWord, `([[:word:]]+|[[:punct:]]+)[[:blank:]]*$`, matches s from offset i. */
  ghost predicate StartOfWordAt(s: string, i: nat) {
    exists p: nat :: Run(s, i, p) && BlankFrom(s, p)
  }

  /** reEndOfWord, `^[[:blank:]]*([[:word:]]+|[[:punct:]]+)`, matches s[..q] taking alternative cl. */
  ghost predicate EndOfWordWith(s: string, q: nat, cl: Class) {
    exists b: nat :: BlankUpTo(s, b) && b < q <= |s| && AllIn(s, b, q, cl)
  }

  /** The start of the trailing blanks of s. */
  function TrailingBlanks(s: string): (e: nat)
    ensures BlankFrom(s, e)
    ensures e > 0 ==> !IsBlank(s[e - 1])
  {
    if |s| == 0 || !IsBlank(s[|s| - 1]) then |s| else TrailingBlanks(s[..|s| - 1])
  }

  /** The end of the leading blanks of s. */
  function LeadingBlanks(s: string): (b: nat)
    ensures BlankUpTo(s, b)
    ensures b < |s| ==> !IsBlank(s[b])
  {
    if |s| == 0 || !IsBlank(s[0]) then 0 else 1 + LeadingBlanks(s[1..])
  }

  /** The start of the longest run of class cl that ends at e. */
  function RunStart(s: string, e: nat, cl: Class): (i: nat)
    requires e <= |s|
    ensures i <= e && AllIn(s, i, e, cl)
    ensures i > 0 ==> !InClass(s[i - 1], cl)
  {
    if e == 0 || !InClass(s[e - 1], cl) then e else RunStart(s, e - 1, cl)
  }

  /** The end of the longest run of class cl that starts at b. */
  function RunEnd(s: string, b: nat, cl: Class): (q: nat)
    requires b <= |s|
    ensures b <= q <= |s| && AllIn(s, b, q, cl)
    ensures q < |s| ==> !InClass(s[q], cl)
    decreases |s| - b
  {
    if b == |s| || !InClass(s[b], cl) then b else RunEnd(s, b + 1, cl)
  }

  /** reStartOfWord.FindStringIndex(s)[0]: None where Go returns nil. */
  function StartOfWordMatch(s: string): (r: Option<nat>)
    ensures r.Some? ==> r.value < |s|
  {
    var e := TrailingBlanks(s);
    var i := Min(RunStart(s, e, Word), RunStart(s, e, Punct));
    if i < e then Some(i) else None
  }

  /**
   * reEndOfWord.FindStringIndex(s)[1]: the match is anchored at 0, and with
   * Go's leftmost-first semantics the word alternative is tried first, each
   * repetition being greedy.
   */
  function EndOfWordMatch(s: string): (r: Option<nat>)
    ensures r.Some? ==> 0 < r.value <= |s|
  {
    var b := LeadingBlanks(s);
    if b < |s| && IsWordChar(s[b]) then Some(RunEnd(s, b, Word))
    else if b < |s| && IsPunct(s[b]) then Some(RunEnd(s, b, Punct))
    else None
  }

  /** A match of reStartOfWord always runs up to the trailing blanks. */
  lemma StartOfWordEnds(s: string, i: nat, p: nat)
    requires Run(s, i, p) && BlankFrom(s, p)
    ensures p == TrailingBlanks(s)
  {
    var e := TrailingBlanks(s);
    assert !IsBlank(s[p - 1]);
  }

  /** A run of class cl ending at e starts no earlier than RunStart. */
  lemma RunStartIsLeftmost(s: string, j: nat, e: nat, cl: Class)
    requires j <= e <= |s| && AllIn(s, j, e, cl)
    ensures RunStart(s, e, cl) <= j
  {
    var i := RunStart(s, e, cl);
  }

  /**
   * The scan finds the leftmost offset at which reStartOfWord matches, which
   * is what FindStringIndex reports as match[0], and None exactly when there
   * is no match.
   */
  lemma StartOfWordIsLeftmost(s: string)
    ensures StartOfWordMatch(s).Some? ==>
      var i := StartOfWordMatch(s).value;
      i < |s| && StartOfWordAt(s, i) && forall j :: 0 <= j < i ==> !StartOfWordAt(s, j)
    ensures StartOfWordMatch(s).None? ==> forall j: nat :: !StartOfWordAt(s, j)
  {
    var e := TrailingBlanks(s);
    var iw, ip := RunStart(s, e, Word), RunStart(s, e, Punct);
    forall j: nat, p: nat | Run(s, j, p) && BlankFrom(s, p)
      ensures Min(iw, ip) <= j < e
    {
      StartOfWordEnds(s, j, p);
      if AllIn(s, j, p, Word) {
        RunStartIsLeftmost(s, j, e, Word);
      } else {
        RunStartIsLeftmost(s, j, e, Punct);
      }
    }
    var i := Min(iw, ip);
    if i < e {
      if i == iw {
        assert Run(s, i, e) && BlankFrom(s, e);
      } else {
        assert Run(s, i, e) && BlankFrom(s, e);
      }
    }
  }

  /** A run of class cl starting at b ends no later than RunEnd. */
  lemma RunEndIsLongest(s: string, b: nat, q: nat, cl: Class)
    requires b <= q <= |s| && AllIn(s, b, q, cl)
    ensures q <= RunEnd(s, b, cl)
  {
    var r := RunEnd(s, b, cl);
  }

  /** Every match of reEndOfWord starts right after the leading blanks. */
  lemma EndOfWordStarts(s: string, b: nat, q: nat, cl: Class)
    requires BlankUpTo(s, b) && b < q <= |s| && AllIn(s, b, q, cl)
    ensures b == LeadingBlanks(s)
  {
    var lb := LeadingBlanks(s);
    assert InClass(s[b], cl);
  }

  /**
   * The scan reports the end Go's leftmost-first matching picks: the longest
   * match of the word alternative if there is one, else the longest match of
   * the punctuation alternative, else None.
   */
  lemma EndOfWordIsLeftmostFirst(s: string)
    ensures EndOfWordMatch(s).Some? ==>
      var q := EndOfWordMatch(s).value;
      0 < q <= |s| &&
      ((EndOfWordWith(s, q, Word) && forall q': nat :: EndOfWordWith(s, q', Word) ==> q' <= q) ||
       ((forall q': nat :: !EndOfWordWith(s, q', Word)) &&
        EndOfWordWith(s, q, Punct) && forall q': nat :: EndOfWordWith(s, q', Punct) ==> q' <= q))
    ensures EndOfWordMatch(s).None? ==>
      forall q: nat :: !EndOfWordWith(s, q, Word) && !EndOfWordWith(s, q, Punct)
  {
    var b := LeadingBlanks(s);
    forall q: nat, cl: Class | EndOfWordWith(s, q, cl)
      ensures b < |s| && InClass(s[b], cl) && q <= RunEnd(s, b, cl)
    {
      var b': nat :| BlankUpTo(s, b') && b' < q <= |s| && AllIn(s, b', q, cl);
      EndOfWordStarts(s, b', q, cl);
      RunEndIsLongest(s, b, q, cl);
    }
    if b < |s| && IsWordChar(s[b]) {
      assert BlankUpTo(s, b) && b < RunEnd(s, b, Word);
      assert EndOfWordWith(s, RunEnd(s, b, Word), Word);
    } else if b < |s| && IsPunct(s[b]) {
      assert BlankUpTo(s, b) && b < RunEnd(s, b, Punct);
      assert EndOfWordWith(s, RunEnd(s, b, Punct), Punct);
    }
  }

  /** moveStartOfLine's target: the first character that is neither a space nor a tab, or |line| if there is none. */
  function Indentation(line: Line): (r: nat)
    ensures r <= |line|
    ensures forall k :: 0 <= k < r ==> line[k] == ' ' || line[k] == '\t'
    ensures r < |line| ==> line[r] != ' ' && line[r] != '\t'
  {
    if |line| == 0 || (line[0] != ' ' && line[0] != '\t') then 0 else 1 + Indentation(line[1..])
  }

  /** A cursor refers to a line of `text`, and X lies in [-1, |line|] with -1 only on an empty line. */
  predicate InText(text: seq<Line>, p: Position) {
    0 <= p.Y < |text| && -1 <= p.X <= |text[p.Y]| && (p.X == -1 ==> |text[p.Y]| == 0)
  }

  /** Where Normal mode keeps a cursor: on a character, or at the start of an empty line. */
  predicate Settled(text: seq<Line>, p: Position) {
    InText(text, p) && (p.X < |text[p.Y]| || |text[p.Y]| == 0)
  }

  /** setCursorX's result: offset x on the same line, with the column recomputed. */
  function WithX(text: seq<Line>, tabWidth: int, w: RuneWidth, c: Position, x: int): Position
    requires tabWidth > 0 && 0 <= c.Y < |text| && 0 <= x <= |text[c.Y]|
  {
    Position(x, c.Y, Column(text[c.Y], x, tabWidth, w))
  }

  /** setCursorY's result: line y, the cached column kept, the offset derived from it. */
  function WithY(text: seq<Line>, tabWidth: int, w: RuneWidth, c: Position, y: int): Position
    requires tabWidth > 0 && 0 <= y < |text|
  {
    Position(OffsetForColumn(text[y], c.col, tabWidth, w), y, c.col)
  }

  /** The movement functions of movements.go that `move` is called with. */
  datatype Movement =
    | Left | Right | Up(n: nat) | Down(n: nat)
    | StartOfLine | EndOfLine | StartOfWord | EndOfWord

  /** The cursors for which a movement indexes within the text (Go panics otherwise). */
  predicate MoveDefined(m: Movement, text: seq<Line>, c: Position) {
    match m
    case Left => c.X > 0 ==> 0 <= c.Y < |text| && c.X <= |text[c.Y]|
    case Right =>
      0 <= c.Y < |text| && (|text[c.Y]| > 0 && c.X != |text[c.Y]| - 1 ==> 0 <= c.X <= |text[c.Y]|)
    case Up(n) => c.Y != 0 ==> Max(c.Y - n, 0) < |text|
    case Down(n) => c.Y != |text| - 1 ==> 0 <= Min(c.Y + n, |text| - 1)
    case StartOfLine => 0 <= c.Y < |text|
    case EndOfLine => 0 <= c.Y < |text|
    case StartOfWord => 0 <= c.Y < |text| && (|text[c.Y]| > 0 ==> 0 <= c.X <= |text[c.Y]|)
    case EndOfWord => 0 <= c.Y < |text| && (|text[c.Y]| > 0 ==> -1 <= c.X < |text[c.Y]|)
  }

  /** Where each movement of movements.go puts cursor c. */
  function Target(m: Movement, text: seq<Line>, tabWidth: int, w: RuneWidth, c: Position): Position
    requires tabWidth > 0 && MoveDefined(m, text, c)
  {
    match m
    case Left =>
      if c.X <= 0 then c else WithX(text, tabWidth, w, c, c.X - 1)
    case Right =>
      var line := text[c.Y];
      if |line| == 0 || c.X == |line| - 1 then c
      else WithX(text, tabWidth, w, c, if c.X < |line| then c.X + 1 else c.X)
    case Up(n) =>
      if c.Y == 0 then c else WithY(text, tabWidth, w, c, Max(c.Y - n, 0))
    case Down(n) =>
      if c.Y == |text| - 1 then c else WithY(text, tabWidth, w, c, Min(c.Y + n, |text| - 1))
    case StartOfLine =>
      var i := Indentation(text[c.Y]);
      if i < |text[c.Y]| then WithX(text, tabWidth, w, c, i) else c
    case EndOfLine =>
      if |text[c.Y]| == 0 then c else WithX(text, tabWidth, w, c, |text[c.Y]| - 1)
    case StartOfWord =>
      if |text[c.Y]| == 0 then c
      else
        (match StartOfWordMatch(text[c.Y][..c.X])
         case None => c
         case Some(i) => WithX(text, tabWidth, w, c, i))
    case EndOfWord =>
      if |text[c.Y]| == 0 then c
      else
        (match EndOfWordMatch(text[c.Y][c.X + 1..])
         case None => c
         case Some(q) => WithX(text, tabWidth, w, c, c.X + q))
  }

  /** Every movement is defined from a Settled cursor. */
  lemma SettledMoveDefined(m: Movement, text: seq<Line>, c: Position)
    requires Settled(text, c)
    ensures MoveDefined(m, text, c)
  {
  }

  /**
   * What every movement keeps: a cursor stays in the text, a Settled one stays
   * Settled (so X never passes the last character); vertical moves keep the
   * cached column and clamp the line, the others keep the line; leftward moves
   * never increase X and rightward moves never decrease it.
   */
  lemma TargetKeeps(m: Movement, text: seq<Line>, tabWidth: int, w: RuneWidth, c: Position)
    requires tabWidth > 0 && MoveDefined(m, text, c)
    ensures var r := Target(m, text, tabWidth, w, c);
      && (InText(text, c) ==> InText(text, r))
      && (Settled(text, c) ==> Settled(text, r))
      && (m.Left? && InText(text, c) ==> Settled(text, r))
      && (m.Up? || m.Down? ==> r.col == c.col)
      && (InText(text, c) && m.Up? ==> r.Y <= c.Y)
      && (InText(text, c) && m.Down? ==> r.Y >= c.Y)
      && (!m.Up? && !m.Down? ==> r.Y == c.Y)
      && (m.Left? || m.StartOfWord? ==> r.X <= c.X)
      && (m.Right? || m.EndOfWord? ==> r.X >= c.X)
  {
    match m
    case Left =>
    case Right =>
    case Up(n) =>
    case Down(n) =>
    case StartOfLine =>
    case EndOfLine =>
    case StartOfWord =>
      var line := text[c.Y];
      if |line| > 0 && StartOfWordMatch(line[..c.X]).Some? {
        assert StartOfWordMatch(line[..c.X]).value < c.X;
      }
    case EndOfWord =>
      var line := text[c.Y];
      if |line| > 0 && EndOfWordMatch(line[c.X + 1..]).Some? {
        assert EndOfWordMatch(line[c.X + 1..]).value <= |line| - c.X - 1;
      }
  }
}
