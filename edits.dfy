/**
 * The buffer edits of state/insert.go and state/actions.go as functions on
 * the text, and what each does to the text read as one string: the lines
 * one after another, each followed by a line break.  In that reading every
 * Insert-mode edit is the insertion or removal of one character at the
 * cursor's offset, and delete removes the selection's range of characters.
 */
module Edits {
  import opened Options
  import opened Diffs
  import opened Movements

  /** The text as one string in which every line is followed by a line break. */
  function Flat(text: seq<Line>): string {
    if |text| == 0 then [] else text[0] + ['\n'] + Flat(text[1..])
  }

  /** Where line y starts in Flat(text). */
  function LineStart(text: seq<Line>, y: int): nat
    requires 0 <= y <= |text|
  {
    |Flat(text[..y])|
  }

  /** The offset in Flat(text) of character x of line y: at most that of the line's own break. */
  function Offset(text: seq<Line>, y: int, x: int): (r: nat)
    requires 0 <= y < |text| && 0 <= x <= |text[y]|
    ensures r + (|text[y]| - x) < |Flat(text)|
  {
    FlatAround(text, y);
    LineStart(text, y) + x
  }

  // ---- the edits ------------------------------------------------------

  /** insert: a line break splits line y at x; any other character goes in at x. */
  function Inserted(text: seq<Line>, y: int, x: int, ch: char): (r: seq<Line>)
    requires 0 <= y < |text| && 0 <= x <= |text[y]|
    ensures |r| == |text| + (if ch == '\n' then 1 else 0)
  {
    if ch == '\n' then text[..y] + [text[y][..x], text[y][x..]] + text[y + 1..]
    else text[y := text[y][..x] + [ch] + text[y][x..]]
  }

  /** Where insert leaves the cursor: after the inserted character. */
  function InsertedAt(y: int, x: int, ch: char): (int, int) {
    if ch == '\n' then (y + 1, 0) else (y, x + 1)
  }

  /** insertBackspace: at the start of a line join it onto the previous one, else remove character x - 1. */
  function Backspaced(text: seq<Line>, y: int, x: int): (r: seq<Line>)
    requires 0 <= y < |text| && 0 <= x <= |text[y]|
    ensures |r| == |text| - (if x == 0 && y > 0 then 1 else 0)
  {
    if x == 0 && y == 0 then text
    else if x == 0 then text[..y - 1] + [text[y - 1] + text[y]] + text[y + 1..]
    else text[y := text[y][..x - 1] + text[y][x..]]
  }

  /** Where insertBackspace leaves the cursor: on the removed character's place. */
  function BackspacedAt(text: seq<Line>, y: int, x: int): (int, int)
    requires 0 <= y < |text|
  {
    if x == 0 && y == 0 then (0, 0)
    else if x == 0 then (y - 1, |text[y - 1]|)
    else (y, x - 1)
  }

  /** Where insertBackspaceWord erases back to on line y: the match of reStartOfWord before x, else 0. */
  function WordStart(text: seq<Line>, y: int, x: int): (m: nat)
    requires 0 <= y < |text| && 0 < x <= |text[y]|
    ensures m < x
  {
    var found := StartOfWordMatch(text[y][..x]);
    if found.Some? then found.value else 0
  }

  /** Where insertBackspaceWord leaves the cursor, as (Y, X): as insertBackspace at a line start, else WordStart. */
  function WordErasedAt(text: seq<Line>, y: int, x: int): (int, int)
    requires 0 <= y < |text| && 0 <= x <= |text[y]|
  {
    if x == 0 then BackspacedAt(text, y, x) else (y, WordStart(text, y, x))
  }

  /** insertBackspaceWord: at the start of a line as insertBackspace, else remove back to WordStart. */
  function WordErased(text: seq<Line>, y: int, x: int): (r: seq<Line>)
    requires 0 <= y < |text| && 0 <= x <= |text[y]|
    ensures |r| == |text| - (if x == 0 && y > 0 then 1 else 0)
  {
    if x == 0 then Backspaced(text, y, x)
    else text[y := text[y][..WordStart(text, y, x)] + text[y][x..]]
  }

  /** insertDelete: past a line's end join the next line (none after the last), else remove character x. */
  function Deleted(text: seq<Line>, y: int, x: int): (r: seq<Line>)
    requires 0 <= y < |text| && (x < |text[y]| ==> 0 <= x)
    ensures |r| == |text| - (if x >= |text[y]| && y < |text| - 1 then 1 else 0)
  {
    if x >= |text[y]| && y == |text| - 1 then text
    else if x >= |text[y]| then text[..y] + [text[y] + text[y + 1]] + text[y + 2..]
    else text[y := text[y][..x] + text[y][x + 1..]]
  }

  /** The one line delete leaves in place of lines a.Y..c.Y: before a (none for X = -1) and after c. */
  function DeleteJoin(text: seq<Line>, a: Position, c: Position): Line
    requires 0 <= a.Y <= c.Y < |text| && -1 <= c.X < |text[c.Y]|
    requires a.X != -1 ==> 0 <= a.X <= |text[a.Y]|
  {
    if a.X == -1 then text[c.Y][c.X + 1..] else text[a.Y][..a.X] + text[c.Y][c.X + 1..]
  }

  /** delete on an ordered selection a..c: lines a.Y..c.Y become their joined remainder. */
  function SelectionDeleted(text: seq<Line>, a: Position, c: Position): (r: seq<Line>)
    requires 0 <= a.Y <= c.Y < |text| && -1 <= c.X < |text[c.Y]|
    requires a.X != -1 ==> 0 <= a.X <= |text[a.Y]|
    ensures |r| == |text| - (c.Y - a.Y)
  {
    text[..a.Y] + [DeleteJoin(text, a, c)] + text[c.Y + 1..]
  }

  /** deleteLines on lines ay..cy, leaving one empty line when none remain. */
  function LinesDeleted(text: seq<Line>, ay: int, cy: int): (r: seq<Line>)
    requires 0 <= ay <= cy < |text|
    ensures |r| == Max(|text| - (cy - ay + 1), 1)
  {
    var rest := text[..ay] + text[cy + 1..];
    if rest == [] then [[]] else rest
  }

  // ---- the one-string reading -----------------------------------------

  lemma {:induction false} FlatConcat(a: seq<Line>, b: seq<Line>)
    ensures Flat(a + b) == Flat(a) + Flat(b)
    decreases |a|
  {
    if |a| == 0 {
      assert a + b == b;
    } else {
      assert (a + b)[0] == a[0];
      assert (a + b)[1..] == a[1..] + b;
      FlatConcat(a[1..], b);
    }
  }

  lemma FlatOne(l: Line)
    ensures Flat([l]) == l + ['\n']
  {
    assert [l][1..] == [];
  }

  lemma FlatTwo(l: Line, m: Line)
    ensures Flat([l, m]) == l + ['\n'] + m + ['\n']
  {
    assert [l, m][1..] == [m];
    FlatOne(m);
  }

  /** The text read around lines A + ls + B. */
  lemma FlatThree(a: seq<Line>, ls: seq<Line>, b: seq<Line>)
    ensures Flat(a + ls + b) == Flat(a) + Flat(ls) + Flat(b)
  {
    FlatConcat(a + ls, b);
    FlatConcat(a, ls);
  }

  lemma Around(text: seq<Line>, y: int)
    requires 0 <= y < |text|
    ensures text == text[..y] + [text[y]] + text[y + 1..]
    ensures text[y := text[y]] == text
  {
  }

  lemma UpdateSplit(text: seq<Line>, y: int, l: Line)
    requires 0 <= y < |text|
    ensures text[y := l] == text[..y] + [l] + text[y + 1..]
    ensures text[y := l][..y] == text[..y]
  {
  }

  /** Splitting P + l + S at |P| + x cuts line l at x. */
  lemma CutAt(p: string, l: string, s: string, x: int)
    requires 0 <= x <= |l|
    ensures (p + l + s)[..|p| + x] == p + l[..x]
    ensures (p + l + s)[|p| + x..] == l[x..] + s
  {
    assert (p + l + s)[..|p| + x] == p + l[..x] by {
      forall i | 0 <= i < |p| + x ensures (p + l + s)[i] == (p + l[..x])[i] {
        if i >= |p| {
          assert (p + l + s)[i] == l[i - |p|];
        }
      }
    }
    assert (p + l + s)[|p| + x..] == l[x..] + s by {
      forall i | 0 <= i < |l| - x + |s| ensures (p + l + s)[|p| + x + i] == (l[x..] + s)[i] {
      }
    }
  }

  /** Line y's characters and break make up Flat(text) from LineStart(text, y). */
  lemma FlatAround(text: seq<Line>, y: int)
    requires 0 <= y < |text|
    ensures Flat(text) == Flat(text[..y]) + text[y] + ['\n'] + Flat(text[y + 1..])
    ensures LineStart(text, y + 1) == LineStart(text, y) + |text[y]| + 1
  {
    Around(text, y);
    FlatThree(text[..y], [text[y]], text[y + 1..]);
    FlatOne(text[y]);
    assert text[..y + 1] == text[..y] + [text[y]];
    FlatConcat(text[..y], [text[y]]);
  }

  /** Replacing line l's characters i..j by ins, inside f = p + l + s. */
  lemma StringSplice(f: string, g: string, p: string, l: string, l': string, s: string, i: int, j: int, ins: string)
    requires 0 <= i <= j <= |l| && l' == l[..i] + ins + l[j..]
    requires f == p + l + s && g == p + l' + s
    ensures g == f[..|p| + i] + ins + f[|p| + j..]
  {
    CutAt(p, l, s, i);
    CutAt(p, l, s, j);
  }

  /** Removing line l's characters i..j, inside f = p + l + s. */
  lemma StringCut(f: string, g: string, p: string, l: string, l': string, s: string, i: int, j: int)
    requires 0 <= i <= j <= |l| && l' == l[..i] + l[j..]
    requires f == p + l + s && g == p + l' + s
    ensures g == f[..|p| + i] + f[|p| + j..]
  {
    CutAt(p, l, s, i);
    CutAt(p, l, s, j);
  }

  /** The one-string text around line y, and after line y is replaced by l. */
  lemma FlatLine(text: seq<Line>, y: int, l: Line)
    requires 0 <= y < |text|
    ensures Flat(text) == Flat(text[..y]) + text[y] + (['\n'] + Flat(text[y + 1..]))
    ensures Flat(text[y := l]) == Flat(text[..y]) + l + (['\n'] + Flat(text[y + 1..]))
    ensures LineStart(text[y := l], y) == LineStart(text, y)
  {
    FlatAround(text, y);
    UpdateSplit(text, y, l);
    FlatThree(text[..y], [l], text[y + 1..]);
    FlatOne(l);
  }

  /** Replacing characters i..j of line y by ins replaces them in the one-string text. */
  lemma LineSpliced(text: seq<Line>, y: int, l': Line, i: int, j: int, ins: string)
    requires 0 <= y < |text| && 0 <= i <= j <= |text[y]| && l' == text[y][..i] + ins + text[y][j..]
    ensures Flat(text[y := l']) == Flat(text)[..Offset(text, y, i)] + ins + Flat(text)[Offset(text, y, j)..]
    ensures LineStart(text[y := l'], y) == LineStart(text, y)
  {
    FlatLine(text, y, l');
    StringSplice(Flat(text), Flat(text[y := l']), Flat(text[..y]), text[y], l', ['\n'] + Flat(text[y + 1..]), i, j, ins);
  }

  /** Removing characters i..j of line y removes them from the one-string text. */
  lemma LineCut(text: seq<Line>, y: int, l': Line, i: int, j: int)
    requires 0 <= y < |text| && 0 <= i <= j <= |text[y]| && l' == text[y][..i] + text[y][j..]
    ensures Flat(text[y := l']) == Flat(text)[..Offset(text, y, i)] + Flat(text)[Offset(text, y, j)..]
    ensures LineStart(text[y := l'], y) == LineStart(text, y)
  {
    FlatLine(text, y, l');
    StringCut(Flat(text), Flat(text[y := l']), Flat(text[..y]), text[y], l', ['\n'] + Flat(text[y + 1..]), i, j);
  }

  /** The one-string text of a + [l, m] + b, read as a + [l + "\n" + m] + b. */
  lemma FlatPair(a: seq<Line>, l: Line, m: Line, b: seq<Line>)
    ensures Flat(a + [l, m] + b) == Flat(a) + (l + ['\n'] + m) + (['\n'] + Flat(b))
    ensures Flat(a + [l + m] + b) == Flat(a) + (l + m) + (['\n'] + Flat(b))
  {
    FlatThree(a, [l, m], b);
    FlatTwo(l, m);
    FlatMiddle(a, l + ['\n'] + m, b);
    FlatThree(a, [l + m], b);
    FlatOne(l + m);
    FlatMiddle(a, l + m, b);
  }

  lemma FlatMiddle(a: seq<Line>, l: Line, b: seq<Line>)
    ensures Flat(a) + (l + ['\n']) + Flat(b) == Flat(a) + l + (['\n'] + Flat(b))
  {
  }

  /** insert puts ch into the one-string text at the cursor's offset and the cursor after it. */
  lemma InsertedFlat(text: seq<Line>, y: int, x: int, ch: char)
    requires 0 <= y < |text| && 0 <= x <= |text[y]|
    ensures var off := Offset(text, y, x);
      && Flat(Inserted(text, y, x, ch)) == Flat(text)[..off] + [ch] + Flat(text)[off..]
      && var (y', x') := InsertedAt(y, x, ch);
        0 <= y' < |Inserted(text, y, x, ch)| && 0 <= x' <= |Inserted(text, y, x, ch)[y']|
        && Offset(Inserted(text, y, x, ch), y', x') == off + 1
  {
    if ch == '\n' {
      BreakFlat(text, y, x);
    } else {
      LineSpliced(text, y, text[y][..x] + [ch] + text[y][x..], x, x, [ch]);
    }
  }

  /** Splitting line y at x puts a line break at the offset, with the cursor after it. */
  lemma BreakFlat(text: seq<Line>, y: int, x: int)
    requires 0 <= y < |text| && 0 <= x <= |text[y]|
    ensures var r := Inserted(text, y, x, '\n');
      && Flat(r) == Flat(text)[..Offset(text, y, x)] + ['\n'] + Flat(text)[Offset(text, y, x)..]
      && y + 1 < |r| && Offset(r, y + 1, 0) == Offset(text, y, x) + 1
  {
    var l := text[y];
    var a, b := text[..y], text[y + 1..];
    var r := Inserted(text, y, x, '\n');
    FlatLine(text, y, l);
    FlatPair(a, l[..x], l[x..], b);
    StringSplice(Flat(text), Flat(r), Flat(a), l, l[..x] + ['\n'] + l[x..], ['\n'] + Flat(b), x, x, ['\n']);
    assert r[..y + 1] == a + [l[..x]];
    FlatConcat(a, [l[..x]]);
    FlatOne(l[..x]);
  }

  /** insertBackspace removes the character before the cursor's offset and puts the cursor there. */
  lemma BackspacedFlat(text: seq<Line>, y: int, x: int)
    requires 0 <= y < |text| && 0 <= x <= |text[y]| && !(x == 0 && y == 0)
    ensures var off := Offset(text, y, x);
      && 0 < off
      && Flat(Backspaced(text, y, x)) == Flat(text)[..off - 1] + Flat(text)[off..]
      && var (y', x') := BackspacedAt(text, y, x);
        0 <= y' < |Backspaced(text, y, x)| && 0 <= x' <= |Backspaced(text, y, x)[y']|
        && Offset(Backspaced(text, y, x), y', x') == off - 1
  {
    if x == 0 {
      JoinFlat(text, y - 1);
    } else {
      LineCut(text, y, text[y][..x - 1] + text[y][x..], x - 1, x);
    }
  }

  /** Joining line y with line y + 1 removes the line break at the end of line y. */
  lemma JoinFlat(text: seq<Line>, y: int)
    requires 0 <= y < |text| - 1
    ensures var r := text[..y] + [text[y] + text[y + 1]] + text[y + 2..];
      var off := Offset(text, y, |text[y]|);
      && Flat(r) == Flat(text)[..off] + Flat(text)[off + 1..]
      && Offset(text, y + 1, 0) == off + 1
      && |text[y]| <= |r[y]| && Offset(r, y, |text[y]|) == off
  {
    var a, l, m, b := text[..y], text[y], text[y + 1], text[y + 2..];
    var r := a + [l + m] + b;
    var p, s := Flat(a), ['\n'] + Flat(b);
    assert text == a + [l, m] + b;
    FlatPair(a, l, m, b);
    JoinString(p, l, m, s);
    FlatAround(text, y);
    assert r[..y] == a;
    assert Offset(text, y, |l|) == |p| + |l|;
  }

  /** p + (l + "\n" + m) + s without the break at |p| + |l|. */
  lemma JoinString(p: string, l: string, m: string, s: string)
    ensures p + (l + m) + s == (p + (l + ['\n'] + m) + s)[..|p| + |l|] + (p + (l + ['\n'] + m) + s)[|p| + |l| + 1..]
  {
    var j := l + ['\n'] + m;
    assert l + m == j[..|l|] + j[|l| + 1..];
    StringCut(p + j + s, p + (l + m) + s, p, j, l + m, s, |l|, |l| + 1);
  }

  /**
   * insertBackspaceWord removes the characters from WordStart up to the
   * cursor's offset; at the start of a line it is insertBackspace.
   */
  lemma WordErasedFlat(text: seq<Line>, y: int, x: int)
    requires 0 <= y < |text| && 0 < x <= |text[y]|
    ensures var off := Offset(text, y, x);
      var m := WordStart(text, y, x);
      && Flat(WordErased(text, y, x)) == Flat(text)[..off - (x - m)] + Flat(text)[off..]
      && m <= |WordErased(text, y, x)[y]|
      && Offset(WordErased(text, y, x), y, m) == off - (x - m)
  {
    var m := WordStart(text, y, x);
    LineCut(text, y, text[y][..m] + text[y][x..], m, x);
  }

  /** insertDelete removes the character at the cursor's offset, unless that is the text's final line break. */
  lemma DeletedFlat(text: seq<Line>, y: int, x: int)
    requires 0 <= y < |text| && 0 <= x <= |text[y]|
    ensures var off := Offset(text, y, x);
      && (off < |Flat(text)| - 1 ==> Flat(Deleted(text, y, x)) == Flat(text)[..off] + Flat(text)[off + 1..])
      && (off == |Flat(text)| - 1 ==> Deleted(text, y, x) == text)
      && x <= |Deleted(text, y, x)[y]| && Offset(Deleted(text, y, x), y, x) == off
  {
    var l := text[y];
    if x == |l| && y == |text| - 1 {
      DeletedAtEnd(text);
    } else if x == |l| {
      DeletedJoin(text, y);
    } else {
      DeletedChar(text, y, x);
    }
  }

  lemma DeletedJoin(text: seq<Line>, y: int)
    requires 0 <= y < |text| - 1
    ensures var off := Offset(text, y, |text[y]|);
      && off < |Flat(text)| - 1
      && Flat(Deleted(text, y, |text[y]|)) == Flat(text)[..off] + Flat(text)[off + 1..]
      && |text[y]| <= |Deleted(text, y, |text[y]|)[y]| && Offset(Deleted(text, y, |text[y]|), y, |text[y]|) == off
  {
    JoinFlat(text, y);
    assert Offset(text, y + 1, 0) < |Flat(text)|;
  }

  lemma DeletedChar(text: seq<Line>, y: int, x: int)
    requires 0 <= y < |text| && 0 <= x < |text[y]|
    ensures var off := Offset(text, y, x);
      && off < |Flat(text)| - 1
      && Flat(Deleted(text, y, x)) == Flat(text)[..off] + Flat(text)[off + 1..]
      && x <= |Deleted(text, y, x)[y]| && Offset(Deleted(text, y, x), y, x) == off
  {
    LineCut(text, y, text[y][..x] + text[y][x + 1..], x, x + 1);
  }

  /** The end of the last line is the offset of the text's final line break. */
  lemma DeletedAtEnd(text: seq<Line>)
    requires |text| > 0
    ensures Offset(text, |text| - 1, |text[|text| - 1]|) == |Flat(text)| - 1
  {
    var y := |text| - 1;
    FlatAround(text, y);
    assert text[y + 1..] == [];
  }

  /** Line i ends, break included, no later than line j starts. */
  lemma LineStartMonotone(text: seq<Line>, i: int, j: int)
    requires 0 <= i < j <= |text|
    ensures LineStart(text, i) + |text[i]| + 1 <= LineStart(text, j)
  {
    FlatAround(text, i);
    assert text[..j] == text[..i + 1] + text[i + 1..j];
    FlatConcat(text[..i + 1], text[i + 1..j]);
  }

  /** Lines a.Y..c.Y replaced by one line, in the one-string reading. */
  lemma FlatReplaced(text: seq<Line>, ay: int, cy: int, l: Line)
    requires 0 <= ay <= cy < |text|
    ensures Flat(text[..ay] + [l] + text[cy + 1..]) == Flat(text[..ay]) + l + (['\n'] + Flat(text[cy + 1..]))
  {
    FlatThree(text[..ay], [l], text[cy + 1..]);
    FlatOne(l);
    FlatMiddle(text[..ay], l, text[cy + 1..]);
  }

  /**
   * delete on the ordered selection a..c removes the characters of the
   * one-string text from a (its line's start for X = -1) through c.
   */
  lemma SelectionDeletedFlat(text: seq<Line>, a: Position, c: Position)
    requires 0 <= a.Y <= c.Y < |text| && -1 <= c.X < |text[c.Y]|
    requires a.X != -1 ==> 0 <= a.X <= |text[a.Y]|
    requires a.Y < c.Y || a.X <= c.X
    ensures var from, to := Offset(text, a.Y, Max(a.X, 0)), Offset(text, c.Y, c.X + 1);
      && from <= to
      && Flat(SelectionDeleted(text, a, c)) == Flat(text)[..from] + Flat(text)[to..]
  {
    SelectionOrdered(text, a, c);
    SelectionDeletedShape(text, a, c);
    CutBefore(text, a.Y, Max(a.X, 0));
    CutAfter(text, c.Y, c.X + 1);
    Reassociate(Flat(text[..a.Y]), text[a.Y][..Max(a.X, 0)], text[c.Y][c.X + 1..], ['\n'] + Flat(text[c.Y + 1..]));
  }

  lemma Reassociate(p: string, x: string, y: string, s: string)
    ensures p + (x + y) + s == (p + x) + (y + s)
  {
  }

  /** The one-string text before character x of line y. */
  lemma CutBefore(text: seq<Line>, y: int, x: int)
    requires 0 <= y < |text| && 0 <= x <= |text[y]|
    ensures Flat(text)[..Offset(text, y, x)] == Flat(text[..y]) + text[y][..x]
  {
    FlatLine(text, y, text[y]);
    CutAt(Flat(text[..y]), text[y], ['\n'] + Flat(text[y + 1..]), x);
  }

  /** The one-string text from character x of line y on. */
  lemma CutAfter(text: seq<Line>, y: int, x: int)
    requires 0 <= y < |text| && 0 <= x <= |text[y]|
    ensures Flat(text)[Offset(text, y, x)..] == text[y][x..] + (['\n'] + Flat(text[y + 1..]))
  {
    FlatLine(text, y, text[y]);
    CutAt(Flat(text[..y]), text[y], ['\n'] + Flat(text[y + 1..]), x);
  }

  /** What delete leaves, in the one-string reading: the text before a, the joined line, the text after c. */
  lemma SelectionDeletedShape(text: seq<Line>, a: Position, c: Position)
    requires 0 <= a.Y <= c.Y < |text| && -1 <= c.X < |text[c.Y]|
    requires a.X != -1 ==> 0 <= a.X <= |text[a.Y]|
    ensures Flat(SelectionDeleted(text, a, c)) ==
      Flat(text[..a.Y]) + (text[a.Y][..Max(a.X, 0)] + text[c.Y][c.X + 1..]) + (['\n'] + Flat(text[c.Y + 1..]))
  {
    assert DeleteJoin(text, a, c) == text[a.Y][..Max(a.X, 0)] + text[c.Y][c.X + 1..];
    FlatReplaced(text, a.Y, c.Y, DeleteJoin(text, a, c));
  }

  /** The ordered selection's start offset is at most its end's. */
  lemma SelectionOrdered(text: seq<Line>, a: Position, c: Position)
    requires 0 <= a.Y <= c.Y < |text| && -1 <= c.X < |text[c.Y]|
    requires a.X != -1 ==> 0 <= a.X <= |text[a.Y]|
    requires a.Y < c.Y || a.X <= c.X
    ensures Offset(text, a.Y, Max(a.X, 0)) <= Offset(text, c.Y, c.X + 1)
  {
    if a.Y < c.Y {
      LineStartMonotone(text, a.Y, c.Y);
    }
  }

  /** Where lines ay..cy lie in the one-string text. */
  lemma LinesSpan(text: seq<Line>, ay: int, cy: int)
    requires 0 <= ay <= cy < |text|
    ensures Flat(text) == Flat(text[..ay]) + Flat(text[ay..cy + 1]) + Flat(text[cy + 1..])
    ensures LineStart(text, cy + 1) == LineStart(text, ay) + |Flat(text[ay..cy + 1])|
    ensures LineStart(text, cy + 1) <= |Flat(text)|
  {
    assert text == text[..ay] + text[ay..cy + 1] + text[cy + 1..];
    FlatThree(text[..ay], text[ay..cy + 1], text[cy + 1..]);
    assert text[..cy + 1] == text[..ay] + text[ay..cy + 1];
    FlatConcat(text[..ay], text[ay..cy + 1]);
  }

  /** Removing the middle m of p + m + s. */
  lemma StringRemoveMiddle(f: string, p: string, m: string, s: string)
    requires f == p + m + s
    ensures p + s == f[..|p|] + f[|p| + |m|..]
  {
    CutAt(p, m, s, 0);
    CutAt(p + m, s, [], 0);
  }

  /**
   * deleteLines on lines ay..cy removes them, breaks included, from the
   * one-string text; with no line left the text is one empty line.
   */
  lemma LinesDeletedFlat(text: seq<Line>, ay: int, cy: int)
    requires 0 <= ay <= cy < |text|
    ensures LineStart(text, ay) <= LineStart(text, cy + 1) <= |Flat(text)|
    ensures Flat(LinesDeleted(text, ay, cy)) ==
      if ay == 0 && cy == |text| - 1 then ['\n']
      else Flat(text)[..LineStart(text, ay)] + Flat(text)[LineStart(text, cy + 1)..]
  {
    LinesSpan(text, ay, cy);
    if ay == 0 && cy == |text| - 1 {
      assert text[..ay] + text[cy + 1..] == [];
      FlatOne([]);
    } else {
      assert |text[..ay] + text[cy + 1..]| > 0;
      FlatConcat(text[..ay], text[cy + 1..]);
      StringRemoveMiddle(Flat(text), Flat(text[..ay]), Flat(text[ay..cy + 1]), Flat(text[cy + 1..]));
    }
  }

  /** Backspace after insert gives back the text and the cursor. */
  lemma BackspaceUndoesInsert(text: seq<Line>, y: int, x: int, ch: char)
    requires 0 <= y < |text| && 0 <= x <= |text[y]|
    ensures var (y', x') := InsertedAt(y, x, ch);
      var r := Inserted(text, y, x, ch);
      && 0 <= y' < |r| && 0 <= x' <= |r[y']|
      && Backspaced(r, y', x') == text
      && BackspacedAt(r, y', x') == (y, x)
  {
    var l := text[y];
    var r := Inserted(text, y, x, ch);
    if ch == '\n' {
      assert r[y] == l[..x] && r[y + 1] == l[x..];
      assert r[..y] == text[..y] && r[y + 2..] == text[y + 1..];
      assert l[..x] + l[x..] == l;
      Around(text, y);
    } else {
      assert r[y] == l[..x] + [ch] + l[x..];
      assert r[y][..x] + r[y][x + 1..] == l;
      Around(text, y);
    }
  }

  /** Delete at the cursor after insert, before the cursor moves on, gives back the text. */
  lemma DeleteUndoesInsert(text: seq<Line>, y: int, x: int, ch: char)
    requires 0 <= y < |text| && 0 <= x <= |text[y]|
    ensures Deleted(Inserted(text, y, x, ch), y, x) == text
  {
    var l := text[y];
    var r := Inserted(text, y, x, ch);
    if ch == '\n' {
      assert r[y] == l[..x] && r[y + 1] == l[x..];
      assert r[..y] == text[..y] && r[y + 2..] == text[y + 1..];
      assert l[..x] + l[x..] == l;
      Around(text, y);
    } else {
      assert r[y] == l[..x] + [ch] + l[x..];
      assert r[y][..x] + r[y][x + 1..] == l;
      Around(text, y);
    }
  }
}
