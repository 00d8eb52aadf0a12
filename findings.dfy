/**
 * deleteLines as state/actions.go:32-40 writes it.  It keeps the lines
 * outside the selection and then clamps the anchor's line to the last one
 * left; when the selection covers every line nothing is left, the clamp
 * gives -1, and setCursorY indexes the text at -1.  The rest of the model
 * uses the corrected Edits.LinesDeleted, which leaves one empty line.
 */
module Findings {
  import opened Diffs
  import opened Edits

  /** deleteLines as written: the lines it leaves, and the line it then hands setCursorY. */
  function DeleteLinesAsWritten(text: seq<Line>, ay: int, cy: int): (r: (seq<Line>, int))
    requires 0 <= ay <= cy < |text|
    ensures |r.0| == |text| - (cy - ay + 1)
    ensures r.1 <= ay && (r.1 < ay ==> r.1 == |r.0| - 1)
  {
    var rest := text[..ay] + text[cy + 1..];
    (rest, if ay >= |rest| then |rest| - 1 else ay)
  }

  /** The line handed to setCursorY lies outside the text exactly when the selection covers every line. */
  lemma AsWrittenLineOutside(text: seq<Line>, ay: int, cy: int)
    requires 0 <= ay <= cy < |text|
    ensures var (rest, y) := DeleteLinesAsWritten(text, ay, cy);
      !(0 <= y < |rest|) <==> ay == 0 && cy == |text| - 1
  {
  }

  /** On the one-line text ["a"], X leaves no line and hands setCursorY the line -1. */
  lemma AsWrittenCounterexample()
    ensures DeleteLinesAsWritten(["a"], 0, 0) == ([], -1)
  {
    assert ["a"][..0] + ["a"][1..] == [];
  }

  /**
   * The corrected deleteLines always leaves a line for the anchor, and
   * wherever the code as written does not fail the two agree.
   */
  lemma CorrectedAgrees(text: seq<Line>, ay: int, cy: int)
    requires 0 <= ay <= cy < |text|
    ensures 0 <= Min(ay, |LinesDeleted(text, ay, cy)| - 1) < |LinesDeleted(text, ay, cy)|
    ensures var (rest, y) := DeleteLinesAsWritten(text, ay, cy);
      0 <= y < |rest| ==> LinesDeleted(text, ay, cy) == rest && Min(ay, |rest| - 1) == y
  {
  }
}
