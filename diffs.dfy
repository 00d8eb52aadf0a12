/**
 * The diff engine of state/history.go: a diff replaces the lines
 * [start, start + |before|) of a text by the lines `after`.  `Apply` and
 * `Revert` are inverse splices, and `Composition` folds two successive diffs
 * into one diff against the original text.
 */
module Diffs {
  /** One line of the buffer, one index per character. */
  type Line = string

  datatype Diff = Diff(start: int, before: seq<Line>, after: seq<Line>)

  /** diff.isEmpty: nothing is removed and nothing is inserted. */
  predicate IsEmpty(d: Diff) {
    |d.before| == 0 && |d.after| == 0
  }

  /** The empty diff, Go's zero value diff{}. */
  const NoDiff := Diff(0, [], [])

  function Min(x: int, y: int): (r: int)
    ensures r <= x && r <= y
    ensures r == x || r == y
  {
    if x < y then x else y
  }

  function Max(x: int, y: int): (r: int)
    ensures r >= x && r >= y
    ensures r == x || r == y
  {
    if x > y then x else y
  }

  /** text with the n lines from `start` on replaced by `lines`. */
  function Splice(text: seq<Line>, start: nat, n: nat, lines: seq<Line>): (r: seq<Line>)
    requires start + n <= |text|
    ensures |r| == |text| - n + |lines|
  {
    text[..start] + lines + text[start + n..]
  }

  /** `Apply(d, text)` indexes within `text`: the window d.before replaces lies inside it. */
  predicate Fits(d: Diff, text: seq<Line>) {
    IsEmpty(d) || (0 <= d.start && d.start + |d.before| <= |text|)
  }

  /** `Revert(d, text)` indexes within `text`. */
  predicate FitsAfter(d: Diff, text: seq<Line>) {
    IsEmpty(d) || (0 <= d.start && d.start + |d.after| <= |text|)
  }

  /** d was captured against `text`: its window of `text` holds exactly d.before. */
  predicate Captured(d: Diff, text: seq<Line>) {
    IsEmpty(d) ||
    (0 <= d.start && d.start + |d.before| <= |text| &&
     text[d.start..d.start + |d.before|] == d.before)
  }

  /** `text` is what d produced: its window holds exactly d.after. */
  predicate CapturedAfter(d: Diff, text: seq<Line>) {
    IsEmpty(d) ||
    (0 <= d.start && d.start + |d.after| <= |text| &&
     text[d.start..d.start + |d.after|] == d.after)
  }

  /** apply: keep text[..start], put `after` in place of the |before| lines, keep the rest. */
  function Apply(d: Diff, text: seq<Line>): (r: seq<Line>)
    requires Fits(d, text)
    ensures IsEmpty(d) ==> r == text
    ensures |r| == |text| - |d.before| + |d.after|
  {
    if IsEmpty(d) then text else Splice(text, d.start, |d.before|, d.after)
  }

  /** revert: the inverse splice, putting `before` back in place of the |after| lines. */
  function Revert(d: Diff, text: seq<Line>): (r: seq<Line>)
    requires FitsAfter(d, text)
    ensures IsEmpty(d) ==> r == text
    ensures |r| == |text| - |d.after| + |d.before|
  {
    if IsEmpty(d) then text else Splice(text, d.start, |d.after|, d.before)
  }

  /** The three parts of an applied text: the kept prefix, `after`, the kept suffix. */
  lemma ApplyWindows(d: Diff, text: seq<Line>)
    requires Fits(d, text) && !IsEmpty(d)
    ensures Apply(d, text)[..d.start] == text[..d.start]
    ensures Apply(d, text)[d.start..d.start + |d.after|] == d.after
    ensures Apply(d, text)[d.start + |d.after|..] == text[d.start + |d.before|..]
  {
  }

  /** The three parts of a reverted text: the kept prefix, `before`, the kept suffix. */
  lemma RevertWindows(d: Diff, text: seq<Line>)
    requires FitsAfter(d, text) && !IsEmpty(d)
    ensures Revert(d, text)[..d.start] == text[..d.start]
    ensures Revert(d, text)[d.start..d.start + |d.before|] == d.before
    ensures Revert(d, text)[d.start + |d.before|..] == text[d.start + |d.after|..]
  {
  }

  /** What Apply leaves behind is what Revert expects. */
  lemma ApplyCapturesAfter(d: Diff, text: seq<Line>)
    requires Fits(d, text)
    ensures CapturedAfter(d, Apply(d, text))
  {
  }

  /** Reverting a diff undoes applying it to the text it was captured against. */
  lemma {:induction false} RevertApply(d: Diff, text: seq<Line>)
    requires Captured(d, text)
    ensures FitsAfter(d, Apply(d, text))
    ensures Revert(d, Apply(d, text)) == text
  {
    if !IsEmpty(d) {
      var t := Apply(d, text);
      var r := Revert(d, t);
      assert |r| == |text|;
      forall k | 0 <= k < |text| ensures r[k] == text[k] {
        if d.start <= k < d.start + |d.before| {
          assert text[d.start..d.start + |d.before|][k - d.start] == text[k];
        }
      }
    }
  }

  /** Applying a diff redoes what reverting it undid. */
  lemma {:induction false} ApplyRevert(d: Diff, text: seq<Line>)
    requires CapturedAfter(d, text)
    ensures Fits(d, Revert(d, text))
    ensures Apply(d, Revert(d, text)) == text
  {
    if !IsEmpty(d) {
      var t := Revert(d, text);
      var r := Apply(d, t);
      assert |r| == |text|;
      forall k | 0 <= k < |text| ensures r[k] == text[k] {
        if d.start <= k < d.start + |d.after| {
          assert text[d.start..d.start + |d.after|][k - d.start] == text[k];
        }
      }
    }
  }

  /**
   * compose indexes within its inputs: when `a` is not empty, b's window in the
   * text after `a` overlaps or touches the window a.after occupies.
   */
  predicate Touches(b: Diff, a: Diff) {
    b.start <= a.start + |a.after| && a.start <= b.start + |b.before|
  }

  predicate ComposeDefined(b: Diff, a: Diff) {
    IsEmpty(a) || Touches(b, a)
  }

  /**
   * The lines [start, end) of the text between `a` and `b`, as compose rebuilds
   * them: from a.after inside a's window, from b.before elsewhere.
   */
  function Intermediate(b: Diff, a: Diff): (r: seq<Line>)
    requires Touches(b, a)
    ensures |r| == Max(a.start + |a.after|, b.start + |b.before|) - Min(a.start, b.start)
  {
    var start := Min(a.start, b.start);
    var end := Max(a.start + |a.after|, b.start + |b.before|);
    seq(end - start, k requires 0 <= k < end - start =>
      if a.start <= start + k < a.start + |a.after| then a.after[start + k - a.start]
      else b.before[start + k - b.start])
  }

  /** compose(b, a): the one diff that does `a` and then `b`, against the text before `a`. */
  function Composition(b: Diff, a: Diff): (r: Diff)
    requires ComposeDefined(b, a)
    ensures IsEmpty(a) ==> r == b
    ensures !IsEmpty(a) ==> r.start == Min(a.start, b.start)
  {
    if IsEmpty(a) then b
    else
      var start := Min(a.start, b.start);
      var mid := Intermediate(b, a);
      Diff(start,
           Revert(Diff(a.start - start, a.before, a.after), mid),
           Apply(Diff(b.start - start, b.before, b.after), mid))
  }

  /** compose as written: the intermediate lines are filled into two fresh arrays by a loop. */
  method Compose(b: Diff, a: Diff) returns (r: Diff)
    requires ComposeDefined(b, a)
    ensures r == Composition(b, a)
  {
    if IsEmpty(a) {
      return b;
    }
    var start := Min(a.start, b.start);
    var end := Max(a.start + |a.after|, b.start + |b.before|);
    ghost var mid := Intermediate(b, a);
    var intermediateA := new Line[end - start];
    var intermediateB := new Line[end - start];
    for i := start to end
      invariant forall k :: 0 <= k < i - start ==> intermediateA[k] == mid[k]
      invariant forall k :: 0 <= k < i - start ==> intermediateB[k] == mid[k]
    {
      if a.start <= i < a.start + |a.after| {
        intermediateA[i - start] := a.after[i - a.start];
        intermediateB[i - start] := a.after[i - a.start];
      } else {
        intermediateA[i - start] := b.before[i - b.start];
        intermediateB[i - start] := b.before[i - b.start];
      }
    }
    assert intermediateA[..] == mid;
    assert intermediateB[..] == mid;
    r := Diff(start,
              Revert(Diff(a.start - start, a.before, a.after), intermediateA[..]),
              Apply(Diff(b.start - start, b.before, b.after), intermediateB[..]));
  }

  /** The rebuilt intermediate lines are exactly the text between `a` and `b` over [start, end). */
  lemma {:induction false} IntermediateIsSlice(b: Diff, a: Diff, text: seq<Line>)
    requires !IsEmpty(a) && Touches(b, a)
    requires Fits(a, text) && Captured(b, Apply(a, text))
    ensures Min(a.start, b.start) >= 0
    ensures Max(a.start + |a.after|, b.start + |b.before|) <= |Apply(a, text)|
    ensures Intermediate(b, a) ==
      Apply(a, text)[Min(a.start, b.start)..Max(a.start + |a.after|, b.start + |b.before|)]
  {
    var t := Apply(a, text);
    var start := Min(a.start, b.start);
    var end := Max(a.start + |a.after|, b.start + |b.before|);
    var mid := Intermediate(b, a);
    forall k | 0 <= k < end - start ensures mid[k] == t[start + k] {
      if a.start <= start + k < a.start + |a.after| {
        assert t[a.start..a.start + |a.after|][start + k - a.start] == t[start + k];
      } else {
        assert t[b.start..b.start + |b.before|][start + k - b.start] == t[start + k];
      }
    }
  }

  /** Whenever the window lies inside the text, Apply is the plain splice, empty or not. */
  lemma ApplyIsSplice(d: Diff, text: seq<Line>)
    requires 0 <= d.start && d.start + |d.before| <= |text|
    ensures Apply(d, text) == Splice(text, d.start, |d.before|, d.after)
  {
    if IsEmpty(d) {
      assert text[..d.start] + [] + text[d.start..] == text;
    }
  }

  /** A window of a window is a window of the whole. */
  lemma SliceOfSlice(t: seq<Line>, i: nat, j: nat, k: nat, l: nat)
    requires i <= j <= |t| && k <= l <= j - i
    ensures t[i..j][k..l] == t[i + k..i + l]
  {
    assert |t[i..j][k..l]| == l - k == |t[i + k..i + l]|;
    forall x | 0 <= x < l - k ensures t[i..j][k..l][x] == t[i + k..i + l][x] {
      assert t[i..j][k..l][x] == t[i..j][k + x] == t[i + k + x];
    }
  }

  /**
   * Outside b's window the rebuilt lines come from a.after, so they agree with
   * the text between `a` and `b` whatever b.before holds.
   */
  lemma {:induction false} IntermediateOutside(b: Diff, a: Diff, text: seq<Line>)
    requires !IsEmpty(a) && Touches(b, a)
    requires Fits(a, text) && Fits(b, Apply(a, text))
    ensures 0 <= Min(a.start, b.start) <= b.start
    ensures b.start + |b.before| <= Max(a.start + |a.after|, b.start + |b.before|) <= |Apply(a, text)|
    ensures Intermediate(b, a)[..b.start - Min(a.start, b.start)] == Apply(a, text)[Min(a.start, b.start)..b.start]
    ensures Intermediate(b, a)[b.start - Min(a.start, b.start) + |b.before|..] ==
      Apply(a, text)[b.start + |b.before|..Max(a.start + |a.after|, b.start + |b.before|)]
  {
    var t := Apply(a, text);
    var start := Min(a.start, b.start);
    var end := Max(a.start + |a.after|, b.start + |b.before|);
    var mid := Intermediate(b, a);
    assert |t| == |text| - |a.before| + |a.after|;
    forall k | 0 <= k < b.start - start ensures mid[k] == t[start + k] {
      AppliedLine(a, text, start + k);
    }
    forall k | b.start - start + |b.before| <= k < end - start ensures mid[k] == t[start + k] {
      AppliedLine(a, text, start + k);
    }
  }

  /** Line i of an applied text inside the window is the matching line of `after`. */
  lemma AppliedLine(d: Diff, text: seq<Line>, i: int)
    requires Fits(d, text) && d.start <= i < d.start + |d.after|
    ensures Apply(d, text)[i] == d.after[i - d.start]
  {
  }

  /** The lines the composition inserts: `b` applied across the intermediate lines. */
  lemma CompositionAfter(b: Diff, a: Diff, text: seq<Line>)
    requires !IsEmpty(a) && Touches(b, a)
    requires Fits(a, text) && Fits(b, Apply(a, text))
    ensures 0 <= Min(a.start, b.start) <= b.start
    ensures b.start + |b.before| <= Max(a.start + |a.after|, b.start + |b.before|) <= |Apply(a, text)|
    ensures Composition(b, a).after ==
      Apply(a, text)[Min(a.start, b.start)..b.start] + b.after +
      Apply(a, text)[b.start + |b.before|..Max(a.start + |a.after|, b.start + |b.before|)]
  {
    IntermediateOutside(b, a, text);
    var start := Min(a.start, b.start);
    ApplyIsSplice(Diff(b.start - start, b.before, b.after), Intermediate(b, a));
  }

  /** The lines the composition removes: `a` reverted across the intermediate lines. */
  lemma CompositionBefore(b: Diff, a: Diff, text: seq<Line>)
    requires !IsEmpty(a) && Touches(b, a)
    requires Fits(a, text) && Captured(b, Apply(a, text))
    ensures 0 <= Min(a.start, b.start) <= a.start
    ensures a.start + |a.after| <= Max(a.start + |a.after|, b.start + |b.before|) <= |Apply(a, text)|
    ensures Composition(b, a).before ==
      Apply(a, text)[Min(a.start, b.start)..a.start] + a.before +
      Apply(a, text)[a.start + |a.after|..Max(a.start + |a.after|, b.start + |b.before|)]
  {
    IntermediateIsSlice(b, a, text);
    var t := Apply(a, text);
    var start := Min(a.start, b.start);
    var end := Max(a.start + |a.after|, b.start + |b.before|);
    var mid := Intermediate(b, a);
    SliceOfSlice(t, start, end, 0, a.start - start);
    SliceOfSlice(t, start, end, a.start - start + |a.after|, end - start);
  }

  /** Regrouping a text cut at s <= p <= q <= e, with X put in place of [p, q). */
  lemma Regroup(t: seq<Line>, s: nat, p: nat, q: nat, e: nat, x: seq<Line>)
    requires s <= p <= q <= e <= |t|
    ensures t[..s] + (t[s..p] + x + t[q..e]) + t[e..] == t[..p] + x + t[q..]
  {
    assert t[..s] + t[s..p] == t[..p];
    assert t[q..e] + t[e..] == t[q..];
  }

  /** Equal suffixes have equal prefixes of the same length, and equal shorter suffixes. */
  lemma SuffixWindow(u: seq<Line>, i: nat, v: seq<Line>, j: nat, m: nat)
    requires i <= |u| && j <= |v| && u[i..] == v[j..] && i + m <= |u|
    ensures j + m <= |v| && u[i..i + m] == v[j..j + m] && u[i + m..] == v[j + m..]
  {
    assert u[i..i + m] == u[i..][..m];
    assert v[j..j + m] == v[j..][..m];
    assert u[i + m..] == u[i..][m..];
    assert v[j + m..] == v[j..][m..];
  }

  /** Equal prefixes have equal shorter prefixes and equal windows inside them. */
  lemma PrefixWindow(u: seq<Line>, v: seq<Line>, i: nat, j: nat, k: nat)
    requires i <= j <= k <= |u| && k <= |v| && u[..k] == v[..k]
    ensures u[..i] == v[..i] && u[i..j] == v[i..j]
  {
    assert u[..i] == u[..k][..i];
    assert v[..i] == v[..k][..i];
    assert u[i..j] == u[..k][i..j];
    assert v[i..j] == v[..k][i..j];
  }

  /** A window cut into three consecutive pieces. */
  lemma ThreePieces(t: seq<Line>, i: nat, j: nat, k: nat, l: nat)
    requires i <= j <= k <= l <= |t|
    ensures t[i..l] == t[i..j] + t[j..k] + t[k..l]
  {
  }

  /**
   * The splice step of ComposeApply, over any diff c shaped like the composition:
   * c replaces [start, start + n) of `text`, and `text` and `t` agree outside
   * those windows.
   */
  lemma SpliceThrough(text: seq<Line>, t: seq<Line>, start: nat, n: nat, end: nat, b: Diff, c: Diff)
    requires c.start == start && |c.before| == n && start + n <= |text|
    requires start <= b.start && b.start + |b.before| <= end <= |t|
    requires text[..start] == t[..start] && text[start + n..] == t[end..]
    requires c.after == t[start..b.start] + b.after + t[b.start + |b.before|..end]
    ensures Fits(c, text)
    ensures Apply(c, text) == Apply(b, t)
  {
    ApplyIsSplice(b, t);
    ApplyIsSplice(c, text);
    Regroup(t, start, b.start, b.start + |b.before|, end, b.after);
  }

  /** Applying the composition to the original text is applying `a`, then `b`. */
  lemma {:induction false} ComposeApply(b: Diff, a: Diff, text: seq<Line>)
    requires ComposeDefined(b, a)
    requires Fits(a, text) && Fits(b, Apply(a, text))
    ensures Fits(Composition(b, a), text)
    ensures Apply(Composition(b, a), text) == Apply(b, Apply(a, text))
  {
    if !IsEmpty(a) {
      var t := Apply(a, text);
      var start := Min(a.start, b.start);
      var end := Max(a.start + |a.after|, b.start + |b.before|);
      CompositionAfter(b, a, text);
      var n := end - start - |a.after| + |a.before|;
      ApplyWindows(a, text);
      PrefixWindow(t, text, start, start, a.start);
      SuffixWindow(t, a.start + |a.after|, text, a.start + |a.before|, end - a.start - |a.after|);
      SpliceThrough(text, t, start, n, end, b, Composition(b, a));
    }
  }

  /** The window check of ComposeCaptured, over any diff c shaped like the composition. */
  lemma WindowThrough(text: seq<Line>, t: seq<Line>, start: nat, n: nat, end: nat, a: Diff, c: Diff)
    requires c.start == start && start <= a.start && a.start + |a.before| <= start + n <= |text|
    requires a.start + |a.after| <= end <= |t|
    requires text[a.start..a.start + |a.before|] == a.before
    requires t[start..a.start] == text[start..a.start]
    requires t[a.start + |a.after|..end] == text[a.start + |a.before|..start + n]
    requires c.before == t[start..a.start] + a.before + t[a.start + |a.after|..end]
    ensures Captured(c, text)
  {
    ThreePieces(text, start, a.start, a.start + |a.before|, start + n);
  }

  /** The composition is itself captured against the original text, so it can be reverted. */
  lemma {:induction false} ComposeCaptured(b: Diff, a: Diff, text: seq<Line>)
    requires ComposeDefined(b, a)
    requires Captured(a, text) && Captured(b, Apply(a, text))
    ensures Captured(Composition(b, a), text)
  {
    if !IsEmpty(a) {
      var t := Apply(a, text);
      var start := Min(a.start, b.start);
      var end := Max(a.start + |a.after|, b.start + |b.before|);
      CompositionBefore(b, a, text);
      var n := end - start - |a.after| + |a.before|;
      ApplyWindows(a, text);
      PrefixWindow(t, text, start, a.start, a.start);
      SuffixWindow(t, a.start + |a.after|, text, a.start + |a.before|, end - a.start - |a.after|);
      WindowThrough(text, t, start, n, end, a, Composition(b, a));
    }
  }
}
