/**
 Reading and clipping: the parts of `Document` and `Anchor` that only compute.
 Positions and ranges come from outside and may lie anywhere.
 */
module Ranges {
  import opened Lines
  import opened Deltas
  import opened Runs
  import opened Arithmetic

  function Min(a: int, b: int): int { if a <= b then a else b }

  function Max(a: int, b: int): int { if a >= b then a else b }

  /** `getLine`: a missing row reads as the empty string. */
  function GetLine(t: Text, row: int): string {
    if 0 <= row < |t| then t[row] else ""
  }

  /** `clippedPos` of ace/document. */
  function Clip(t: Text, row: int, column: int): (p: Point)
    ensures ValidPos(t, p)
    ensures ValidPos(t, Point(row, column)) ==> p == Point(row, column)
  {
    if row >= |t| then End(t)
    else
      var r := if row < 0 then 0 else row;
      Point(r, Min(Max(column, 0), |t[r]|))
  }

  /** `$clipPositionToDocument` of ace/anchor, which sends every negative row to the start of the text. */
  function ClipAnchor(t: Text, row: int, column: int): (p: Point)
    ensures ValidPos(t, p)
    ensures ValidPos(t, Point(row, column)) ==> p == Point(row, column)
  {
    if row >= |t| then Point(Max(0, |t| - 1), |GetLine(t, |t| - 1)|)
    else if row < 0 then Point(0, 0)
    else Point(row, if column < 0 then 0 else Min(|t[row]|, Max(0, column)))
  }

  function Apart(a: int, b: int): int { if a <= b then b - a else a - b }

  /** Clipping gives the nearest row and then the nearest column; past the last row it gives the end of the text. */
  lemma ClipIsNearest(t: Text, row: int, column: int)
    ensures row >= |t| ==> Clip(t, row, column) == Point(|t| - 1, |t[|t| - 1]|)
    ensures row < |t| ==>
              var p := Clip(t, row, column);
              && (forall r :: 0 <= r < |t| ==> Apart(p.row, row) <= Apart(r, row))
              && (forall c :: 0 <= c <= |t[p.row]| ==> Apart(p.column, column) <= Apart(c, column))
    ensures ClipAnchor(t, row, column) == if row < 0 then Point(0, 0) else Clip(t, row, column)
  {
  }

  /** `Array.prototype.slice` with its negative and oversized arguments. */
  function Slice<T>(s: seq<T>, from: int, to: int): seq<T> {
    var a := if from < 0 then Max(|s| + from, 0) else Min(from, |s|);
    var b := if to < 0 then Max(|s| + to, 0) else Min(to, |s|);
    if a <= b then s[a..b] else []
  }

  /** Negative arguments of `slice` count from the end. */
  lemma SliceFromEnd<T>(s: seq<T>, k: int, a: int)
    requires 0 < k
    ensures k <= |s| ==> Slice(s, a, -k) == Slice(s, a, |s| - k) && Slice(s, -k, a) == Slice(s, |s| - k, a)
    ensures k > |s| ==> Slice(s, a, -k) == [] && Slice(s, -k, a) == Slice(s, 0, a)
    ensures forall x: nat, y: nat :: x <= y <= |s| ==> Slice(s, x, y) == s[x..y]
    ensures forall x: nat, y: nat :: x <= |s| <= y ==> Slice(s, x, y) == s[x..]
  {
  }

  /** `String.prototype.substring`: both ends clamped, and swapped when out of order. */
  function Substring(s: string, from: int, to: int): string {
    var a, b := ClampColumn(s, from), ClampColumn(s, to);
    if a <= b then s[a..b] else s[b..a]
  }

  /** `getLinesForRange`. */
  function LinesForRange(t: Text, p: Point, q: Point): Text {
    if p.row == q.row then [Substring(GetLine(t, p.row), p.column, q.column)]
    else
      var lines := Slice(t, p.row, q.row + 1);
      var cut := if lines == [] then [""] else lines[0 := TailOf(lines[0], p.column)];
      var l := |cut| - 1;
      if q.row - p.row == l then cut[l := HeadOf(cut[l], q.column)] else cut
  }

  lemma LinesForRangeIsBetween(t: Text, p: Point, q: Point)
    requires ValidPos(t, p) && ValidPos(t, q) && Leq(p, q)
    ensures LinesForRange(t, p, q) == Between(t, p, q)
  {
    if p.row != q.row {
      assert Slice(t, p.row, q.row + 1) == t[p.row..q.row + 1];
      assert t[p.row..q.row + 1] == [t[p.row]] + t[p.row + 1..q.row] + [t[q.row]];
    }
  }

  // ------------------------------------------- the deltas the methods build

  function InsertDelta(t: Text, p: Point, lines: Text): Delta {
    var start := Clip(t, p.row, p.column);
    Delta(Insert, start,
          Point(start.row + |lines| - 1, (if |lines| == 1 then start.column else 0) + |Last(lines)|), lines)
  }

  function RemoveDelta(t: Text, p: Point, q: Point): Delta {
    var start, end := Clip(t, p.row, p.column), Clip(t, q.row, q.column);
    Delta(Remove, start, end, LinesForRange(t, start, end))
  }

  lemma InsertDeltaWellFormed(t: Text, p: Point, lines: Text)
    ensures WellFormed(t, InsertDelta(t, p, lines))
    ensures Applicable(t, InsertDelta(t, p, lines))
  {
    AppliedIsEdited(t, InsertDelta(t, p, lines));
  }

  /** A removal can always be carried out; it is an edit when its clipped ends are in order. */
  lemma RemoveDeltaApplicable(t: Text, p: Point, q: Point)
    ensures Applicable(t, RemoveDelta(t, p, q))
    ensures Leq(Clip(t, p.row, p.column), Clip(t, q.row, q.column)) ==> WellFormed(t, RemoveDelta(t, p, q))
  {
    var d := RemoveDelta(t, p, q);
    if Leq(d.start, d.end) {
      LinesForRangeIsBetween(t, d.start, d.end);
    }
    if !NoOp(d) {
      RawRunOne(t, d);
    }
  }

  /** The text after inserting lines at a position. */
  function WithInserted(t: Text, p: Point, lines: Text): Text
    requires ValidPos(t, p)
  {
    Merge(Merge(Before(t, p), lines), After(t, p))
  }

  /** The text after removing what lies between two positions. */
  function WithRemoved(t: Text, p: Point, q: Point): Text
    requires ValidPos(t, p) && ValidPos(t, q)
  {
    Merge(Before(t, p), After(t, q))
  }

  /** The insertion of `lines` in row `row` of a text of `length` lines leaves a stray line. */
  predicate StrayInsert(length: nat, row: int, lines: Text) {
    |lines| > LARGE && Divides(LARGE - 1, |lines|) && row + 1 == length
  }

  lemma InsertEffect(t: Text, p: Point, lines: Text)
    ensures var d, s := InsertDelta(t, p, lines), Clip(t, p.row, p.column);
            && Applicable(t, d)
            && Applied(t, d) == WithInserted(t, s, lines) + if StrayInsert(|t|, s.row, lines) then ["undefined"] else []
  {
    var d := InsertDelta(t, p, lines);
    InsertDeltaWellFormed(t, p, lines);
    AppliedIsEdited(t, d);
    assert WithInserted(t, d.start, lines) + [] == WithInserted(t, d.start, lines);
  }

  lemma RemoveEffect(t: Text, p: Point, q: Point)
    requires Leq(Clip(t, p.row, p.column), Clip(t, q.row, q.column))
    ensures var d := RemoveDelta(t, p, q);
            Applicable(t, d) && Applied(t, d) == WithRemoved(t, d.start, d.end)
  {
    var d := RemoveDelta(t, p, q);
    RemoveDeltaApplicable(t, p, q);
    AppliedIsEdited(t, d);
  }

  // ------------------------------------------------------------- whole lines

  /** Inserting whole lines before a row. */
  lemma InsertBeforeRow(t: Text, row: nat, lines: seq<string>)
    requires row < |t|
    ensures WithInserted(t, Point(row, 0), lines + [""]) == t[..row] + lines + t[row..]
  {
    var b := t[..row];
    assert t[row][..0] == "" && t[row][0..] == t[row];
    assert Before(t, Point(row, 0)) == b + [""];
    assert Merge(b + [""], lines + [""]) == b + (lines + [""]) by {
      assert "" + (lines + [""])[0] == (lines + [""])[0];
    }
    var a := After(t, Point(row, 0));
    assert a == t[row..];
    assert "" + a[0] == a[0];
    assert Merge(b + (lines + [""]), a) == b + lines + a;
  }

  /** Inserting whole lines after the last row. */
  lemma InsertAfterLast(t: Text, lines: seq<string>)
    ensures WithInserted(t, End(t), [""] + lines) == t + lines
  {
    var n := |Last(t)|;
    assert Last(t)[..n] == Last(t) && Last(t)[n..] == "";
    assert Before(t, End(t)) == t;
    assert After(t, End(t)) == [""];
    assert Last(t) + "" == Last(t);
    assert Merge(t, [""] + lines) == t + lines;
    MergeUnit(t + lines);
  }

  /** Removing whole lines: the three shapes of range that `removeFullLines` chooses from. */
  lemma RemoveRows(t: Text, first: nat, last: nat)
    requires first <= last < |t|
    ensures last + 1 < |t| ==> WithRemoved(t, Point(first, 0), Point(last + 1, 0)) == t[..first] + t[last + 1..]
    ensures last + 1 == |t| && first > 0 ==> WithRemoved(t, Point(first - 1, |t[first - 1]|), End(t)) == t[..first]
    ensures last + 1 == |t| && first == 0 ==> WithRemoved(t, Point(0, 0), End(t)) == [""]
  {
    if last + 1 < |t| {
      assert t[first][..0] == "" && t[last + 1][0..] == t[last + 1];
      assert Before(t, Point(first, 0)) == t[..first] + [""];
      assert After(t, Point(last + 1, 0)) == t[last + 1..];
      assert "" + t[last + 1] == t[last + 1];
    } else {
      assert Last(t)[|Last(t)|..] == "";
      assert After(t, End(t)) == [""];
      if first > 0 {
        var line := t[first - 1];
        assert line[..|line|] == line;
        assert Before(t, Point(first - 1, |line|)) == t[..first];
        MergeUnit(t[..first]);
      } else {
        assert t[0][..0] == "";
        MergeUnit([""]);
      }
    }
  }

  // ------------------------------------------------------------- replacement

  /**
   `replace` inserts at its start clipped against the text after the removal.  That is
   where the removal took place exactly when the start lies beyond the last row, or not
   beyond the end of its line, or nothing was left behind the removed range in that
   line; otherwise the insertion lands inside, or at the end of, what was left behind it.
   */
  lemma ReplaceStart(t: Text, from: Point, to: Point)
    requires Leq(Clip(t, from.row, from.column), Clip(t, to.row, to.column))
    ensures var s, e := Clip(t, from.row, from.column), Clip(t, to.row, to.column);
            var cut := WithRemoved(t, s, e);
            && ValidPos(cut, s)
            && (Clip(cut, from.row, from.column) == s
                <==> from.row >= |t| || from.column <= |t[s.row]| || e.column == |t[e.row]|)
            && (Clip(cut, from.row, from.column) != s
                ==> Clip(cut, from.row, from.column) == Point(s.row, Min(from.column, |cut[s.row]|)))
  {
    var s, e := Clip(t, from.row, from.column), Clip(t, to.row, to.column);
    var cut := WithRemoved(t, s, e);
    assert cut[s.row] == t[s.row][..s.column] + t[e.row][e.column..];
    if from.row >= |t| {
      CutMerge(t, s);
    }
  }

  /** A start behind the end of its line is clipped to the end of what the removal leaves there. */
  lemma ReplaceMovesOn()
    ensures var t, from, to := ["ab", "cd"], Point(0, 5), Point(1, 0);
            var s, e := Clip(t, from.row, from.column), Clip(t, to.row, to.column);
            && Leq(s, e) && WithRemoved(t, s, e) == ["abcd"]
            && s == Point(0, 2) && Clip(WithRemoved(t, s, e), from.row, from.column) == Point(0, 4)
  {
    var t := ["ab", "cd"];
    assert t[0][..2] == "ab" && t[1][0..] == "cd";
    assert Before(t, Point(0, 2)) == ["ab"] && After(t, Point(1, 0)) == ["cd"];
    assert "ab" + "cd" == "abcd";
    assert WithRemoved(t, Point(0, 2), Point(1, 0)) == ["abcd"];
  }

  /**
   On the joined text `replace` is a splice, of the removed range by the new text, exactly
   when the new text commutes with what lies between where the removal took place and
   where the insertion does; so in particular when these are the same place.
   */
  lemma ReplaceIsSplice(t: Text, from: Point, to: Point, lines: Text, nl: string)
    requires Leq(Clip(t, from.row, from.column), Clip(t, to.row, to.column))
    ensures var s, e := Clip(t, from.row, from.column), Clip(t, to.row, to.column);
            var i, j := Index(t, s, |nl|), Index(t, e, |nl|);
            var cut, mid := WithRemoved(t, s, e), Join(lines, nl);
            var at := Clip(cut, from.row, from.column);
            && 0 <= i <= j <= |Join(t, nl)| && i <= Index(cut, at, |nl|) <= |Join(cut, nl)|
            && var gap := Join(cut, nl)[i..Index(cut, at, |nl|)];
               && (Join(WithInserted(cut, at, lines), nl) == Splice3(Join(t, nl), i, j, mid) <==> gap + mid == mid + gap)
               && (gap == [] <==> from.row >= |t| || from.column <= |t[s.row]| || e.column == |t[e.row]|)
  {
    hide Merge, Before, After, Index, Join, Splice3;
    var s, e := Clip(t, from.row, from.column), Clip(t, to.row, to.column);
    var i, j := Index(t, s, |nl|), Index(t, e, |nl|);
    var cut := WithRemoved(t, s, e);
    var at := Clip(cut, from.row, from.column);
    ReplaceStart(t, from, to);
    RemoveIsSplice(t, s, e, nl);
    InsertIsSplice(cut, at, lines, nl);
    CutMerge(t, s);
    SameFront(Before(t, s), After(t, s), After(t, e), s, nl);
    SameRowIndex(cut, s, at, |nl|);
    SpliceTwice(Join(t, nl), i, j, Index(cut, at, |nl|), Join(lines, nl));
  }

  lemma SameRowIndex(t: Text, p: Point, q: Point, n: nat)
    requires ValidPos(t, p) && ValidPos(t, q) && p.row == q.row && p.column <= q.column
    ensures Index(t, q, n) == Index(t, p, n) + q.column - p.column
  {
  }

  /** Deleting at one place and inserting at a later one is one splice exactly when the order of the two pieces does not matter. */
  lemma SpliceTwice(flat: string, i: nat, j: nat, k: nat, mid: string)
    requires i <= j <= |flat| && i <= k <= |Splice3(flat, i, j, "")|
    ensures var cut := Splice3(flat, i, j, "");
            Splice3(cut, k, k, mid) == Splice3(flat, i, j, mid) <==> cut[i..k] + mid == mid + cut[i..k]
  {
    var cut := Splice3(flat, i, j, "");
    var gap := cut[i..k];
    assert cut == flat[..i] + flat[j..];
    assert cut[..k] == flat[..i] + gap && flat[j..] == gap + cut[k..];
    assert Splice3(cut, k, k, mid) == flat[..i] + (gap + mid) + cut[k..];
    assert Splice3(flat, i, j, mid) == flat[..i] + (mid + gap) + cut[k..];
    SameMiddle(flat[..i], gap + mid, mid + gap, cut[k..]);
  }

  lemma SameMiddle(front: string, a: string, b: string, back: string)
    requires |a| == |b|
    ensures front + a + back == front + b + back <==> a == b
  {
    assert (front + a + back)[|front|..|front| + |a|] == a;
    assert (front + b + back)[|front|..|front| + |b|] == b;
  }
}
