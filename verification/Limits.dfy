/**
 The limit of the splitter in numbers: what `applyDelta` does up to 20000 lines, where the
 longer insertions are cut, and which of them go wrong.
 */
module Limits {
  import opened Arithmetic
  import opened Lines
  import opened Deltas
  import opened Runs
  import opened Undo
  import opened Ranges

  /**
   A delta of at most 20000 lines is one change event, or none when it changes nothing;
   it leaves exactly the edited text and the delta itself, and reverting that restores
   the lines.
   */
  lemma UpTo20000(t: Text, d: Delta)
    requires WellFormed(t, d) && |d.lines| <= 20000
    ensures Events(d) == if d.lines == [""] && (d.action.Insert? || d.start == d.end) then [] else [d]
    ensures Left(d) == d && Applicable(t, d) && Applied(t, d) == Edited(t, d)
    ensures Applicable(Applied(t, d), Inverse(d)) && Applied(Applied(t, d), Inverse(d)) == t
  {
    hide Applied, Applicable, Edited, ChunkEvents;
    AppliedIsEdited(t, d);
    UndoOne(t, d);
    if d.action.Remove? {
      NothingBetween(t, d.start, d.end);
    }
  }

  lemma NothingBetween(t: Text, p: Point, q: Point)
    requires ValidPos(t, p) && ValidPos(t, q) && Leq(p, q)
    ensures Between(t, p, q) == [""] <==> p == q
  {
    if p.row == q.row {
      assert |t[p.row][p.column..q.column]| == q.column - p.column;
      assert |Between(t, p, q)| == 1;
    } else {
      assert |Between(t, p, q)| == q.row - p.row + 1;
    }
  }

  lemma {:induction false} ChunkCount(d: Delta, max: nat, from: nat)
    requires max >= 2 && from <= |d.lines|
    ensures |ChunkEvents(d, max, from)| == (|d.lines| - from) / (max - 1) + 1
    decreases |d.lines| - from
  {
    var n, m, to := |d.lines| - from, max - 1, from + max - 1;
    if to > |d.lines| {
      DivModUnique(n, m, 0, n);
    } else {
      ChunkCount(d, max, to);
      var q, r := (n - m) / m, (n - m) % m;
      assert n == m * (q + 1) + r;
      DivModUnique(n, m, q + 1, r);
    }
  }

  /** The chunk with number `i`, counted from the one that begins with line `from`; it begins with line `a`. */
  lemma {:induction false} ChunkAt(d: Delta, max: nat, from: nat, i: nat, a: nat)
    requires max >= 2 && from <= a <= |d.lines| && a == from + (max - 1) * i
    ensures var es, b := ChunkEvents(d, max, from), a + max - 1;
            && i < |es|
            && es[i] == Delta(d.action, Point(d.start.row + a, if a == 0 then d.start.column else 0),
                              if b <= |d.lines| then Point(d.start.row + b, 0) else d.end,
                              if b <= |d.lines| then d.lines[a..b] + [""] else d.lines[a..])
    decreases i
  {
    var es, to := ChunkEvents(d, max, from), from + max - 1;
    if i == 0 {
      assert (max - 1) * 0 == 0;
    } else {
      assert (max - 1) * i == (max - 1) * (i - 1) + (max - 1);
      MulSign(i, max - 1);
      assert i * (max - 1) == (max - 1) * i;
      ChunkAt(d, max, to, i - 1, a);
      assert es == [es[0]] + ChunkEvents(d, max, to);
    }
  }

  /** A longer insertion goes in chunks of 20000 lines, the last of them empty, which merge the end of each with the next. */
  lemma Beyond20000(t: Text, d: Delta, i: nat)
    requires WellFormed(t, d) && d.action.Insert? && |d.lines| > 20000 && i <= |d.lines| / 19999
    ensures |Events(d)| == |d.lines| / 19999 + 1 && Left(d) == Events(d)[|Events(d)| - 1]
    ensures var a, b := 19999 * i, 19999 * (i + 1);
            && a <= |d.lines| && (i < |d.lines| / 19999 <==> b <= |d.lines|)
            && Events(d)[i] == Delta(Insert, Point(d.start.row + a, if i == 0 then d.start.column else 0),
                                     if b <= |d.lines| then Point(d.start.row + b, 0) else d.end,
                                     if b <= |d.lines| then d.lines[a..b] + [""] else d.lines[a..])
    ensures i < |d.lines| / 19999 ==> |Events(d)[i].lines| == 20000
  {
    hide ChunkEvents;
    ChunkCount(d, 20000, 0);
    ChunkAt(d, 20000, 0, i, 19999 * i);
  }

  /** In numbers: which insertions leave a stray line, and which deltas cannot be undone. */
  lemma WhatGoesWrong(t: Text, d: Delta)
    requires WellFormed(t, d)
    ensures Applicable(t, d) && Applicable(Applied(t, d), Inverse(Left(d)))
    ensures var stray := d.action.Insert? && |d.lines| > 20000 && |d.lines| % 19999 == 0 && d.start.row + 1 == |t|;
            Applied(t, d) == Edited(t, d) + if stray then ["undefined"] else []
    ensures Applied(Applied(t, d), Inverse(Left(d))) == t <==>
            |d.lines| <= 20000 || (d.action.Remove? && (|d.lines| % 19999 != 0 || d.end.row + 1 < |t|))
  {
    hide Applied, Applicable, Edited, ChunkEvents, Left;
    AppliedIsEdited(t, d);
    UndoOne(t, d);
    assert Edited(t, d) + [] == Edited(t, d);
  }

  /** The same for lines inserted in row `row` of a text. */
  lemma StrayInNumbers(length: nat, row: int, lines: Text)
    ensures StrayInsert(length, row, lines) <==> |lines| > 20000 && |lines| % 19999 == 0 && row + 1 == length
  {
  }
}
