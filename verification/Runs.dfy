/**
 What `Document.applyDelta` does to the lines, including the deltas it drops and
 the large insertions it splits; and the laws of whole runs of deltas: the split
 equals the unsplit insertion, undo restores the text, and a replica fed with the
 change events stays in step.
 */
module Runs {
  import opened Lines
  import opened Deltas
  import opened Arithmetic

  /** Insertions of more lines than this are split. */
  const LARGE: nat := 20000

  // --------------------------------------------------------- change events

  /** The column at which the chunk that starts with line `from` is inserted. */
  function ChunkColumn(d: Delta, from: nat): int {
    if from == 0 then d.start.column else 0
  }

  /**
   The deltas that reach the line array, in order, when `d` is split into chunks
   of `max` lines and its lines from `from` on are still to be inserted.  The last
   one is `d` itself as the splitter leaves it.
   */
  function ChunkEvents(d: Delta, max: nat, from: nat): seq<Delta>
    requires max >= 2 && from <= |d.lines|
    decreases |d.lines| - from
  {
    var to := from + max - 1;
    var start := Point(d.start.row + from, ChunkColumn(d, from));
    if to > |d.lines| then [Delta(d.action, start, d.end, d.lines[from..])]
    else [Delta(d.action, start, Point(d.start.row + to, 0), d.lines[from..to] + [""])] + ChunkEvents(d, max, to)
  }

  lemma ChunkEventsSome(d: Delta, max: nat, from: nat)
    requires max >= 2 && from <= |d.lines|
    ensures ChunkEvents(d, max, from) != []
  {
  }

  lemma ChunkEventsLast(d: Delta, max: nat, from: nat)
    requires max >= 2 && from <= |d.lines| < from + max - 1
    ensures ChunkEvents(d, max, from) ==
            [Delta(d.action, Point(d.start.row + from, ChunkColumn(d, from)), d.end, d.lines[from..])]
  {
  }

  lemma ChunkEventsNext(d: Delta, max: nat, from: nat)
    requires max >= 2 && from + max - 1 <= |d.lines|
    ensures var to := from + max - 1;
            ChunkEvents(d, max, from) ==
            [Delta(d.action, Point(d.start.row + from, ChunkColumn(d, from)), Point(d.start.row + to, 0), d.lines[from..to] + [""])]
            + ChunkEvents(d, max, to)
  {
  }

  predicate IsLarge(d: Delta) {
    d.action.Insert? && |d.lines| > LARGE
  }

  /** The change events of one call of `applyDelta`. */
  function Events(d: Delta): seq<Delta> {
    if NoOp(d) then [] else if IsLarge(d) then ChunkEvents(d, LARGE, 0) else [d]
  }

  /** The delta object after the call: a split overwrites it with the last chunk. */
  function Left(d: Delta): Delta {
    if !NoOp(d) && IsLarge(d) then
      var es := ChunkEvents(d, LARGE, 0);
      es[|es| - 1]
    else d
  }

  // ------------------------------------------------------- folding over events

  predicate RawRun(t: Text, es: seq<Delta>)
    decreases |es|
  {
    es == [] || (RawOk(t, es[0]) && RawRun(Raw(t, es[0]), es[1..]))
  }

  function FoldRaw(t: Text, es: seq<Delta>): Text
    requires RawRun(t, es)
    decreases |es|
  {
    if es == [] then t else FoldRaw(Raw(t, es[0]), es[1..])
  }

  function FoldAnchor(es: seq<Delta>, p: Point, insertRight: bool): Point {
    if es == [] then p else FoldAnchor(es[1..], AnchorAfter(es[0], p, insertRight), insertRight)
  }

  lemma RawRunCons(t: Text, d: Delta, es: seq<Delta>)
    requires RawOk(t, d) && RawRun(Raw(t, d), es)
    ensures RawRun(t, [d] + es) && FoldRaw(t, [d] + es) == FoldRaw(Raw(t, d), es)
  {
    hide Raw, RawOk;
    assert ([d] + es)[1..] == es;
  }

  lemma RawRunOne(t: Text, d: Delta)
    requires RawOk(t, d)
    ensures RawRun(t, [d]) && FoldRaw(t, [d]) == Raw(t, d)
  {
    hide Raw, RawOk;
    assert [d][1..] == [];
    assert FoldRaw(Raw(t, d), []) == Raw(t, d);
  }

  lemma {:induction false} RawRunSnoc(t: Text, es: seq<Delta>, d: Delta)
    requires RawRun(t, es) && RawOk(FoldRaw(t, es), d)
    ensures RawRun(t, es + [d])
    ensures FoldRaw(t, es + [d]) == Raw(FoldRaw(t, es), d)
    decreases |es|
  {
    hide Raw, RawOk;
    if es == [] {
      assert (es + [d])[1..] == [];
    } else {
      RawRunSnoc(Raw(t, es[0]), es[1..], d);
      assert (es + [d])[1..] == es[1..] + [d];
    }
  }

  lemma {:induction false} FoldAnchorConcat(es: seq<Delta>, fs: seq<Delta>, p: Point, insertRight: bool)
    ensures FoldAnchor(es + fs, p, insertRight) == FoldAnchor(fs, FoldAnchor(es, p, insertRight), insertRight)
  {
    if es == [] {
      assert es + fs == fs;
    } else {
      FoldAnchorConcat(es[1..], fs, AnchorAfter(es[0], p, insertRight), insertRight);
      assert (es + fs)[1..] == es[1..] + fs;
    }
  }

  /** `applyDelta` can run on these lines without leaving the array. */
  predicate Applicable(t: Text, d: Delta) {
    RawRun(t, Events(d))
  }

  /** The lines after `applyDelta`. */
  function Applied(t: Text, d: Delta): Text
    requires Applicable(t, d)
  {
    FoldRaw(t, Events(d))
  }

  // -------------------------------------------------------------- the splitter

  /** The text up to the insertion point of the chunk that starts with line `from`. */
  function Front(t: Text, d: Delta, from: nat): Text
    requires ValidPos(t, d.start) && from <= |d.lines|
  {
    if from == 0 then Before(t, d.start) else Merge(Before(t, d.start), d.lines[..from] + [""])
  }

  lemma FrontEnd(t: Text, d: Delta, from: nat)
    requires ValidPos(t, d.start) && from <= |d.lines|
    ensures End(Front(t, d, from)) == Point(d.start.row + from, ChunkColumn(d, from))
  {
    CutMerge(t, d.start);
    if from > 0 {
      MergeNotShorter(Before(t, d.start), d.lines[..from] + [""]);
    }
  }

  lemma MergeTerminated(b: Text, x: seq<string>, y: Text)
    ensures Merge(Merge(b, x + [""]), y) == Merge(b, x + y)
  {
    MergeAssociative(b, x + [""], y);
    assert Merge(x + [""], y) == x + y by {
      assert "" + y[0] == y[0];
    }
  }

  /** Inserting the next chunk moves the front from `from` to `to`. */
  lemma FrontStep(t: Text, d: Delta, from: nat, to: nat)
    requires ValidPos(t, d.start) && from < to <= |d.lines|
    ensures Merge(Front(t, d, from), d.lines[from..to] + [""]) == Front(t, d, to)
  {
    var b := Before(t, d.start);
    if from > 0 {
      MergeTerminated(b, d.lines[..from], d.lines[from..to] + [""]);
      assert d.lines[..from] + (d.lines[from..to] + [""]) == d.lines[..to] + [""];
    } else {
      assert d.lines[0..to] == d.lines[..to];
    }
  }

  lemma FrontLast(t: Text, d: Delta, from: nat)
    requires ValidPos(t, d.start) && from < |d.lines|
    ensures Merge(Front(t, d, from), d.lines[from..]) == Merge(Before(t, d.start), d.lines)
  {
    if from > 0 {
      MergeTerminated(Before(t, d.start), d.lines[..from], d.lines[from..]);
      assert d.lines[..from] + d.lines[from..] == d.lines;
    } else {
      assert d.lines[0..] == d.lines;
    }
  }

  /** The lengths at which the splitter ends with an empty chunk, on the last row of a text. */
  predicate SplitsExactly(t: Text, d: Delta, max: nat)
    requires max >= 2
  {
    Divides(max - 1, |d.lines|) && d.start.row + 1 == |t|
  }

  /** What the chunks produce: the edit, followed by a stray line in the exact case. */
  function SplitResult(t: Text, d: Delta, max: nat): Text
    requires WellFormed(t, d) && d.action.Insert? && max >= 2
  {
    if SplitsExactly(t, d, max) then Edited(t, d) + ["undefined"] else Edited(t, d)
  }

  /** The empty last chunk only merges two lines when a row follows, and adds a stray line when none does. */
  lemma EmptyChunk(t: Text, d: Delta, max: nat, cur: Text, e: Delta)
    requires WellFormed(t, d) && d.action.Insert? && max >= 2
    requires Divides(max - 1, |d.lines|)
    requires cur == Merge(Front(t, d, |d.lines|), After(t, d.start))
    requires e == Delta(Insert, Point(d.start.row + |d.lines|, 0), d.end, [])
    ensures RawOk(cur, e)
    ensures Raw(cur, e) == SplitResult(t, d, max)
  {
    hide Merge, Before, Raw, RawOk, Divides;
    var b, a, n := Before(t, d.start), After(t, d.start), |d.lines|;
    assert d.lines[..n] == d.lines;
    var whole := Merge(b, d.lines);
    MergeTerminatedLine(b, d.lines);
    MergeEmptyLine(whole, a);
    MergeNotShorter(b, d.lines);
    BeforeLength(t, d.start);
    AppendedEmptyChunk(whole, a, e);
  }

  lemma MergeTerminatedLine(b: Text, x: Text)
    ensures Merge(b, x + [""]) == Merge(b, x) + [""]
  {
  }

  lemma MergeEmptyLine(whole: Text, a: Text)
    ensures Merge(whole + [""], a) == whole + a
  {
    assert "" + a[0] == a[0];
  }

  lemma BeforeLength(t: Text, p: Point)
    requires ValidPos(t, p)
    ensures |Before(t, p)| == p.row + 1 && |After(t, p)| == |t| - p.row
  {
  }

  lemma AppendedEmptyChunk(whole: Text, a: Text, e: Delta)
    requires e == Delta(Insert, Point(|whole|, 0), e.end, [])
    ensures RawOk(whole + a, e)
    ensures Raw(whole + a, e) == Merge(whole, a) + if |a| > 1 then [] else ["undefined"]
  {
    var cur, row := whole + a, |whole|;
    assert cur[row][0..] == a[0] && cur[row][..0] == "";
    assert cur[..row - 1] == whole[..row - 1];
    if |a| > 1 {
      assert cur[row][..0] + cur[row + 1] == a[1];
      assert cur[row + 2..] == a[2..];
      assert a[1..] == [a[1]] + a[2..];
    } else {
      assert cur[row][..0] + "undefined" == "undefined";
      assert a[1..] == [];
    }
  }

  lemma {:induction false} ChunksFrom(t: Text, d: Delta, max: nat, from: nat, cur: Text)
    requires WellFormed(t, d) && d.action.Insert? && max >= 2
    requires from <= |d.lines| && Divides(max - 1, from)
    requires cur == Merge(Front(t, d, from), After(t, d.start))
    ensures RawRun(cur, ChunkEvents(d, max, from))
    ensures FoldRaw(cur, ChunkEvents(d, max, from)) == SplitResult(t, d, max)
    decreases |d.lines| - from
  {
    hide Merge, Before, After, Front, Divides;
    var es := ChunkEvents(d, max, from);
    var to := from + max - 1;
    FrontEnd(t, d, from);
    MergeCut(Front(t, d, from), After(t, d.start));
    if to > |d.lines| {
      Remainder(|d.lines|, from, max - 1);
      if from == |d.lines| {
        EmptyChunk(t, d, max, cur, es[0]);
      } else {
        FrontLast(t, d, from);
      }
      assert es[1..] == [];
    } else {
      FrontStep(t, d, from, to);
      NextMultiple(from, max - 1);
      ChunksFrom(t, d, max, to, Raw(cur, es[0]));
      assert es[1..] == ChunkEvents(d, max, to);
    }
  }

  /**
   Splitting a large insertion gives the lines of the unsplit one, unless the
   chunk size divides the number of lines and the insertion row is the last row:
   then, and only then, one stray line is left at the end.
   */
  lemma SplitEqualsOneShot(t: Text, d: Delta, max: nat)
    requires WellFormed(t, d) && d.action.Insert? && max >= 2 && |d.lines| > max
    ensures RawRun(t, ChunkEvents(d, max, 0))
    ensures FoldRaw(t, ChunkEvents(d, max, 0)) == Edited(t, d) <==> !SplitsExactly(t, d, max)
    ensures SplitsExactly(t, d, max) ==> FoldRaw(t, ChunkEvents(d, max, 0)) == Edited(t, d) + ["undefined"]
  {
    CutMerge(t, d.start);
    assert Divides(max - 1, 0);
    ChunksFrom(t, d, max, 0, t);
    assert |Edited(t, d) + ["undefined"]| == |Edited(t, d)| + 1;
  }

  /** No chunk is itself large, so the splitter never splits recursively; and none but the last is dropped. */
  lemma {:induction false} ChunksAreSmall(d: Delta, max: nat, from: nat)
    requires 2 <= max <= LARGE && from <= |d.lines|
    ensures forall e :: e in ChunkEvents(d, max, from) ==> |e.lines| <= max
    ensures forall i :: 0 <= i < |ChunkEvents(d, max, from)| - 1 ==> |ChunkEvents(d, max, from)[i].lines| == max
    decreases |d.lines| - from
  {
    var to := from + max - 1;
    if to > |d.lines| {
    } else {
      ChunksAreSmall(d, max, to);
    }
  }

  lemma {:induction false} LastChunk(d: Delta, max: nat, from: nat)
    requires max >= 2 && from <= |d.lines|
    ensures var es := ChunkEvents(d, max, from);
            var e := es[|es| - 1];
            && |es| > 0 && e.action == d.action && e.end == d.end
            && |e.lines| <= |d.lines| - from && |e.lines| <= max - 2
            && (from > 0 || |d.lines| >= max - 1 ==> e.start == Point(d.start.row + |d.lines| - |e.lines|, 0))
            && (|e.lines| > 0 ==> Last(e.lines) == Last(d.lines))
    decreases |d.lines| - from
  {
    var to := from + max - 1;
    if to > |d.lines| {
    } else {
      LastChunk(d, max, to);
      assert ChunkEvents(d, max, from)[1..] == ChunkEvents(d, max, to);
    }
  }

  /** The splitter ends with an empty chunk exactly when the chunk size divides the number of lines. */
  lemma {:induction false} EmptyTailMeansDivides(d: Delta, max: nat, from: nat)
    requires max >= 2 && from <= |d.lines| && Divides(max - 1, from)
    ensures var es := ChunkEvents(d, max, from);
            |es| > 0 && (|es[|es| - 1].lines| == 0 <==> Divides(max - 1, |d.lines|))
    decreases |d.lines| - from
  {
    hide Divides;
    var to := from + max - 1;
    if to <= |d.lines| {
      NextMultiple(from, max - 1);
      EmptyTailMeansDivides(d, max, to);
      assert ChunkEvents(d, max, from)[1..] == ChunkEvents(d, max, to);
    } else {
      Remainder(|d.lines|, from, max - 1);
    }
  }

  // -------------------------------------------------------- applyDelta as a whole

  /** The insertion that leaves a stray line. */
  predicate Stray(t: Text, d: Delta) {
    IsLarge(d) && SplitsExactly(t, d, LARGE)
  }

  /** `applyDelta` performs the edit, exactly when the delta is not one of the stray-line insertions. */
  lemma AppliedIsEdited(t: Text, d: Delta)
    requires WellFormed(t, d)
    ensures Applicable(t, d)
    ensures Applied(t, d) == Edited(t, d) <==> !Stray(t, d)
    ensures Stray(t, d) ==> Applied(t, d) == Edited(t, d) + ["undefined"]
  {
    if NoOp(d) {
      NoOpChangesNothing(t, d);
    } else if IsLarge(d) {
      SplitEqualsOneShot(t, d, LARGE);
    } else {
      WellFormedIsRaw(t, d);
      RawRunOne(t, d);
    }
  }

  // ------------------------------------------------------- runs of applyDelta

  /** Each delta describes an edit of the document it meets. */
  predicate WellFormedRun(t: Text, ds: seq<Delta>)
    decreases |ds|
  {
    ds == [] || (WellFormed(t, ds[0]) && Applicable(t, ds[0]) && WellFormedRun(Applied(t, ds[0]), ds[1..]))
  }

  predicate ApplicableRun(t: Text, ds: seq<Delta>)
    decreases |ds|
  {
    ds == [] || (Applicable(t, ds[0]) && ApplicableRun(Applied(t, ds[0]), ds[1..]))
  }

  /** The lines after `applyDeltas`. */
  function ApplyRun(t: Text, ds: seq<Delta>): Text
    requires ApplicableRun(t, ds)
    decreases |ds|
  {
    if ds == [] then t else ApplyRun(Applied(t, ds[0]), ds[1..])
  }

  /** All change events of a run, in order. */
  function RunEvents(ds: seq<Delta>): seq<Delta> {
    if ds == [] then [] else Events(ds[0]) + RunEvents(ds[1..])
  }

  // ------------------------------------------------- anchors through the splitter

  /** A chunk moves a position at distance `x` behind its start to distance `x` behind its end. */
  lemma ChunkMovesAnchor(e: Delta, x: Text, insertRight: bool)
    requires e.action.Insert?
    requires (e.end.row > e.start.row)
          || (e.end.row == e.start.row && e.end.column >= e.start.column)
          || (e.end.row < e.start.row && e.start.column == 0)
    requires insertRight ==> x != [""]
    ensures AnchorAfter(e, Advance(e.start, x), insertRight) == Advance(e.end, x)
  {
  }

  lemma {:induction false} ChunksMoveAnchor(d: Delta, max: nat, from: nat, x: Text, insertRight: bool)
    requires d.action.Insert? && max >= 2 && |d.lines| >= 2 && from <= |d.lines|
    requires d.start.column >= 0 && d.end == Advance(d.start, d.lines)
    requires insertRight ==> x != [""]
    ensures FoldAnchor(ChunkEvents(d, max, from), Advance(Point(d.start.row + from, ChunkColumn(d, from)), x), insertRight)
         == Advance(d.end, x)
    decreases |d.lines| - from
  {
    var es, to := ChunkEvents(d, max, from), from + max - 1;
    ChunkMovesAnchor(es[0], x, insertRight);
    if to > |d.lines| {
      assert es[1..] == [];
    } else {
      ChunksMoveAnchor(d, max, to, x, insertRight);
      assert es[1..] == ChunkEvents(d, max, to);
    }
  }

  lemma {:induction false} ChunksKeepAnchor(d: Delta, max: nat, from: nat, p: Point, insertRight: bool)
    requires d.action.Insert? && max >= 2 && from <= |d.lines|
    requires PointsInOrder(p, d.start, insertRight)
    ensures FoldAnchor(ChunkEvents(d, max, from), p, insertRight) == p
    decreases |d.lines| - from
  {
    var es, to := ChunkEvents(d, max, from), from + max - 1;
    assert AnchorAfter(es[0], p, insertRight) == p;
    if to > |d.lines| {
      assert es[1..] == [];
    } else {
      ChunksKeepAnchor(d, max, to, p, insertRight);
      assert es[1..] == ChunkEvents(d, max, to);
    }
  }

  /**
   An anchor that hears the chunk events of a split insertion one by one ends
   where the single unsplit event would have put it.
   */
  lemma SplitMovesAnchorsAlike(t: Text, d: Delta, max: nat, p: Point, insertRight: bool)
    requires WellFormed(t, d) && d.action.Insert? && max >= 2 && |d.lines| >= 2 && ValidPos(t, p)
    ensures FoldAnchor(ChunkEvents(d, max, 0), p, insertRight) == AnchorAfter(d, p, insertRight)
  {
    if PointsInOrder(p, d.start, insertRight) {
      ChunksKeepAnchor(d, max, 0, p, insertRight);
      FilterIsSound(t, d, p, insertRight);
    } else {
      var x := Between(t, d.start, p);
      BetweenCut(t, d.start, p);
      ChunksMoveAnchor(d, max, 0, x, insertRight);
      ChunkMovesAnchor(d, x, insertRight);
    }
  }

  /** However `applyDelta` treats the delta, an anchor moves as the whole edit says. */
  lemma EventsMoveAnchor(t: Text, d: Delta, p: Point, insertRight: bool)
    requires WellFormed(t, d) && ValidPos(t, p)
    ensures FoldAnchor(Events(d), p, insertRight) == AnchorAfter(d, p, insertRight)
  {
    if !NoOp(d) {
      if IsLarge(d) {
        SplitMovesAnchorsAlike(t, d, LARGE, p, insertRight);
      } else {
        assert Events(d)[1..] == [];
      }
    }
  }

  /** The full anchor law for `applyDelta`: valid, and shifted exactly on the joined text. */
  lemma AnchorThroughApply(t: Text, d: Delta, p: Point, insertRight: bool, nl: string)
    requires WellFormed(t, d) && ValidPos(t, p) && |nl| >= 1
    ensures Applicable(t, d)
    ensures var q := FoldAnchor(Events(d), p, insertRight);
            && ValidPos(Applied(t, d), q)
            && Index(Applied(t, d), q, |nl|) == ShiftedIndex(t, d, Index(t, p, |nl|), insertRight, nl)
  {
    EventsMoveAnchor(t, d, p, insertRight);
    AnchorFollowsText(t, d, p, insertRight, nl);
    AppliedIsEdited(t, d);
    if Stray(t, d) {
      RowStartPrefix(Edited(t, d), Applied(t, d), AnchorAfter(d, p, insertRight).row, |nl|);
    }
  }
}
