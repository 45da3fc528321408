/**
 Undo.  `revertDeltas` walks a run backwards and applies the inverse of each delta
 object, as `applyDelta` left it.  It restores the text exactly when no delta of
 the run was one that the splitter spoils.
 */
module Undo {
  import opened Lines
  import opened Deltas
  import opened Runs
  import opened Arithmetic

  /** The exact condition under which `revertDelta` undoes `applyDelta`. */
  predicate Undoable(t: Text, d: Delta)
    requires WellFormed(t, d)
  {
    match d.action
    case Insert => |d.lines| <= LARGE
    case Remove => |d.lines| <= LARGE || !Divides(LARGE - 1, |d.lines|) || d.end.row + 1 < |t|
  }

  lemma RemovedLength(t: Text, d: Delta)
    requires WellFormed(t, d) && d.action.Remove?
    ensures |Edited(t, d)| == |t| - (d.end.row - d.start.row) && |d.lines| == d.end.row - d.start.row + 1
  {
    hide Raw, RawOk, Divides;
    BetweenCut(t, d.start, d.end);
  }

  /** `revertDelta` after `applyDelta` restores the lines exactly when the delta is undoable. */
  lemma UndoOne(t: Text, d: Delta)
    requires WellFormed(t, d)
    ensures Applicable(t, d) && Applicable(Applied(t, d), Inverse(Left(d)))
    ensures Applied(Applied(t, d), Inverse(Left(d))) == t <==> Undoable(t, d)
  {
    hide Raw, RawOk, Divides, Edited, Between, Applied, Applicable;
    AppliedIsEdited(t, d);
    if IsLarge(d) {
      RevertKeepsExcess(t, d, Applied(t, d));
    } else {
      InverseUndoes(t, d);
      AppliedIsEdited(Edited(t, d), Inverse(d));
      if d.action.Remove? {
        RemovedLength(t, d);
      }
    }
  }

  // ------------------------------------------------------- counting the lines

  lemma RawCount(t: Text, d: Delta)
    requires RawOk(t, d)
    ensures |Raw(t, d)| == |t| +
              match d.action
              case Insert => if |d.lines| > 0 then |d.lines| - 1 else if d.start.row + 1 < |t| then -1 else 0
              case Remove => if d.start.row <= d.end.row then d.start.row - d.end.row else 1
  {
  }

  lemma {:induction false} ChunkCount(t: Text, d: Delta, max: nat, from: nat)
    requires d.action.Insert? && max >= 2 && 0 < |d.lines|
    requires from <= |d.lines| && Divides(max - 1, from)
    requires 0 <= d.start.row && d.start.row + from < |t|
    ensures RawRun(t, ChunkEvents(d, max, from))
    ensures |FoldRaw(t, ChunkEvents(d, max, from))| == |t| + |d.lines| - from - 1
              + if Divides(max - 1, |d.lines|) && d.start.row + from + 1 == |t| then 1 else 0
    decreases |d.lines| - from
  {
    var es, to := ChunkEvents(d, max, from), from + max - 1;
    var e := es[0];
    RawCount(t, e);
    hide Raw, RawRun, FoldRaw, Divides, RawOk;
    if to > |d.lines| {
      assert es == [e];
      Remainder(|d.lines|, from, max - 1);
      RawRunOne(t, e);
      hide ChunkEvents;
    } else {
      var rest := ChunkEvents(d, max, to);
      assert es == [e] + rest;
      NextMultiple(from, max - 1);
      ChunkCount(Raw(t, e), d, max, to);
      hide ChunkEvents;
      RawRunCons(t, e, rest);
    }
  }

  /** How `applyDelta` changes the number of lines; only the rows of the delta matter. */
  lemma AppliedCount(t: Text, d: Delta)
    requires 0 <= d.start.row < |t|
    requires d.action.Insert? ==> |d.lines| > 0
    requires d.action.Remove? ==> 0 <= d.end.row < |t|
    ensures Applicable(t, d)
    ensures |Applied(t, d)| == |t| +
              match d.action
              case Insert => |d.lines| - 1 + (if Stray(t, d) then 1 else 0)
              case Remove => if d.start.row <= d.end.row then d.start.row - d.end.row else 1
  {
    hide Raw;
    if !NoOp(d) {
      if IsLarge(d) {
        assert Divides(LARGE - 1, 0);
        ChunkCount(t, d, LARGE, 0);
      } else {
        RawCount(t, d);
        RawRunOne(t, d);
      }
    }
  }

  /**
   Reverting one delta on a text that has at least as many lines as the text it
   was applied to never loses that excess, and gains some if the delta is not undoable.
   */
  lemma RevertKeepsExcess(t: Text, d: Delta, u: Text)
    requires WellFormed(t, d) && Applicable(t, d) && |u| >= |Applied(t, d)|
    ensures Applicable(u, Inverse(Left(d)))
    ensures |Applied(u, Inverse(Left(d)))| - |t| >= |u| - |Applied(t, d)|
    ensures u == Applied(t, d) && !Undoable(t, d) ==> |Applied(u, Inverse(Left(d)))| > |t|
  {
    if IsLarge(d) {
      RevertLargeInsert(t, d, u);
    } else {
      RevertWhole(t, d, u);
    }
  }

  /** After a split the delta object only describes its last chunk, and reverting it leaves too many lines. */
  lemma RevertLargeInsert(t: Text, d: Delta, u: Text)
    requires WellFormed(t, d) && IsLarge(d) && Applicable(t, d) && |u| >= |Applied(t, d)|
    ensures Applicable(u, Inverse(Left(d)))
    ensures |Applied(u, Inverse(Left(d)))| - |t| > |u| - |Applied(t, d)|
  {
    AppliedCount(t, d);
    LastChunk(d, LARGE, 0);
    EmptyTailMeansDivides(d, LARGE, 0);
    var e := Left(d);
    assert e.end.row == d.start.row + |d.lines| - 1;
    assert e.start.row == d.start.row + |d.lines| - |e.lines|;
    assert e.start.row < |Applied(t, d)|;
    AppliedCount(u, Inverse(e));
  }

  lemma RevertWhole(t: Text, d: Delta, u: Text)
    requires WellFormed(t, d) && !IsLarge(d) && Applicable(t, d) && |u| >= |Applied(t, d)|
    ensures Applicable(u, Inverse(d))
    ensures |Applied(u, Inverse(d))| - |t| >= |u| - |Applied(t, d)|
    ensures u == Applied(t, d) && !Undoable(t, d) ==> |Applied(u, Inverse(d))| > |t|
  {
    AppliedCount(t, d);
    if d.action.Remove? {
      BetweenCut(t, d.start, d.end);
      assert |d.lines| == d.end.row - d.start.row + 1;
    }
    AppliedCount(u, Inverse(d));
  }

  // ---------------------------------------------------------------- whole runs

  /** `revertDeltas` from the last delta of the list to the first. */
  predicate Revertible(t: Text, ds: seq<Delta>)
    decreases |ds|, 0
  {
    ds == [] || (Revertible(t, ds[1..]) && Applicable(RevertRun(t, ds[1..]), Inverse(ds[0])))
  }

  function RevertRun(t: Text, ds: seq<Delta>): Text
    requires Revertible(t, ds)
    decreases |ds|, 1
  {
    if ds == [] then t else Applied(RevertRun(t, ds[1..]), Inverse(ds[0]))
  }

  /** The delta objects of a run as `applyDeltas` leaves them. */
  function LeftAll(ds: seq<Delta>): (es: seq<Delta>)
    ensures |es| == |ds|
  {
    if ds == [] then [] else [Left(ds[0])] + LeftAll(ds[1..])
  }

  predicate AllUndoable(t: Text, ds: seq<Delta>)
    requires WellFormedRun(t, ds)
    decreases |ds|
  {
    ds == [] || (Undoable(t, ds[0]) && AllUndoable(Applied(t, ds[0]), ds[1..]))
  }

  lemma {:induction false} UndoCounts(t: Text, ds: seq<Delta>)
    requires WellFormedRun(t, ds)
    ensures ApplicableRun(t, ds) && Revertible(ApplyRun(t, ds), LeftAll(ds))
    ensures var u := RevertRun(ApplyRun(t, ds), LeftAll(ds));
            if AllUndoable(t, ds) then u == t else |u| > |t|
    decreases |ds|
  {
    if ds == [] {
    } else {
      var d, rest := ds[0], ds[1..];
      var t1 := Applied(t, d);
      UndoCounts(t1, rest);
      var end := ApplyRun(t1, rest);
      assert LeftAll(ds)[1..] == LeftAll(rest);
      assert ApplyRun(t, ds) == end;
      var u := RevertRun(end, LeftAll(rest));
      RevertKeepsExcess(t, d, u);
      UndoOne(t, d);
    }
  }

  /**
   Undo over whole runs: for every run of well-formed deltas, `revertDeltas` after
   `applyDeltas` can be carried out, and it restores the original lines exactly
   when every delta of the run was undoable where it was applied.
   */
  lemma UndoRun(t: Text, ds: seq<Delta>)
    requires WellFormedRun(t, ds)
    ensures ApplicableRun(t, ds) && Revertible(ApplyRun(t, ds), LeftAll(ds))
    ensures RevertRun(ApplyRun(t, ds), LeftAll(ds)) == t <==> AllUndoable(t, ds)
  {
    UndoCounts(t, ds);
  }

  // ------------------------------------------------------------- how it fails

  /** Inserted into an empty document, twice 19999 lines leave a stray line, and cannot be taken out again. */
  lemma StrayInsertion(lines: Text)
    requires |lines| == 39998
    ensures var d := Delta(Insert, Point(0, 0), Advance(Point(0, 0), lines), lines);
            && WellFormed([""], d) && Stray([""], d) && !Undoable([""], d)
            && Applicable([""], d) && Applied([""], d) == lines + ["undefined"]
            && Applicable(Applied([""], d), Inverse(Left(d))) && Applied(Applied([""], d), Inverse(Left(d))) != [""]
  {
    hide Applied, Applicable, Edited;
    var d := Delta(Insert, Point(0, 0), Advance(Point(0, 0), lines), lines);
    AppliedIsEdited([""], d);
    UndoOne([""], d);
    IntoEmpty(d);
  }

  lemma IntoEmpty(d: Delta)
    requires WellFormed([""], d) && d.action.Insert? && d.start == Point(0, 0)
    ensures Edited([""], d) == d.lines
  {
    var t: Text := [""];
    assert t[0][..0] == "" && t[0][0..] == "";
    assert Before(t, d.start) == [""] && After(t, d.start) == [""];
    MergeUnit(d.lines);
  }

  /** A removal of twice 19999 lines up to the last row cannot be undone either. */
  lemma StrayRemoval(t: Text)
    requires |t| == 39998
    ensures var d := Delta(Remove, Point(0, 0), End(t), Between(t, Point(0, 0), End(t)));
            && WellFormed(t, d) && !Undoable(t, d)
            && Applicable(t, d) && Applicable(Applied(t, d), Inverse(Left(d))) && Applied(Applied(t, d), Inverse(Left(d))) != t
  {
    hide Applied, Applicable;
    UndoOne(t, Delta(Remove, Point(0, 0), End(t), Between(t, Point(0, 0), End(t))));
  }
}
