/**
 The document class: a mutable list of lines, anchors that listen to its change
 events, and the log of those events as every other listener sees it.
 */
module Document {
  import opened Lines
  import opened Deltas
  import opened Newlines
  import opened Runs
  import opened Arithmetic
  import opened Ranges
  import opened Undo
  import opened Limits

  /** A position that follows the text. */
  class Anchor {
    var row: int
    var column: int
    var insertRight: bool

    function Pos(): Point
      reads this
    {
      Point(row, column)
    }

    constructor (t: Text, row: int, column: int, insertRight: bool)
      ensures Pos() == ClipAnchor(t, row, column) && this.insertRight == insertRight
    {
      var p := ClipAnchor(t, row, column);
      this.row, this.column, this.insertRight := p.row, p.column, insertRight;
    }

    /** The listener for change events: the row filter, then the transform. */
    method OnChange(d: Delta)
      modifies this`row, this`column
      ensures Pos() == AnchorAfter(d, old(Pos()), insertRight)
    {
      if (d.start.row == d.end.row && d.start.row != row) || d.start.row > row {
        return;
      }
      var p := TransformedPoint(d, Point(row, column), insertRight);
      row, column := p.row, p.column;
    }
  }

  class Document {
    var lines: Text
    var newLineMode: string
    var autoNewLine: string
    /** The anchors attached to the document, in the order they listen. */
    var anchors: seq<Anchor>
    /** The change events signalled so far. */
    var changes: seq<Delta>

    ghost predicate Valid()
      reads this
    {
      forall i, j :: 0 <= i < j < |anchors| ==> anchors[i] != anchors[j]
    }

    /** Every anchor is at a position of the text. */
    ghost predicate AnchorsInText()
      reads this, anchors
    {
      forall i :: 0 <= i < |anchors| ==> ValidPos(lines, anchors[i].Pos())
    }

    /** Where the anchors are, and on which side of an insertion they stay. */
    ghost function Positions(): (ps: seq<Point>)
      reads this, anchors
      ensures |ps| == |anchors| && forall i :: 0 <= i < |anchors| ==> ps[i] == anchors[i].Pos()
    {
      seq(|anchors|, i requires 0 <= i < |anchors| reads this, anchors => anchors[i].Pos())
    }

    ghost function Sides(): (rs: seq<bool>)
      reads this, anchors
      ensures |rs| == |anchors| && forall i :: 0 <= i < |anchors| ==> rs[i] == anchors[i].insertRight
    {
      seq(|anchors|, i requires 0 <= i < |anchors| reads this, anchors => anchors[i].insertRight)
    }

    /** Since the log was `before`, every anchor has heard exactly the events that were added to it. */
    ghost predicate Followed(before: seq<Delta>, was: seq<Point>, sides: seq<bool>)
      reads this, anchors
    {
      && |before| <= |changes| && changes[..|before|] == before && |was| == |sides| == |anchors|
      && forall i :: 0 <= i < |anchors| ==>
           && anchors[i].insertRight == sides[i]
           && anchors[i].Pos() == FoldAnchor(changes[|before|..], was[i], sides[i])
    }

    lemma FollowedNothing()
      ensures Followed(changes, Positions(), Sides())
    {
    }

    lemma FollowedEvents(before: seq<Delta>, es: seq<Delta>, was: seq<Point>, sides: seq<bool>)
      requires changes == before + es && |was| == |sides| == |anchors|
      requires forall i :: 0 <= i < |anchors| ==>
                 anchors[i].insertRight == sides[i] && anchors[i].Pos() == FoldAnchor(es, was[i], sides[i])
      ensures Followed(before, was, sides)
    {
      hide FoldAnchor;
      assert changes[|before|..] == es;
    }

    /** Following first to a log `mid` and then on is following all the way. */
    lemma FollowedOn(before: seq<Delta>, was: seq<Point>, sides: seq<bool>, mid: seq<Delta>, at: seq<Point>)
      requires |before| <= |mid| && mid[..|before|] == before && |was| == |sides| == |at|
      requires forall i :: 0 <= i < |at| ==> at[i] == FoldAnchor(mid[|before|..], was[i], sides[i])
      requires Followed(mid, at, sides)
      ensures Followed(before, was, sides)
    {
      hide FoldAnchor;
      var es, fs := mid[|before|..], changes[|mid|..];
      assert changes == mid + fs && mid == before + es;
      assert changes[|before|..] == es + fs;
      forall i | 0 <= i < |anchors|
        ensures anchors[i].Pos() == FoldAnchor(es + fs, was[i], sides[i])
      {
        FoldAnchorConcat(es, fs, was[i], sides[i]);
      }
    }

    /** The positions reached, for going on from there. */
    lemma FollowedAt(before: seq<Delta>, was: seq<Point>, sides: seq<bool>)
      requires Followed(before, was, sides)
      ensures |before| <= |changes| && changes[..|before|] == before && Sides() == sides && |Positions()| == |was| == |sides|
      ensures forall i :: 0 <= i < |was| ==> Positions()[i] == FoldAnchor(changes[|before|..], was[i], sides[i])
    {
      hide FoldAnchor;
      assert Sides() == sides;
    }

    // ------------------------------------------------------------ construction

    /** `new Document(text)` */
    constructor FromText(text: string)
      ensures Valid() && anchors == []
      ensures newLineMode == "auto"
      ensures |Split(text)| <= 20000 ==> lines == Split(text)
      ensures lines == Split(text) + if StrayInsert(1, 0, Split(text)) then ["undefined"] else []
      ensures autoNewLine == if text == "" then "" else FirstBreak(text)
    {
      hide Split, FirstBreak, StrayInsert, WithInserted, Followed, FoldAnchor, Events, InsertDelta;
      lines, newLineMode, autoNewLine, anchors, changes := [""], "auto", "", [], [];
      new;
      StrayInNumbers(1, 0, Split(text));
      assert Split(text) + [] == Split(text);
      if |text| != 0 {
        var _ := Insert(Point(0, 0), text);
        WholeInsert(Split(text));
      } else {
        EmptyText(text);
      }
    }

    /** `new Document(lines)`; an empty array makes the empty document. */
    constructor FromLines(textLines: seq<string>)
      ensures Valid() && anchors == []
      ensures |textLines| == 0 ==> lines == [""]
      ensures |textLines| > 0 ==>
                lines == textLines + if StrayInsert(1, 0, textLines) then ["undefined"] else []
    {
      hide StrayInsert, WithInserted, Followed, FoldAnchor, Events, InsertDelta;
      lines, newLineMode, autoNewLine, anchors, changes := [""], "auto", "", [], [];
      new;
      if |textLines| != 0 {
        var _ := InsertMergedLines(Point(0, 0), textLines);
        WholeInsert(textLines);
      }
    }

    method CreateAnchor(row: int, column: int, insertRight: bool) returns (a: Anchor)
      requires Valid()
      modifies this`anchors
      ensures Valid() && fresh(a) && anchors == old(anchors) + [a]
      ensures a.Pos() == ClipAnchor(lines, row, column) && a.insertRight == insertRight
    {
      a := new Anchor(lines, row, column, insertRight);
      anchors := anchors + [a];
    }

    // ---------------------------------------------------------------- newlines

    function NewLineCharacter(): (nl: string)
      reads this
      ensures newLineMode == "windows" ==> nl == "\r\n"
      ensures newLineMode == "unix" ==> nl == "\n"
      ensures newLineMode != "windows" && newLineMode != "unix" ==> nl == if autoNewLine == "" then "\n" else autoNewLine
      ensures |nl| >= 1
    {
      if newLineMode == "windows" then "\r\n"
      else if newLineMode == "unix" then "\n"
      else if autoNewLine == "" then "\n" else autoNewLine
    }

    /** `$detectNewLine`: the first line break of the text, "\n" if it has none. */
    method DetectNewLine(text: string)
      modifies this`autoNewLine
      ensures autoNewLine == FirstBreak(text)
    {
      autoNewLine := FirstBreak(text);
    }

    // --------------------------------------------------------- applying deltas

    /** `_signal("change", delta)`: every anchor hears the event once. */
    method Signal(d: Delta)
      requires Valid()
      modifies this`changes, anchors
      ensures changes == old(changes) + [d]
      ensures forall i :: 0 <= i < |anchors| ==>
                && anchors[i].insertRight == old(anchors[i].insertRight)
                && anchors[i].Pos() == AnchorAfter(d, old(anchors[i].Pos()), anchors[i].insertRight)
    {
      changes := changes + [d];
      for k := 0 to |anchors|
        invariant changes == old(changes) + [d]
        invariant forall i :: 0 <= i < |anchors| ==> anchors[i].insertRight == old(anchors[i].insertRight)
        invariant forall i :: 0 <= i < k ==>
                    anchors[i].Pos() == AnchorAfter(d, old(anchors[i].Pos()), anchors[i].insertRight)
        invariant forall i :: k <= i < |anchors| ==> anchors[i].Pos() == old(anchors[i].Pos())
      {
        anchors[k].OnChange(d);
      }
    }

    /** The end of `applyDelta`: the lines are changed, and the listeners hear of it. */
    method Perform(d: Delta)
      requires Valid() && RawOk(lines, d)
      modifies this`lines, this`changes, anchors
      ensures lines == Raw(old(lines), d) && changes == old(changes) + [d]
      ensures forall i :: 0 <= i < |anchors| ==>
                && anchors[i].insertRight == old(anchors[i].insertRight)
                && anchors[i].Pos() == AnchorAfter(d, old(anchors[i].Pos()), anchors[i].insertRight)
    {
      hide Raw, RawOk, AnchorAfter;
      lines := ApplyToLines(lines, d);
      Signal(d);
    }

    /** `applyDelta`.  `left` is the delta object as the call leaves it. */
    method ApplyDelta(d: Delta) returns (left: Delta)
      requires Valid() && Applicable(lines, d)
      modifies this`lines, this`changes, anchors
      ensures lines == Applied(old(lines), d)
      ensures left == Left(d)
      ensures changes == old(changes) + Events(d)
      ensures WellFormed(old(lines), d) && |d.lines| <= 20000 ==>
                && lines == Edited(old(lines), d) && left == d
                && changes == old(changes) + if d.lines == [""] && (d.action.Insert? || d.start == d.end) then [] else [d]
      ensures forall i :: 0 <= i < |anchors| ==>
                && anchors[i].insertRight == old(anchors[i].insertRight)
                && anchors[i].Pos() == FoldAnchor(Events(d), old(anchors[i].Pos()), anchors[i].insertRight)
      decreases |d.lines|, 2
    {
      hide Raw, RawOk, Divides, AnchorAfter, RawRun, FoldRaw, FoldAnchor, Events, Left, ChunkEvents, WellFormed, Edited;
      InNumbers(lines, d);
      EventsOf(d);
      left := d;
      if (if d.action.Insert? then |d.lines| <= 1 && (|d.lines| == 0 || d.lines[0] == "") else d.start == d.end) {
        EmptyRun(lines);
        return;
      }
      ghost var init := Events(d)[..|Events(d)| - 1];
      left := ApplyAllButLast(d);
      RawRunPrefix(old(lines), init, left);
      RawRunSnoc(old(lines), init, left);
      Perform(left);
      Appended(old(changes), init, left, Events(d));
      forall i | 0 <= i < |anchors|
        ensures anchors[i].insertRight == old(anchors[i].insertRight)
        ensures anchors[i].Pos() == FoldAnchor(Events(d), old(anchors[i].Pos()), anchors[i].insertRight)
      {
        LastEvent(init, left, old(anchors[i].Pos()), anchors[i].insertRight);
      }
    }

    /** The branch for large insertions; what is left is still to be applied. */
    method ApplyAllButLast(d: Delta) returns (left: Delta)
      requires Valid() && Applicable(lines, d) && !NoOp(d)
      modifies this`lines, this`changes, anchors
      ensures Events(d) != [] && left == Left(d) == Events(d)[|Events(d)| - 1]
      ensures var init := Events(d)[..|Events(d)| - 1];
              && Events(d) == init + [left]
              && RawRun(old(lines), init) && lines == FoldRaw(old(lines), init)
              && changes == old(changes) + init
              && forall i :: 0 <= i < |anchors| ==>
                   && anchors[i].insertRight == old(anchors[i].insertRight)
                   && anchors[i].Pos() == FoldAnchor(init, old(anchors[i].Pos()), anchors[i].insertRight)
      decreases |d.lines|, 1
    {
      hide RawRun, FoldRaw, FoldAnchor, Events, Left, ChunkEvents, NoOp;
      EventsOf(d);
      left := d;
      if d.action.Insert? && |d.lines| > LARGE {
        left := SplitAndApplyLargeDelta(d, LARGE);
      } else {
        EmptyRun(lines);
      }
    }

    /** `applyDelta` once more, as the other operations use it: every anchor hears the events. */
    method FollowDelta(d: Delta) returns (left: Delta)
      requires Valid() && Applicable(lines, d)
      modifies this`lines, this`changes, anchors
      ensures lines == Applied(old(lines), d) && left == Left(d) && changes == old(changes) + Events(d)
      ensures forall i :: 0 <= i < |anchors| ==>
                && anchors[i].insertRight == old(anchors[i].insertRight)
                && anchors[i].Pos() == FoldAnchor(Events(d), old(anchors[i].Pos()), anchors[i].insertRight)
      ensures Followed(old(changes), old(Positions()), old(Sides()))
    {
      hide Raw, RawOk, Applicable, Applied, Events, Left, FoldAnchor, WellFormed, Edited;
      left := ApplyDelta(d);
      FollowedEvents(old(changes), Events(d), old(Positions()), old(Sides()));
    }

    /** `$splitAndapplyLargeDelta`: applies all chunks but the last, which it returns. */
    method SplitAndApplyLargeDelta(d: Delta, max: nat) returns (left: Delta)
      requires Valid() && 2 <= max <= LARGE && d.action.Insert? && |d.lines| > max
      requires RawRun(lines, ChunkEvents(d, max, 0))
      modifies this`lines, this`changes, anchors
      ensures var es := ChunkEvents(d, max, 0);
              var init := es[..|es| - 1];
              && es == init + [left]
              && RawRun(old(lines), init) && lines == FoldRaw(old(lines), init)
              && changes == old(changes) + init
              && forall i :: 0 <= i < |anchors| ==>
                   && anchors[i].insertRight == old(anchors[i].insertRight)
                   && anchors[i].Pos() == FoldAnchor(init, old(anchors[i].Pos()), anchors[i].insertRight)
      decreases |d.lines|, 0
    {
      hide Raw, RawOk, RawRun, FoldRaw, FoldAnchor, Events, Applicable, Applied, Divides, Left, ChunkEvents, AnchorAfter;
      ChunkEventsSome(d, max, 0);
      var l, row, column := |d.lines|, d.start.row, d.start.column;
      var from, to := 0, 0;
      ghost var done: seq<Delta> := [];
      EmptyRun(lines);
      while true
        invariant 0 <= to <= l && column == ChunkColumn(d, to)
        invariant done + ChunkEvents(d, max, to) == ChunkEvents(d, max, 0)
        invariant RawRun(old(lines), done) && lines == FoldRaw(old(lines), done)
        invariant changes == old(changes) + done
        invariant forall i :: 0 <= i < |anchors| ==>
                    && anchors[i].insertRight == old(anchors[i].insertRight)
                    && anchors[i].Pos() == FoldAnchor(done, old(anchors[i].Pos()), anchors[i].insertRight)
        decreases l - to
      {
        from := to;
        to := to + max - 1;
        var chunk := d.lines[from..Min(to, l)];
        if to > l {
          left := Delta(d.action, Point(row + from, column), d.end, chunk);
          ChunkEventsLast(d, max, from);
          assert chunk == d.lines[from..];
          InitOf(done, left);
          break;
        }
        chunk := chunk + [""];
        var start := Point(row + from, column);
        column := 0;
        var piece := Delta(d.action, start, Point(row + to, column), chunk);
        assert chunk == d.lines[from..to] + [""];
        ChunkEventsNext(d, max, from);
        RawRunMiddle(old(lines), done, piece, ChunkEvents(d, max, to));
        ApplyPiece(piece);
        RawRunSnoc(old(lines), done, piece);
        forall i | 0 <= i < |anchors|
          ensures anchors[i].insertRight == old(anchors[i].insertRight)
          ensures anchors[i].Pos() == FoldAnchor(done + [piece], old(anchors[i].Pos()), anchors[i].insertRight)
        {
          LastEvent(done, piece, old(anchors[i].Pos()), anchors[i].insertRight);
        }
        Appended(old(changes), done, piece, done + [piece]);
        Moved(done, piece, ChunkEvents(d, max, to));
        done := done + [piece];
      }
    }

    /** One chunk goes through `applyDelta` as a single event. */
    method ApplyPiece(piece: Delta)
      requires Valid() && RawOk(lines, piece) && piece.action.Insert? && 2 <= |piece.lines| <= LARGE
      modifies this`lines, this`changes, anchors
      ensures lines == Raw(old(lines), piece) && changes == old(changes) + [piece]
      ensures forall i :: 0 <= i < |anchors| ==>
                && anchors[i].insertRight == old(anchors[i].insertRight)
                && anchors[i].Pos() == AnchorAfter(piece, old(anchors[i].Pos()), anchors[i].insertRight)
      decreases |piece.lines|, 3
    {
      hide Raw, RawOk, FoldAnchor, Events, Applicable, Applied, Left, AnchorAfter;
      PieceEvents(lines, piece);
      var _ := ApplyDelta(piece);
      OneEvent(piece);
    }

    /** `revertDelta`: applies the delta with its action turned round. */
    method RevertDelta(d: Delta)
      requires Valid() && Applicable(lines, Inverse(d))
      modifies this`lines, this`changes, anchors
      ensures lines == Applied(old(lines), Inverse(d)) && changes == old(changes) + Events(Inverse(d))
      ensures Followed(old(changes), old(Positions()), old(Sides()))
    {
      hide Raw, RawOk, Applicable, Applied, Events;
      var _ := FollowDelta(Delta(if d.action.Insert? then Action.Remove else Action.Insert, d.start, d.end, d.lines));
    }

    /** `applyDeltas`; `left` are the delta objects as the calls leave them. */
    method ApplyDeltas(ds: seq<Delta>) returns (left: seq<Delta>)
      requires Valid() && ApplicableRun(lines, ds)
      modifies this`lines, this`changes, anchors
      ensures lines == ApplyRun(old(lines), ds)
      ensures left == LeftAll(ds)
      ensures changes == old(changes) + RunEvents(ds)
      ensures Followed(old(changes), old(Positions()), old(Sides()))
    {
      hide Raw, RawOk, Applicable, Applied, Left, ApplyRun, ApplicableRun, LeftAll, RunEvents, Events, FoldAnchor, Followed;
      assert ds[0..] == ds;
      RunEnd(ds);
      left := [];
      FollowedNothing();
      for i := 0 to |ds|
        invariant Followed(old(changes), old(Positions()), old(Sides()))
        invariant ApplicableRun(lines, ds[i..]) && ApplyRun(lines, ds[i..]) == ApplyRun(old(lines), ds)
        invariant left + LeftAll(ds[i..]) == LeftAll(ds)
        invariant changes + RunEvents(ds[i..]) == old(changes) + RunEvents(ds)
      {
        RunStep(lines, ds, i);
        FollowedAt(old(changes), old(Positions()), old(Sides()));
        ghost var mid, at := changes, Positions();
        var d := FollowDelta(ds[i]);
        FollowedOn(old(changes), old(Positions()), old(Sides()), mid, at);
        left := left + [d];
      }
    }

    /** `revertDeltas`: from the last delta to the first. */
    method RevertDeltas(ds: seq<Delta>)
      requires Valid() && Revertible(lines, ds)
      modifies this`lines, this`changes, anchors
      ensures lines == RevertRun(old(lines), ds) && changes == old(changes) + RevertEvents(ds)
      ensures Followed(old(changes), old(Positions()), old(Sides()))
    {
      hide Raw, RawOk, Applicable, Applied, Followed, Events, FoldAnchor;
      assert ds[0..] == ds;
      var i := |ds| - 1;
      RevertibleSuffix(lines, ds, |ds|);
      FollowedNothing();
      assert old(changes) + [] == old(changes);
      while i >= 0
        invariant -1 <= i < |ds|
        invariant Revertible(old(lines), ds[i + 1..]) && lines == RevertRun(old(lines), ds[i + 1..])
        invariant changes == old(changes) + RevertEvents(ds[i + 1..])
        invariant Followed(old(changes), old(Positions()), old(Sides()))
      {
        assert ds[i..][0] == ds[i] && ds[i..][1..] == ds[i + 1..];
        RevertibleSuffix(old(lines), ds, i);
        FollowedAt(old(changes), old(Positions()), old(Sides()));
        ghost var mid, at := changes, Positions();
        RevertDelta(ds[i]);
        FollowedOn(old(changes), old(Positions()), old(Sides()), mid, at);
        i := i - 1;
      }
    }

    /**
     Undo on the object itself: applying a run and reverting the delta objects it
     leaves restores the lines exactly when every delta was undoable.
     */
    method ApplyAndRevert(ds: seq<Delta>)
      requires Valid() && WellFormedRun(lines, ds)
      modifies this`lines, this`changes, anchors
      ensures lines == old(lines) <==> AllUndoable(old(lines), ds)
    {
      UndoRun(lines, ds);
      var left := ApplyDeltas(ds);
      RevertDeltas(left);
    }

    // ------------------------------------------------------------------- edits

    /** `insertMergedLines`: inserts lines at the clipped position, the first and last merged with their neighbours. */
    method InsertMergedLines(position: Point, newLines: Text) returns (end: Point)
      requires Valid()
      modifies this`lines, this`changes, anchors
      ensures var start := Clip(old(lines), position.row, position.column);
              && lines == WithInserted(old(lines), start, newLines)
                        + (if StrayInsert(|old(lines)|, start.row, newLines) then ["undefined"] else [])
              && end == Advance(start, newLines)
      ensures changes == old(changes) + Events(InsertDelta(old(lines), position, newLines))
      ensures old(AnchorsInText()) ==> AnchorsInText()
      ensures Followed(old(changes), old(Positions()), old(Sides()))
    {
      hide Followed, Raw, RawOk, Merge, Before, After, Applied, Applicable, Events, FoldAnchor, Divides;
      var start := Clip(lines, position.row, position.column);
      end := Point(start.row + |newLines| - 1, (if |newLines| == 1 then start.column else 0) + |Last(newLines)|);
      ghost var d := InsertDelta(lines, position, newLines);
      InsertEffect(lines, position, newLines);
      InsertDeltaWellFormed(lines, position, newLines);
      ghost var was := lines;
      label before:
      var _ := FollowDelta(Delta(Action.Insert, start, end, newLines));
      assert lines == Applied(was, d);
      if old(AnchorsInText()) {
        forall i | 0 <= i < |anchors|
          ensures ValidPos(lines, anchors[i].Pos())
        {
          AnchorThroughApply(was, d, old(anchors[i].Pos()), anchors[i].insertRight, "\n");
        }
      }
    }

    /** `insert` */
    method Insert(position: Point, text: string) returns (end: Point)
      requires Valid()
      modifies this`lines, this`changes, this`autoNewLine, anchors
      ensures var start := Clip(old(lines), position.row, position.column);
              && lines == WithInserted(old(lines), start, Split(text))
                        + (if StrayInsert(|old(lines)|, start.row, Split(text)) then ["undefined"] else [])
              && end == Advance(start, Split(text))
      ensures autoNewLine == if |old(lines)| <= 1 then FirstBreak(text) else old(autoNewLine)
      ensures changes == old(changes) + Events(InsertDelta(old(lines), position, Split(text)))
      ensures old(AnchorsInText()) ==> AnchorsInText()
      ensures Followed(old(changes), old(Positions()), old(Sides()))
    {
      hide Followed, FoldAnchor, InsertDelta, WithInserted, Split, FirstBreak, StrayInsert, Clip, Divides, Events;
      if |lines| <= 1 {
        DetectNewLine(text);
      }
      assert Positions() == old(Positions()) && Sides() == old(Sides());
      end := InsertMergedLines(position, Split(text));
    }

    /** `remove`.  Without the order of the clipped ends the lines are still given exactly. */
    method Remove(from: Point, to: Point) returns (start: Point)
      requires Valid()
      modifies this`lines, this`changes, anchors
      ensures var d := RemoveDelta(old(lines), from, to);
              && Applicable(old(lines), d) && lines == Applied(old(lines), d)
              && changes == old(changes) + Events(d)
              && start == d.start
              && (Leq(d.start, d.end) ==> lines == WithRemoved(old(lines), d.start, d.end))
              && (Leq(d.start, d.end) && old(AnchorsInText()) ==> AnchorsInText())
      ensures Followed(old(changes), old(Positions()), old(Sides()))
    {
      hide Followed, Raw, RawOk, Merge, Before, After, Between, Applied, Applicable, Events, FoldAnchor, LinesForRange;
      ghost var was := lines;
      start := Clip(lines, from.row, from.column);
      var end := Clip(lines, to.row, to.column);
      ghost var d := RemoveDelta(lines, from, to);
      RemoveDeltaApplicable(lines, from, to);
      if Leq(start, end) {
        RemoveEffect(lines, from, to);
      }
      var _ := FollowDelta(Delta(Action.Remove, start, end, LinesForRange(lines, start, end)));
      if Leq(start, end) && old(AnchorsInText()) {
        forall i | 0 <= i < |anchors|
          ensures ValidPos(lines, anchors[i].Pos())
        {
          AnchorThroughApply(was, d, old(anchors[i].Pos()), anchors[i].insertRight, "\n");
        }
      }
    }

    /** `insertFullLines`: whole lines before a row, or after the last one. */
    method InsertFullLines(row: int, newLines: seq<string>)
      requires Valid()
      modifies this`lines, this`changes, anchors
      ensures var r := Min(Max(row, 0), |old(lines)|);
              var block := if r < |old(lines)| then newLines + [""] else [""] + newLines;
              lines == old(lines)[..r] + newLines + old(lines)[r..]
                     + if StrayInsert(|old(lines)|, Min(r, |old(lines)| - 1), block) then ["undefined"] else []
      ensures old(AnchorsInText()) ==> AnchorsInText()
      ensures Followed(old(changes), old(Positions()), old(Sides()))
    {
      hide Followed, FoldAnchor, Events, Merge, Before, After, Divides;
      var r := Min(Max(row, 0), |lines|);
      var column := 0;
      var block;
      if |lines| > r {
        block := newLines + [""];
        InsertBeforeRow(lines, r, newLines);
      } else {
        block := [""] + newLines;
        r := r - 1;
        column := |lines[r]|;
        InsertAfterLast(lines, newLines);
        assert lines[..r + 1] == lines && lines[r + 1..] == [];
        assert lines + newLines + [] == lines + newLines;
      }
      var _ := InsertMergedLines(Point(r, column), block);
    }

    /** `removeFullLines`: whole lines from `firstRow` to `lastRow`; the document keeps at least one line. */
    method RemoveFullLines(firstRow: int, lastRow: int) returns (deleted: seq<string>)
      requires Valid()
      modifies this`lines, this`changes, anchors
      ensures var n := |old(lines)|;
              var f, l := Min(Max(0, firstRow), n - 1), Min(Max(0, lastRow), n - 1);
              && (f <= l ==> deleted == old(lines)[f..l + 1])
              && (f <= l && l - f + 1 < n ==> lines == old(lines)[..f] + old(lines)[l + 1..])
              && (l - f + 1 == n ==> lines == [""])
              && (l < f ==> deleted == [])
              && (l + 1 == f ==> lines == old(lines))
              && (l + 1 < f ==> lines == old(lines)[..f] + [old(lines)[l + 1]] + old(lines)[f..])
      ensures Followed(old(changes), old(Positions()), old(Sides()))
    {
      hide Followed, FoldAnchor, Events, Left;
      var n := |lines|;
      var first := Min(Max(0, firstRow), n - 1);
      var last := Min(Max(0, lastRow), n - 1);
      var deleteFirstNewLine := last == n - 1 && first > 0;
      var deleteLastNewLine := last < n - 1;
      var startRow := if deleteFirstNewLine then first - 1 else first;
      var startCol := if deleteFirstNewLine then |GetLine(lines, startRow)| else 0;
      var endRow := if deleteLastNewLine then last + 1 else last;
      var endCol := if deleteLastNewLine then 0 else |GetLine(lines, endRow)|;
      deleted := Slice(lines, first, last + 1);
      var from, to := Point(startRow, startCol), Point(endRow, endCol);
      RemoveFullEffect(lines, first, last, from, to);
      hide Applied, Applicable, Slice, LinesForRange, GetLine;
      var _ := FollowDelta(Delta(Action.Remove, from, to, LinesForRange(lines, from, to)));
    }

    /** `removeNewLine`: joins a row with the next one, if there is one. */
    method RemoveNewLine(row: int)
      requires Valid()
      modifies this`lines, this`changes, anchors
      ensures 0 <= row < |old(lines)| - 1 ==>
                lines == old(lines)[..row] + [old(lines)[row] + old(lines)[row + 1]] + old(lines)[row + 2..]
      ensures !(0 <= row < |old(lines)| - 1) ==> lines == old(lines) && changes == old(changes)
      ensures Followed(old(changes), old(Positions()), old(Sides()))
    {
      FollowedNothing();
      if |lines| - 1 > row && row >= 0 {
        var d := Delta(Action.Remove, Point(row, |GetLine(lines, row)|), Point(row + 1, 0), ["", ""]);
        var line, next := lines[row], lines[row + 1];
        assert line[..|line|] == line && next[0..] == next;
        RawRunOne(lines, d);
        var _ := FollowDelta(d);
      }
    }

    method SetValue(text: string)
      requires Valid()
      modifies this`lines, this`changes, this`autoNewLine, anchors
      ensures |Split(text)| <= 20000 ==> lines == Split(text)
      ensures lines == Split(text) + if StrayInsert(1, 0, Split(text)) then ["undefined"] else []
      ensures autoNewLine == FirstBreak(text)
      ensures Followed(old(changes), old(Positions()), old(Sides()))
    {
      hide Applied, Applicable, Divides, Followed, FoldAnchor, Events;
      var len := |lines| - 1;
      RemoveRows(lines, 0, len);
      var _ := Remove(Point(0, 0), Point(len, |GetLine(lines, len)|));
      assert lines == [""];
      FollowedAt(old(changes), old(Positions()), old(Sides()));
      ghost var mid, at := changes, Positions();
      var _ := Insert(Point(0, 0), text);
      FollowedOn(old(changes), old(Positions()), old(Sides()), mid, at);
      WholeInsert(Split(text));
      StrayInNumbers(1, 0, Split(text));
      assert Split(text) + [] == Split(text);
    }

    method GetValue() returns (text: string)
      ensures text == Join(lines, NewLineCharacter())
    {
      assert Slice(lines, 0, |lines| + 1) == lines;
      text := Join(Slice(lines, 0, |lines| + 1), NewLineCharacter());
    }

    /**
     A text that is set and read again in the automatic newline mode comes back exactly
     when all its line breaks are the same, unless the lines are so many that a stray
     one is left.
     */
    method SetThenGet(text: string) returns (value: string)
      requires Valid() && newLineMode == "auto" && !StrayInsert(1, 0, Split(text))
      modifies this`lines, this`changes, this`autoNewLine, anchors
      ensures value == text <==> forall b, c :: b in Breaks(text) && c in Breaks(text) ==> b == c
    {
      SetValue(text);
      value := GetValue();
      assert Split(text) + [] == Split(text);
      SplitJoin(text, FirstBreak(text));
      if Breaks(text) != [] {
        assert Breaks(text)[0] in Breaks(text);
      }
    }

    /**
     `replace`, for any two points.  Three outcomes: nothing to do, a removal, or a removal
     and an insertion.  The insertion is clipped against the text after the removal.
     */
    method Replace(from: Point, to: Point, text: string) returns (end: Point)
      requires Valid()
      modifies this`lines, this`changes, this`autoNewLine, anchors
      ensures var was, d := old(lines), RemoveDelta(old(lines), from, to);
              && Applicable(was, d)
              && var cut := Applied(was, d);
                 var at := Clip(cut, from.row, from.column);
                 && (Leq(d.start, d.end) ==> cut == WithRemoved(was, d.start, d.end))
                 && if text == "" && from == to then lines == was && end == from
                    else if text == Join(LinesForRange(was, from, to), old(NewLineCharacter())) then lines == was && end == to
                    else if text == "" then lines == cut && end == from
                    else
                      && lines == WithInserted(cut, at, Split(text))
                                + (if StrayInsert(|cut|, at.row, Split(text)) then ["undefined"] else [])
                      && end == Advance(at, Split(text))
      ensures old(AnchorsInText()) && Leq(Clip(old(lines), from.row, from.column), Clip(old(lines), to.row, to.column)) ==>
                AnchorsInText()
      ensures Followed(old(changes), old(Positions()), old(Sides()))
    {
      hide Applied, Applicable, Divides, Merge, Before, After, LinesForRange, Followed, FoldAnchor, Events;
      FollowedNothing();
      RemoveDeltaApplicable(lines, from, to);
      if Leq(Clip(lines, from.row, from.column), Clip(lines, to.row, to.column)) {
        RemoveEffect(lines, from, to);
      }
      if |text| == 0 && from == to {
        return from;
      }
      if text == Join(LinesForRange(lines, from, to), NewLineCharacter()) {
        return to;
      }
      var _ := Remove(from, to);
      FollowedAt(old(changes), old(Positions()), old(Sides()));
      ghost var mid, at := changes, Positions();
      if text != "" {
        end := Insert(from, text);
        FollowedOn(old(changes), old(Positions()), old(Sides()), mid, at);
      } else {
        end := from;
      }
    }

    // ------------------------------------------------- indices and positions

    /** `positionToIndex` */
    method PositionToIndex(pos: Point, startRow: nat) returns (index: int)
      ensures var row := Min(pos.row, |lines|);
              index == pos.column
                     + if row > startRow then RowStart(lines, row, |NewLineCharacter()|)
                                            - RowStart(lines, startRow, |NewLineCharacter()|) else 0
    {
      var newlineLength := |NewLineCharacter()|;
      index := 0;
      var row := Min(pos.row, |lines|);
      var i := startRow;
      while i < row
        invariant startRow <= i
        invariant startRow < row ==> i <= row <= |lines|
        invariant index == if startRow < row then RowStart(lines, i, newlineLength) - RowStart(lines, startRow, newlineLength) else 0
      {
        index := index + |lines[i]| + newlineLength;
        i := i + 1;
      }
      index := index + pos.column;
    }

    /** `indexToPosition` */
    method IndexToPosition(index: int, startRow: nat) returns (p: Point)
      ensures startRow < |lines| && index >= 0 ==>
                IsPositionAt(lines, RowStart(lines, startRow, |NewLineCharacter()|) + index, |NewLineCharacter()|, p)
      ensures startRow < |lines| && index < 0 ==> p == Point(startRow, index)
      ensures startRow >= |lines| ==> p == End(lines)
    {
      var newlineLength := |NewLineCharacter()|;
      var rest := index;
      var i, l := startRow, |lines|;
      while i < l
        invariant startRow <= i
        invariant startRow < l ==> i <= l && rest == index - (RowStart(lines, i, newlineLength) - RowStart(lines, startRow, newlineLength))
        invariant i > startRow ==> rest >= 0 && index >= 0
      {
        rest := rest - (|lines[i]| + newlineLength);
        if rest < 0 {
          if index >= 0 {
            RowStartMonotone(lines, i + 1, l, newlineLength);
          }
          return Point(i, rest + |lines[i]| + newlineLength);
        }
        i := i + 1;
      }
      p := Point(l - 1, |lines[l - 1]|);
    }

    /** A valid position survives the trip to its index and back. */
    method PositionRoundTrip(p: Point) returns (q: Point)
      requires ValidPos(lines, p)
      ensures q == p
    {
      var index := PositionToIndex(p, 0);
      q := IndexToPosition(index, 0);
      ValidIsPositionAt(lines, p, |NewLineCharacter()|);
      PositionAtUnique(lines, index, |NewLineCharacter()|, p, q);
    }
  }

  /** The events of `revertDeltas`. */
  function RevertEvents(ds: seq<Delta>): seq<Delta> {
    if ds == [] then [] else RevertEvents(ds[1..]) + Events(Inverse(ds[0]))
  }

  /** What `$detectNewLine` finds: the first line break, "\n" in a text without any. */
  function FirstBreak(text: string): string {
    var breaks := Breaks(text);
    if breaks == [] then "\n" else breaks[0]
  }

  /** The newline of a text is its first line break, and "\n" if it has none. */
  lemma FirstBreakMeans(text: string, i: nat)
    requires i <= |text| && '\r' !in text[..i] && '\n' !in text[..i]
    ensures i == |text| || text[i] == '\n' ==> FirstBreak(text) == "\n"
    ensures i < |text| && text[i] == '\r' ==>
              FirstBreak(text) == if i + 1 < |text| && text[i + 1] == '\n' then "\r\n" else "\r"
  {
    hide Breaks;
    FirstBreakAt(text, i);
  }

  // -------------------------------------------------------- supporting lemmas

  lemma EmptyText(text: string)
    requires text == ""
    ensures [""] == Split(text) + if StrayInsert(1, 0, Split(text)) then ["undefined"] else []
  {
    SplitEmpty();
  }

  lemma WholeInsert(newLines: Text)
    ensures WithInserted([""], Point(0, 0), newLines) == newLines
  {
    assert ""[..0] == "" == ""[0..];
    assert Before([""], Point(0, 0)) == [""] && After([""], Point(0, 0)) == [""];
    MergeUnit(newLines);
    assert Merge([""], newLines) == newLines;
    assert Merge(newLines, [""]) == newLines;
  }

  lemma EmptyRun(t: Text)
    ensures RawRun(t, []) && FoldRaw(t, []) == t
    ensures forall p, right :: FoldAnchor([], p, right) == p
  {
  }

  lemma OneEvent(e: Delta)
    ensures forall p, insertRight :: FoldAnchor([e], p, insertRight) == AnchorAfter(e, p, insertRight)
  {
    hide AnchorAfter;
    assert [e][1..] == [];
  }

  lemma LastEvent(es: seq<Delta>, e: Delta, p: Point, insertRight: bool)
    ensures FoldAnchor(es + [e], p, insertRight) == AnchorAfter(e, FoldAnchor(es, p, insertRight), insertRight)
  {
    hide AnchorAfter;
    FoldAnchorConcat(es, [e], p, insertRight);
    assert [e][1..] == [];
  }

  /** A chunk is one event. */
  lemma PieceEvents(t: Text, piece: Delta)
    requires RawOk(t, piece) && piece.action.Insert? && 2 <= |piece.lines| <= LARGE
    ensures Events(piece) == [piece]
    ensures Applicable(t, piece) && Applied(t, piece) == Raw(t, piece)
  {
    RawRunOne(t, piece);
  }

  lemma RunEnd(ds: seq<Delta>)
    ensures LeftAll(ds[|ds|..]) == [] && RunEvents(ds[|ds|..]) == []
    ensures forall t: Text :: ApplicableRun(t, ds[|ds|..]) && ApplyRun(t, ds[|ds|..]) == t
  {
    assert ds[|ds|..] == [];
  }

  lemma RunStep(t: Text, ds: seq<Delta>, i: nat)
    requires i < |ds| && ApplicableRun(t, ds[i..])
    ensures Applicable(t, ds[i]) && ApplicableRun(Applied(t, ds[i]), ds[i + 1..])
    ensures ApplyRun(t, ds[i..]) == ApplyRun(Applied(t, ds[i]), ds[i + 1..])
    ensures LeftAll(ds[i..]) == [Left(ds[i])] + LeftAll(ds[i + 1..])
    ensures RunEvents(ds[i..]) == Events(ds[i]) + RunEvents(ds[i + 1..])
  {
    hide Applicable, Applied, Left, Events;
    assert ds[i..][0] == ds[i] && ds[i..][1..] == ds[i + 1..];
  }

  lemma {:induction false} RevertibleSuffix(t: Text, ds: seq<Delta>, i: nat)
    requires i <= |ds| && Revertible(t, ds)
    ensures Revertible(t, ds[i..])
    decreases |ds|
  {
    if i == 0 {
      assert ds[0..] == ds;
    } else {
      RevertibleSuffix(t, ds[1..], i - 1);
      assert ds[1..][i - 1..] == ds[i..];
    }
  }

  lemma RawRunMiddle(t: Text, done: seq<Delta>, e: Delta, rest: seq<Delta>)
    requires RawRun(t, done + ([e] + rest))
    ensures RawRun(t, done) && RawOk(FoldRaw(t, done), e)
    decreases |done|
  {
    hide Raw, RawOk;
    if done == [] {
      assert done + ([e] + rest) == [e] + rest;
    } else {
      assert (done + ([e] + rest))[1..] == done[1..] + ([e] + rest);
      RawRunMiddle(Raw(t, done[0]), done[1..], e, rest);
    }
  }

  lemma RawRunPrefix(t: Text, init: seq<Delta>, e: Delta)
    requires RawRun(t, init + [e])
    ensures RawRun(t, init) && RawOk(FoldRaw(t, init), e)
  {
    assert [e] + [] == [e];
    RawRunMiddle(t, init, e, []);
  }

  lemma InitOf(init: seq<Delta>, last: Delta)
    ensures (init + [last])[..|init + [last]| - 1] == init
  {
  }

  lemma Moved(done: seq<Delta>, e: Delta, rest: seq<Delta>)
    ensures done + ([e] + rest) == done + [e] + rest
  {
  }

  lemma Appended(before: seq<Delta>, init: seq<Delta>, last: Delta, es: seq<Delta>)
    requires es == init + [last]
    ensures before + init + [last] == before + es
  {
  }

  lemma EventsOf(d: Delta)
    ensures NoOp(d) ==> Events(d) == [] && Left(d) == d
    ensures !NoOp(d) && IsLarge(d) ==>
              Events(d) == ChunkEvents(d, LARGE, 0) && Events(d) != [] && Left(d) == Events(d)[|Events(d)| - 1]
    ensures !NoOp(d) && !IsLarge(d) ==> Events(d) == [d] && Left(d) == d
  {
  }

  lemma InNumbers(t: Text, d: Delta)
    ensures WellFormed(t, d) && |d.lines| <= 20000 && Applicable(t, d) ==>
              && Applied(t, d) == Edited(t, d) && Left(d) == d
              && Events(d) == if d.lines == [""] && (d.action.Insert? || d.start == d.end) then [] else [d]
  {
    hide *;
    if WellFormed(t, d) && |d.lines| <= 20000 {
      UpTo20000(t, d);
    }
  }

  /** The range `removeFullLines` picks removes the rows from `first` to `last`. */
  lemma RemoveFullEffect(t: Text, first: nat, last: nat, from: Point, to: Point)
    requires first < |t| && last < |t|
    requires from == if last == |t| - 1 && first > 0 then Point(first - 1, |t[first - 1]|) else Point(first, 0)
    requires to == if last < |t| - 1 then Point(last + 1, 0) else Point(last, |t[last]|)
    ensures var d := Delta(Action.Remove, from, to, LinesForRange(t, from, to));
            && Applicable(t, d)
            && (first <= last && last - first + 1 < |t| ==> Applied(t, d) == t[..first] + t[last + 1..])
            && (last - first + 1 == |t| ==> Applied(t, d) == [""])
            && (last + 1 == first ==> Applied(t, d) == t)
            && (last + 1 < first ==> Applied(t, d) == t[..first] + [t[last + 1]] + t[first..])
    ensures first <= last ==> Slice(t, first, last + 1) == t[first..last + 1]
    ensures last < first ==> Slice(t, first, last + 1) == []
  {
    hide LinesForRange, Merge, Before, After, Applied, Applicable, Clip;
    assert last + 1 == |t| ==> t[last + 1..] == [];
    if first <= last {
      ValidRange(t, from, to);
      RemoveRows(t, first, last);
      RemoveEffect(t, from, to);
    } else {
      RemoveBackwards(t, first, last);
    }
  }

  lemma ValidRange(t: Text, from: Point, to: Point)
    requires ValidPos(t, from) && ValidPos(t, to)
    ensures RemoveDelta(t, from, to) == Delta(Action.Remove, from, to, LinesForRange(t, from, to))
    ensures Clip(t, from.row, from.column) == from && Clip(t, to.row, to.column) == to
  {
  }

  /** A range of whole lines whose end comes before its start only adds a line, or nothing. */
  lemma RemoveBackwards(t: Text, first: nat, last: nat)
    requires last < first < |t|
    ensures var d := Delta(Action.Remove, Point(first, 0), Point(last + 1, 0), LinesForRange(t, Point(first, 0), Point(last + 1, 0)));
            && Applicable(t, d)
            && Applied(t, d) == if last + 1 == first then t else t[..first] + [t[last + 1]] + t[first..]
  {
    var d := Delta(Action.Remove, Point(first, 0), Point(last + 1, 0), LinesForRange(t, Point(first, 0), Point(last + 1, 0)));
    if last + 1 < first {
      RawRunOne(t, d);
      assert t[first][..0] + t[last + 1][0..] == t[last + 1];
    }
  }

  // ------------------------------------------------- positions at an index

  /**
   The position `indexToPosition` gives for index `k`: in the row whose characters
   and newline contain the index, or at the end of the text.
   */
  predicate IsPositionAt(t: Text, k: int, n: nat, p: Point) {
    if k < RowStart(t, |t|, n) then
      0 <= p.row < |t| && 0 <= p.column < |t[p.row]| + n && Index(t, p, n) == k
    else p == End(t)
  }

  lemma PositionAtUnique(t: Text, k: int, n: nat, p: Point, q: Point)
    requires IsPositionAt(t, k, n, p) && IsPositionAt(t, k, n, q)
    ensures p == q
  {
    if k < RowStart(t, |t|, n) {
      if p.row < q.row {
        RowStartMonotone(t, p.row, q.row, n);
      } else if q.row < p.row {
        RowStartMonotone(t, q.row, p.row, n);
      }
    }
  }

  lemma ValidIsPositionAt(t: Text, p: Point, n: nat)
    requires n >= 1 && ValidPos(t, p)
    ensures IsPositionAt(t, Index(t, p, n), n, p)
  {
    RowStartMonotone(t, p.row, |t|, n);
  }

  /**
   Every index of the joined text comes back from its position, and that position
   is one of the text exactly when the index is not inside a newline; with a newline
   of one character it always is, and larger indices give the end of the text.
   */
  lemma IndexRoundTrip(t: Text, k: int, nl: string, p: Point)
    requires |nl| >= 1 && 0 <= k && IsPositionAt(t, k, |nl|, p)
    ensures k <= |Join(t, nl)| ==> Index(t, p, |nl|) == k
    ensures k <= |Join(t, nl)| ==> (ValidPos(t, p) <==> exists q :: ValidPos(t, q) && Index(t, q, |nl|) == k)
    ensures |nl| == 1 ==> ValidPos(t, p) && (k > |Join(t, nl)| ==> p == End(t))
  {
    JoinLength(t, nl);
    var n := |nl|;
    assert RowStart(t, |t|, n) == |Join(t, nl)| + n;
    if k <= |Join(t, nl)| {
      assert Index(t, p, n) == k;
      if q :| ValidPos(t, q) && Index(t, q, n) == k {
        ValidIsPositionAt(t, q, n);
        PositionAtUnique(t, k, n, p, q);
      }
    }
  }

  /** A larger index has a later position, also among the indices inside a newline. */
  lemma PositionMonotone(t: Text, k: int, k': int, nl: string, p: Point, q: Point)
    requires |nl| >= 1 && 0 <= k < k' <= |Join(t, nl)|
    requires IsPositionAt(t, k, |nl|, p) && IsPositionAt(t, k', |nl|, q)
    ensures Less(p, q)
  {
    JoinLength(t, nl);
    if q.row < p.row {
      RowStartMonotone(t, q.row, p.row, |nl|);
    }
  }

  /** With a newline of two characters the index between them has a position past the end of its line, in any text of several lines. */
  lemma InsideNewline(t: Text, nl: string)
    requires |t| > 1 && |nl| > 1
    ensures var k, p := |t[0]| + 1, Point(0, |t[0]| + 1);
            && k <= |Join(t, nl)| && IsPositionAt(t, k, |nl|, p) && !ValidPos(t, p)
            && !exists q :: ValidPos(t, q) && Index(t, q, |nl|) == k
  {
    hide IsPositionAt, ValidPos;
    var k, p := |t[0]| + 1, Point(0, |t[0]| + 1);
    JoinLength(t, nl);
    RowStartMonotone(t, 0, |t| - 1, |nl|);
    RowStartMonotone(t, |t| - 1, |t|, |nl|);
    FirstRow(t, k, |nl|, p);
    IndexRoundTrip(t, k, nl, p);
  }

  lemma FirstRow(t: Text, k: int, n: nat, p: Point)
    requires p == Point(0, k) && |t[0]| < k < |t[0]| + n && k < RowStart(t, |t|, n)
    ensures IsPositionAt(t, k, n, p) && !ValidPos(t, p)
  {
  }
}
