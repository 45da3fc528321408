/**
 Deltas: the edits of a document as data, what applying one to the line array
 means, how it is undone, and how a position moves with it.
 */
module Deltas {
  import opened Lines

  datatype Action = Insert | Remove

  datatype Delta = Delta(action: Action, start: Point, end: Point, lines: seq<string>)

  /** The deltas that `Document.applyDelta` silently drops. */
  predicate NoOp(d: Delta) {
    match d.action
    case Insert => |d.lines| == 0 || (|d.lines| == 1 && d.lines[0] == "")
    case Remove => d.start == d.end
  }

  /** A delta that describes an edit of `t`. */
  predicate WellFormed(t: Text, d: Delta) {
    && ValidPos(t, d.start)
    && |d.lines| > 0
    && match d.action
       case Insert => d.end == Advance(d.start, d.lines)
       case Remove => ValidPos(t, d.end) && Leq(d.start, d.end) && d.lines == Between(t, d.start, d.end)
  }

  /** The text a well-formed delta produces. */
  function Edited(t: Text, d: Delta): Text
    requires WellFormed(t, d)
  {
    match d.action
    case Insert => Merge(Merge(Before(t, d.start), d.lines), After(t, d.start))
    case Remove => Merge(Before(t, d.start), After(t, d.end))
  }

  // ------------------------------------------------ the line-array primitive

  /** What the primitive below needs in order to stay inside the array; columns may be anything. */
  predicate RawOk(t: Text, d: Delta) {
    && 0 <= d.start.row < |t|
    && match d.action
       case Insert => |d.lines| > 0 || d.start.row > 0
       case Remove => 0 <= d.end.row < |t|
  }

  /** `line.substring(0, column)` */
  function HeadOf(line: string, column: int): string {
    line[..ClampColumn(line, column)]
  }

  /** `line.substring(column)` */
  function TailOf(line: string, column: int): string {
    line[ClampColumn(line, column)..]
  }

  function ClampColumn(line: string, column: int): (c: nat)
    ensures c <= |line|
  {
    if column < 0 then 0 else if column > |line| then |line| else column
  }

  /** The position in the same row that `substring` takes for this one. */
  function InLine(t: Text, p: Point): (q: Point)
    requires 0 <= p.row < |t|
    ensures ValidPos(t, q)
    ensures ValidPos(t, p) ==> q == p
  {
    Point(p.row, ClampColumn(t[p.row], p.column))
  }

  /**
   What the primitive leaves, also for the two shapes that are not edits: an
   insertion of no lines, which pulls the start line up and writes the string
   "undefined" when there is no next line, and a removal whose end lies in an
   earlier row than its start, which adds a line.
   */
  function Raw(t: Text, d: Delta): Text
    requires RawOk(t, d)
  {
    var start := InLine(t, d.start);
    match d.action
    case Insert =>
      if |d.lines| > 0 then
        Merge(Merge(Before(t, start), d.lines), After(t, start))
      else
        RawEmpty(t, start)
    case Remove =>
      var end := InLine(t, d.end);
      if start.row <= end.row then
        Merge(Before(t, start), After(t, end))
      else
        t[..start.row] + [t[start.row][..start.column] + t[end.row][end.column..]] + t[start.row..]
  }

  function RawEmpty(t: Text, p: Point): Text
    requires ValidPos(t, p) && p.row > 0
  {
    var row, line, follows := p.row, t[p.row], p.row + 1 < |t|;
    t[..row - 1]
    + [t[row - 1] + line[p.column..]]
    + [line[..p.column] + (if follows then t[row + 1] else "undefined")]
    + (if follows then t[row + 2..] else [])
  }

  /** `Array.prototype.splice` with a start inside the array or at its end. */
  function Splice<T>(s: seq<T>, at: nat, deleted: int, inserted: seq<T>): seq<T>
    requires at <= |s|
  {
    var n := if deleted < 0 then 0 else if at + deleted > |s| then |s| - at else deleted;
    s[..at] + inserted + s[at + n..]
  }

  lemma SingleLineInsert(t: Text, p: Point, lines: Text)
    requires ValidPos(t, p) && |lines| == 1
    ensures t[p.row := t[p.row][..p.column] + lines[0] + t[p.row][p.column..]]
         == Merge(Merge(Before(t, p), lines), After(t, p))
  {
    assert Merge(Before(t, p), lines) == t[..p.row] + [t[p.row][..p.column] + lines[0]];
  }

  /** The three assignments of a multi-line insertion build the product of the pieces. */
  lemma MultiLineInsert(t: Text, p: Point, lines: Text, head: string)
    requires ValidPos(t, p) && |lines| > 1
    requires head == t[p.row][..p.column] + lines[0]
    ensures var last := p.row + |lines| - 1;
            var spliced := Splice(t, p.row, 1, lines)[p.row := head];
            spliced[last := spliced[last] + t[p.row][p.column..]] == Merge(Merge(Before(t, p), lines), After(t, p))
  {
    var last := p.row + |lines| - 1;
    var front := t[..p.row] + [head] + lines[1..];
    assert Merge(Before(t, p), lines) == front;
    var spliced := Splice(t, p.row, 1, lines)[p.row := head];
    assert spliced == front + t[p.row + 1..];
    assert spliced[last] == Last(front);
  }

  /** The same assignments when there is nothing to insert. */
  lemma EmptyInsert(t: Text, p: Point)
    requires ValidPos(t, p) && p.row > 0
    ensures var spliced := Splice(t, p.row, 1, []);
            var head := t[p.row][..p.column] + (if p.row < |spliced| then spliced[p.row] else "undefined");
            var grown := if p.row < |spliced| then spliced[p.row := head] else spliced + [head];
            grown[p.row - 1 := grown[p.row - 1] + t[p.row][p.column..]] == RawEmpty(t, p)
  {
    var spliced := Splice(t, p.row, 1, []);
    assert spliced == t[..p.row] + t[p.row + 1..];
  }

  lemma RowRemoval(t: Text, p: Point, q: Point)
    requires ValidPos(t, p) && ValidPos(t, q)
    ensures var joined := t[p.row][..p.column] + t[q.row][q.column..];
            && (p.row == q.row ==> t[p.row := joined] == Merge(Before(t, p), After(t, q)))
            && (p.row < q.row ==> Splice(t, p.row, q.row - p.row + 1, [joined]) == Merge(Before(t, p), After(t, q)))
            && (p.row > q.row ==> Splice(t, p.row, q.row - p.row + 1, [joined]) == t[..p.row] + [joined] + t[p.row..])
  {
  }

  /** `applyDelta` of ace/apply_delta: the in-place edit of the line array. */
  method ApplyToLines(docLines: Text, d: Delta) returns (r: Text)
    requires RawOk(docLines, d)
    ensures r == Raw(docLines, d)
  {
    match d.action
    case Insert => r := InsertInto(docLines, d);
    case Remove => r := RemoveFrom(docLines, d);
  }

  method InsertInto(docLines: Text, d: Delta) returns (r: Text)
    requires RawOk(docLines, d) && d.action.Insert?
    ensures r == Raw(docLines, d)
  {
    hide Merge, Before, After, ClampColumn, RawEmpty;
    var row, startColumn := d.start.row, d.start.column;
    var line := docLines[row];
    ghost var start := InLine(docLines, d.start);
    CutAt(docLines, d.start);
    if |d.lines| == 1 {
      r := docLines[row := HeadOf(line, startColumn) + d.lines[0] + TailOf(line, startColumn)];
      SingleLineInsert(docLines, start, d.lines);
    } else {
      var spliced := Splice(docLines, row, 1, d.lines);
      var head := HeadOf(line, startColumn) + (if row < |spliced| then spliced[row] else "undefined");
      spliced := if row < |spliced| then spliced[row := head] else spliced + [head];
      var last := row + |d.lines| - 1;
      r := spliced[last := spliced[last] + TailOf(line, startColumn)];
      if |d.lines| > 0 {
        MultiLineInsert(docLines, start, d.lines, head);
      } else {
        EmptyInsert(docLines, start);
      }
    }
  }

  method RemoveFrom(docLines: Text, d: Delta) returns (r: Text)
    requires RawOk(docLines, d) && d.action.Remove?
    ensures r == Raw(docLines, d)
  {
    hide Merge, Before, After, ClampColumn, Splice, HeadOf, TailOf;
    var row, endRow := d.start.row, d.end.row;
    CutAt(docLines, d.start);
    CutAt(docLines, d.end);
    RowRemoval(docLines, InLine(docLines, d.start), InLine(docLines, d.end));
    if row == endRow {
      r := docLines[row := HeadOf(docLines[row], d.start.column) + TailOf(docLines[row], d.end.column)];
    } else {
      r := Splice(docLines, row, endRow - row + 1, [HeadOf(docLines[row], d.start.column) + TailOf(docLines[endRow], d.end.column)]);
    }
  }

  /** The two parts of a line that `substring` makes. */
  lemma CutAt(t: Text, p: Point)
    requires 0 <= p.row < |t|
    ensures var q := InLine(t, p);
            HeadOf(t[p.row], p.column) == t[p.row][..q.column] && TailOf(t[p.row], p.column) == t[p.row][q.column..]
  {
  }

  lemma WellFormedIsRaw(t: Text, d: Delta)
    requires WellFormed(t, d)
    ensures RawOk(t, d) && Raw(t, d) == Edited(t, d)
  {
  }

  /** A well-formed delta that is dropped would have changed nothing. */
  lemma NoOpChangesNothing(t: Text, d: Delta)
    requires WellFormed(t, d) && NoOp(d)
    ensures Edited(t, d) == t
  {
    CutMerge(t, d.start);
    if d.action.Insert? {
      assert d.lines == [""];
      MergeUnit(Before(t, d.start));
    }
  }

  // ---------------------------------------------------------- flat-text meaning

  function Splice3(s: string, i: nat, j: nat, mid: string): string
    requires i <= j <= |s|
  {
    s[..i] + mid + s[j..]
  }

  /** On the joined text, an insertion is a splice at the index of its start. */
  lemma InsertIsSplice(t: Text, p: Point, lines: Text, nl: string)
    requires ValidPos(t, p)
    ensures 0 <= Index(t, p, |nl|) <= |Join(t, nl)|
    ensures var i := Index(t, p, |nl|);
            Join(Merge(Merge(Before(t, p), lines), After(t, p)), nl) == Splice3(Join(t, nl), i, i, Join(lines, nl))
  {
    IndexIsLength(t, p, nl);
    JoinMerge(Merge(Before(t, p), lines), After(t, p), nl);
    JoinMerge(Before(t, p), lines, nl);
  }

  /** On the joined text, a removal deletes the characters between the two indices. */
  lemma RemoveIsSplice(t: Text, p: Point, q: Point, nl: string)
    requires ValidPos(t, p) && ValidPos(t, q) && Leq(p, q)
    ensures 0 <= Index(t, p, |nl|) <= Index(t, q, |nl|) <= |Join(t, nl)|
    ensures var i, j := Index(t, p, |nl|), Index(t, q, |nl|);
            && Join(Merge(Before(t, p), After(t, q)), nl) == Splice3(Join(t, nl), i, j, "")
            && Join(Between(t, p, q), nl) == Join(t, nl)[i..j]
  {
    IndexIsLength(t, p, nl);
    IndexIsLength(t, q, nl);
    JoinMerge(Before(t, p), After(t, q), nl);
    BetweenCut(t, p, q);
    JoinMerge(Before(t, p), Between(t, p, q), nl);
    var i, j := Index(t, p, |nl|), Index(t, q, |nl|);
    assert Join(t, nl)[..j] == Join(t, nl)[..i] + Join(Between(t, p, q), nl);
    assert Join(t, nl)[..j][i..] == Join(t, nl)[i..j];
  }

  // ---------------------------------------------------------------------- undo

  /** The delta `revertDelta` builds. */
  function Inverse(d: Delta): Delta {
    d.(action := if d.action.Insert? then Remove else Insert)
  }

  lemma InsertEnd(t: Text, p: Point, lines: Text)
    requires ValidPos(t, p)
    ensures var r := Merge(Merge(Before(t, p), lines), After(t, p));
            && ValidPos(r, p) && ValidPos(r, Advance(p, lines)) && Leq(p, Advance(p, lines))
            && Before(r, p) == Before(t, p)
            && After(r, Advance(p, lines)) == After(t, p)
            && Between(r, p, Advance(p, lines)) == lines
  {
    var b, a := Before(t, p), After(t, p);
    var r := Merge(Merge(b, lines), a);
    var e := Advance(p, lines);
    CutMerge(t, p);
    MergeNotShorter(b, lines);
    MergeCut(Merge(b, lines), a);
    MergeAssociative(b, lines, a);
    MergeCut(b, Merge(lines, a));
    BetweenCut(r, p, e);
    MergeCancel(b, Between(r, p, e), lines);
  }

  lemma MergeCancel(a: Text, x: Text, y: Text)
    requires Merge(a, x) == Merge(a, y)
    ensures x == y
  {
    MergeCut(a, x);
    MergeCut(a, y);
  }

  /** Undoing a well-formed delta is a well-formed delta of the edited text, and restores the text. */
  lemma InverseUndoes(t: Text, d: Delta)
    requires WellFormed(t, d)
    ensures WellFormed(Edited(t, d), Inverse(d))
    ensures Edited(Edited(t, d), Inverse(d)) == t
  {
    match d.action
    case Insert =>
      InsertEnd(t, d.start, d.lines);
      CutMerge(t, d.start);
    case Remove =>
      var b, a := Before(t, d.start), After(t, d.end);
      CutMerge(t, d.start);
      CutMerge(t, d.end);
      BetweenCut(t, d.start, d.end);
      MergeCut(b, a);
  }

  // ------------------------------------------------------------------- anchors

  /** `$pointsInOrder` of ace/anchor. */
  predicate PointsInOrder(p: Point, q: Point, equalInOrder: bool) {
    p.row < q.row || (p.row == q.row && if equalInOrder then p.column <= q.column else p.column < q.column)
  }

  /** `$getTransformedPoint` of ace/anchor. */
  function TransformedPoint(d: Delta, p: Point, moveIfEqual: bool): Point {
    var sign := if d.action.Insert? then 1 else -1;
    var rowShift := sign * (d.end.row - d.start.row);
    var colShift := sign * (d.end.column - d.start.column);
    var deltaEnd := if d.action.Insert? then d.start else d.end;
    if PointsInOrder(p, d.start, moveIfEqual) then p
    else if PointsInOrder(deltaEnd, p, !moveIfEqual) then
      Point(p.row + rowShift, p.column + if p.row == deltaEnd.row then colShift else 0)
    else d.start
  }

  /** Where `Anchor.onChange` leaves an anchor: the row filter first, then the transform. */
  function AnchorAfter(d: Delta, p: Point, insertRight: bool): Point {
    if (d.start.row == d.end.row && d.start.row != p.row) || d.start.row > p.row then p
    else TransformedPoint(d, p, insertRight)
  }

  /** The character index an anchor must have after the edit, given the one it had before. */
  function ShiftedIndex(t: Text, d: Delta, k: int, insertRight: bool, nl: string): int
    requires WellFormed(t, d)
  {
    var i := Index(t, d.start, |nl|);
    match d.action
    case Insert =>
      if k < i || (k == i && insertRight) then k else k + |Join(d.lines, nl)|
    case Remove =>
      var j := Index(t, d.end, |nl|);
      if k <= i then k else if k <= j then i else k - (j - i)
  }

  /** The row filter only skips anchors that the transform would leave alone. */
  lemma FilterIsSound(t: Text, d: Delta, p: Point, insertRight: bool)
    requires WellFormed(t, d)
    ensures AnchorAfter(d, p, insertRight) == TransformedPoint(d, p, insertRight)
  {
  }

  lemma PieceIndex(b: Text, a: Text, nl: string)
    ensures ValidPos(Merge(b, a), End(b))
    ensures Index(Merge(b, a), End(b), |nl|) == |Join(b, nl)|
  {
    MergeCut(b, a);
    IndexIsLength(Merge(b, a), End(b), nl);
  }

  /** A position up to the end of a common first factor keeps its index. */
  lemma SameFront(b: Text, a: Text, a': Text, p: Point, nl: string)
    requires ValidPos(Merge(b, a), p) && Leq(p, End(b))
    ensures ValidPos(Merge(b, a'), p)
    ensures Index(Merge(b, a'), p, |nl|) == Index(Merge(b, a), p, |nl|)
  {
    PosInFirst(b, a, p);
    PosInFirstValid(b, a', p);
    IndexIsLength(Merge(b, a), p, nl);
    IndexIsLength(Merge(b, a'), p, nl);
  }

  /** A position at distance `x` after `b` is at distance `x` after `b'` when `b'` replaces `b`. */
  lemma MovedBack(b: Text, b': Text, x: Text, rest: Text, nl: string)
    ensures var p, p' := Advance(End(b), x), Advance(End(b'), x);
            var t, t' := Merge(b, Merge(x, rest)), Merge(b', Merge(x, rest));
            && ValidPos(t, p) && ValidPos(t', p')
            && Index(t, p, |nl|) == |Join(b, nl)| + |Join(x, nl)|
            && Index(t', p', |nl|) == |Join(b', nl)| + |Join(x, nl)|
  {
    MergeAssociative(b, x, rest);
    MergeAssociative(b', x, rest);
    MergeNotShorter(b, x);
    MergeNotShorter(b', x);
    PieceIndex(Merge(b, x), rest, nl);
    PieceIndex(Merge(b', x), rest, nl);
    JoinMerge(b, x, nl);
    JoinMerge(b', x, nl);
  }

  /**
   Anchors follow the text: after any well-formed edit an anchor is at a valid
   position, and its character index is the old one shifted exactly.
   */
  lemma AnchorFollowsText(t: Text, d: Delta, p: Point, insertRight: bool, nl: string)
    requires WellFormed(t, d) && ValidPos(t, p) && |nl| >= 1
    ensures ValidPos(Edited(t, d), AnchorAfter(d, p, insertRight))
    ensures Index(Edited(t, d), AnchorAfter(d, p, insertRight), |nl|)
         == ShiftedIndex(t, d, Index(t, p, |nl|), insertRight, nl)
  {
    FilterIsSound(t, d, p, insertRight);
    if d.action.Insert? {
      AnchorFollowsInsert(t, d, p, insertRight, nl);
    } else {
      AnchorFollowsRemove(t, d, p, insertRight, nl);
    }
  }

  lemma AnchorFollowsInsert(t: Text, d: Delta, p: Point, insertRight: bool, nl: string)
    requires WellFormed(t, d) && d.action.Insert? && ValidPos(t, p) && |nl| >= 1
    ensures ValidPos(Edited(t, d), TransformedPoint(d, p, insertRight))
    ensures Index(Edited(t, d), TransformedPoint(d, p, insertRight), |nl|)
         == ShiftedIndex(t, d, Index(t, p, |nl|), insertRight, nl)
  {
    hide Merge, Before, After, Between, Join, Index;
    IndexMonotone(t, p, d.start, |nl|);
    CutMerge(t, d.start);
    var b, a := Before(t, d.start), After(t, d.start);
    MergeAssociative(b, d.lines, a);
    if PointsInOrder(p, d.start, insertRight) {
      SameFront(b, a, Merge(d.lines, a), p, nl);
    } else {
      var x := Between(t, d.start, p);
      BetweenCut(t, d.start, p);
      MergeNotShorter(b, d.lines);
      JoinMerge(b, d.lines, nl);
      MovedBack(b, Merge(b, d.lines), x, After(t, p), nl);
      assert TransformedPoint(d, p, insertRight) == Advance(d.end, x);
    }
  }

  lemma AnchorFollowsRemove(t: Text, d: Delta, p: Point, insertRight: bool, nl: string)
    requires WellFormed(t, d) && d.action.Remove? && ValidPos(t, p) && |nl| >= 1
    ensures ValidPos(Edited(t, d), TransformedPoint(d, p, insertRight))
    ensures Index(Edited(t, d), TransformedPoint(d, p, insertRight), |nl|)
         == ShiftedIndex(t, d, Index(t, p, |nl|), insertRight, nl)
  {
    hide Merge, Before, After, Between, Join, Index;
    IndexMonotone(t, p, d.start, |nl|);
    IndexMonotone(t, p, d.end, |nl|);
    IndexMonotone(t, d.start, d.end, |nl|);
    CutMerge(t, d.start);
    CutMerge(t, d.end);
    var b, a := Before(t, d.start), After(t, d.start);
    if Leq(p, d.start) {
      SameFront(b, a, After(t, d.end), p, nl);
    } else if Leq(p, d.end) {
      SameFront(b, a, After(t, d.end), d.start, nl);
    } else {
      var x := Between(t, d.end, p);
      BetweenCut(t, d.end, p);
      IndexIsLength(t, d.start, nl);
      IndexIsLength(t, d.end, nl);
      MovedBack(Before(t, d.end), b, x, After(t, p), nl);
      assert TransformedPoint(d, p, insertRight) == Advance(d.start, x);
    }
  }
}
