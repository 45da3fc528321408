/**
 The text of a document as a non-empty list of lines, and the algebra the
 editing code works in.

 Two texts are concatenated by `Merge`: the last line of the first is continued
 by the first line of the second.  `Merge` is associative with unit `[""]`, and a
 position splits a text into `Before` and `After`.  Every edit of a document is a
 product of such pieces, so facts about edits are facts about `Merge`.
 */
module Lines {

  /** A row and a column.  Both may be out of range until they are clipped. */
  datatype Point = Point(row: int, column: int)

  /** `Range.comparePoints(p, q) <= 0`. */
  predicate Leq(p: Point, q: Point) {
    p.row < q.row || (p.row == q.row && p.column <= q.column)
  }

  predicate Less(p: Point, q: Point) {
    p.row < q.row || (p.row == q.row && p.column < q.column)
  }

  /** A text: at least one line. */
  type Text = s: seq<string> | |s| > 0 witness [""]

  function Last(t: Text): string { t[|t| - 1] }

  /** The position just after the last character of a text that starts at (0, 0). */
  function End(t: Text): Point {
    Point(|t| - 1, |Last(t)|)
  }

  /** The position reached from `p` by walking over `t`. */
  function Advance(p: Point, t: Text): Point {
    Point(p.row + |t| - 1, (if |t| == 1 then p.column else 0) + |Last(t)|)
  }

  predicate ValidPos(t: Text, p: Point) {
    0 <= p.row < |t| && 0 <= p.column <= |t[p.row]|
  }

  /** Concatenation of texts. */
  function Merge(a: Text, b: Text): Text {
    a[..|a| - 1] + [Last(a) + b[0]] + b[1..]
  }

  function Before(t: Text, p: Point): Text
    requires ValidPos(t, p)
  {
    t[..p.row] + [t[p.row][..p.column]]
  }

  function After(t: Text, p: Point): Text
    requires ValidPos(t, p)
  {
    [t[p.row][p.column..]] + t[p.row + 1..]
  }

  /** The text between two positions in order. */
  function Between(t: Text, p: Point, q: Point): Text
    requires ValidPos(t, p) && ValidPos(t, q) && Leq(p, q)
  {
    if p.row == q.row then [t[p.row][p.column..q.column]]
    else [t[p.row][p.column..]] + t[p.row + 1..q.row] + [t[q.row][..q.column]]
  }

  // ---------------------------------------------------------------- the monoid

  lemma MergeAssociative(a: Text, b: Text, c: Text)
    ensures Merge(Merge(a, b), c) == Merge(a, Merge(b, c))
  {
    if |b| == 1 {
      assert Last(a) + b[0] + c[0] == Last(a) + (b[0] + c[0]);
    }
  }

  lemma MergeUnit(t: Text)
    ensures Merge([""], t) == t == Merge(t, [""])
  {
    assert "" + t[0] == t[0];
    assert Last(t) + "" == Last(t);
  }

  lemma MergeNotShorter(a: Text, b: Text)
    ensures |Merge(a, b)| == |a| + |b| - 1
    ensures End(Merge(a, b)) == Advance(End(a), b)
  {
  }

  /** Cutting a text at a position and merging the pieces gives the text back. */
  lemma CutMerge(t: Text, p: Point)
    requires ValidPos(t, p)
    ensures Merge(Before(t, p), After(t, p)) == t
    ensures End(Before(t, p)) == p
  {
    var row := t[p.row];
    assert row[..p.column] + row[p.column..] == row;
  }

  /** A product is cut into its factors at the end of the first. */
  lemma MergeCut(a: Text, b: Text)
    ensures ValidPos(Merge(a, b), End(a))
    ensures Before(Merge(a, b), End(a)) == a
    ensures After(Merge(a, b), End(a)) == b
  {
    var m := Merge(a, b);
    assert m[|a| - 1] == Last(a) + b[0];
    assert m[|a|..] == b[1..];
    assert a == a[..|a| - 1] + [Last(a)];
    assert b == [b[0]] + b[1..];
  }

  /** A text between two positions is what must be walked to get from one to the other. */
  lemma BetweenCut(t: Text, p: Point, q: Point)
    requires ValidPos(t, p) && ValidPos(t, q) && Leq(p, q)
    ensures Merge(Before(t, p), Between(t, p, q)) == Before(t, q)
    ensures Merge(Between(t, p, q), After(t, q)) == After(t, p)
    ensures Advance(p, Between(t, p, q)) == q
  {
    if p.row == q.row {
      var line := t[p.row];
      assert line[..p.column] + line[p.column..q.column] == line[..q.column];
      assert line[p.column..q.column] + line[q.column..] == line[p.column..];
    } else {
      var line := t[p.row];
      assert line[..p.column] + line[p.column..] == line;
      var last := t[q.row];
      assert last[..q.column] + last[q.column..] == last;
    }
  }

  /** Positions of a product up to the end of the first factor are positions of that factor. */
  lemma PosInFirst(a: Text, b: Text, p: Point)
    requires ValidPos(Merge(a, b), p) && Leq(p, End(a))
    ensures ValidPos(a, p)
    ensures Before(Merge(a, b), p) == Before(a, p)
  {
    var m := Merge(a, b);
    if p.row < |a| - 1 {
      assert m[p.row] == a[p.row];
    } else {
      assert m[p.row] == Last(a) + b[0];
      assert m[p.row][..p.column] == Last(a)[..p.column];
      assert m[..p.row] == a[..p.row];
    }
  }

  lemma PosInFirstValid(a: Text, b: Text, p: Point)
    requires ValidPos(a, p)
    ensures ValidPos(Merge(a, b), p) && Leq(p, End(a))
    ensures Before(Merge(a, b), p) == Before(a, p)
  {
    var m := Merge(a, b);
    if p.row < |a| - 1 {
      assert m[p.row] == a[p.row];
    } else {
      assert m[p.row] == Last(a) + b[0];
      assert m[p.row][..p.column] == Last(a)[..p.column];
      assert m[..p.row] == a[..p.row];
    }
  }

  // -------------------------------------------------------- joined strings

  /** JavaScript's `lines.join(nl)`. */
  function Join(lines: seq<string>, nl: string): string {
    if |lines| == 0 then ""
    else if |lines| == 1 then lines[0]
    else lines[0] + nl + Join(lines[1..], nl)
  }

  lemma JoinMergeHead(head: string, t: Text, nl: string)
    ensures Join([head + t[0]] + t[1..], nl) == head + Join(t, nl)
  {
    var m := [head + t[0]] + t[1..];
    assert m[1..] == t[1..];
    if |t| > 1 {
      assert head + t[0] + nl + Join(t[1..], nl) == head + (t[0] + nl + Join(t[1..], nl));
    }
  }

  /** Joining turns the product of texts into concatenation of strings. */
  lemma {:induction false} JoinMerge(a: Text, b: Text, nl: string)
    ensures Join(Merge(a, b), nl) == Join(a, nl) + Join(b, nl)
  {
    if |a| == 1 {
      JoinMergeHead(a[0], b, nl);
      assert Merge(a, b) == [a[0] + b[0]] + b[1..];
    } else {
      JoinMerge(a[1..], b, nl);
      assert Merge(a, b)[1..] == Merge(a[1..], b);
      assert Merge(a, b)[0] == a[0];
      assert a[0] + nl + (Join(a[1..], nl) + Join(b, nl)) == (a[0] + nl + Join(a[1..], nl)) + Join(b, nl);
    }
  }

  // -------------------------------------------------------- character indices

  /** The number of characters before row `row`, newlines counted `n` each. */
  function RowStart(t: seq<string>, row: nat, n: nat): nat
    requires row <= |t|
  {
    if row == 0 then 0 else RowStart(t, row - 1, n) + |t[row - 1]| + n
  }

  /** The character index of a position. */
  function Index(t: Text, p: Point, n: nat): (i: int)
    requires 0 <= p.row <= |t|
  {
    RowStart(t, p.row, n) + p.column
  }

  lemma {:induction false} RowStartPrefix(t: seq<string>, u: seq<string>, row: nat, n: nat)
    requires row <= |t| && row <= |u| && t[..row] == u[..row]
    ensures RowStart(t, row, n) == RowStart(u, row, n)
  {
    if row == 0 {
    } else {
      assert t[..row][row - 1] == u[..row][row - 1];
      assert t[..row - 1] == t[..row][..row - 1] == u[..row - 1];
      RowStartPrefix(t, u, row - 1, n);
    }
  }

  lemma {:induction false} JoinSnoc(t: Text, last: string, nl: string)
    ensures Join(t + [last], nl) == Join(t, nl) + nl + last
  {
    if |t| > 1 {
      JoinSnoc(t[1..], last, nl);
      assert (t + [last])[1..] == t[1..] + [last];
      assert t[0] + nl + (Join(t[1..], nl) + nl + last) == (t[0] + nl + Join(t[1..], nl)) + nl + last;
    } else {
      assert (t + [last])[1..] == [last];
    }
  }

  lemma {:induction false} JoinLength(t: Text, nl: string)
    ensures |Join(t, nl)| == RowStart(t, |t| - 1, |nl|) + |Last(t)|
  {
    if |t| == 1 {
    } else {
      var init := t[..|t| - 1];
      assert t == init + [Last(t)];
      JoinSnoc(init, Last(t), nl);
      JoinLength(init, nl);
      RowStartPrefix(init, t, |t| - 2, |nl|);
    }
  }

  /** The index of a position is the length of the joined text before it. */
  lemma IndexIsLength(t: Text, p: Point, nl: string)
    requires ValidPos(t, p)
    ensures 0 <= Index(t, p, |nl|) == |Join(Before(t, p), nl)| <= |Join(t, nl)|
    ensures Join(t, nl)[..Index(t, p, |nl|)] == Join(Before(t, p), nl)
    ensures Join(t, nl)[Index(t, p, |nl|)..] == Join(After(t, p), nl)
  {
    var b := Before(t, p);
    JoinLength(b, nl);
    RowStartPrefix(b, t, p.row, |nl|);
    CutMerge(t, p);
    JoinMerge(b, After(t, p), nl);
  }

  lemma {:induction false} RowStartMonotone(t: Text, r: nat, s: nat, n: nat)
    requires r <= s <= |t|
    ensures RowStart(t, r, n) <= RowStart(t, s, n)
    ensures r < s ==> RowStart(t, r, n) + |t[r]| + n <= RowStart(t, s, n)
  {
    if r == s {
    } else {
      RowStartMonotone(t, r, s - 1, n);
    }
  }

  /** With a newline of at least one character, indices order positions. */
  lemma IndexMonotone(t: Text, p: Point, q: Point, n: nat)
    requires n >= 1 && ValidPos(t, p) && ValidPos(t, q)
    ensures Less(p, q) <==> Index(t, p, n) < Index(t, q, n)
    ensures p == q <==> Index(t, p, n) == Index(t, q, n)
  {
    if p.row < q.row {
      RowStartMonotone(t, p.row, q.row, n);
    } else if q.row < p.row {
      RowStartMonotone(t, q.row, p.row, n);
    }
  }
}
