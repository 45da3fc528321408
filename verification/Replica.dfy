/**
 The replica law: what a second document makes of the change events of a first
 one.  Events travel either as whole deltas or packed as a flat list of pairs,
 (start, lines) for an insertion and (start, end) for a removal.
 */
module Replica {
  import opened Lines
  import opened Deltas
  import opened Runs
  import opened Arithmetic

  datatype Item = At(point: Point) | Inserted(lines: seq<string>)

  /** What the worker client queues for one change event. */
  function Pack(e: Delta): seq<Item> {
    if e.action.Insert? then [At(e.start), Inserted(e.lines)] else [At(e.start), At(e.end)]
  }

  function PackAll(es: seq<Delta>): (items: seq<Item>)
    ensures |items| == 2 * |es|
  {
    if es == [] then [] else Pack(es[0]) + PackAll(es[1..])
  }

  predicate Packed(items: seq<Item>) {
    |items| % 2 == 0 && forall i :: 0 <= i < |items| && i % 2 == 0 ==> items[i].At?
  }

  /** The delta the replica builds from a pair; an insertion gets no end and a removal no lines. */
  function Unpack(start: Point, second: Item): Delta {
    match second
    case Inserted(lines) => Delta(Insert, start, start, lines)
    case At(end) => Delta(Remove, start, end, [])
  }

  function UnpackAll(items: seq<Item>): (es: seq<Delta>)
    requires Packed(items)
    ensures |es| * 2 == |items|
  {
    if items == [] then []
    else
      assert items[0].At?;
      assert forall i :: 0 <= i < |items| - 2 && i % 2 == 0 ==> items[i + 2].At?;
      [Unpack(items[0].point, items[1])] + UnpackAll(items[2..])
  }

  /** An event without the parts that packing loses. */
  function Stripped(e: Delta): Delta {
    if e.action.Insert? then e.(end := e.start) else e.(lines := [])
  }

  function StrippedAll(es: seq<Delta>): seq<Delta> {
    if es == [] then [] else [Stripped(es[0])] + StrippedAll(es[1..])
  }

  lemma {:induction false} PackUnpack(es: seq<Delta>)
    ensures Packed(PackAll(es))
    ensures UnpackAll(PackAll(es)) == StrippedAll(es)
  {
    if es == [] {
    } else {
      PackUnpack(es[1..]);
      var items, rest := PackAll(es), PackAll(es[1..]);
      assert items[2..] == rest;
      forall i | 0 <= i < |items| && i % 2 == 0
        ensures items[i].At?
      {
        if i > 0 {
          assert items[i] == rest[i - 2];
        }
      }
    }
  }

  // ------------------------------------------------------- replaying one event

  /** A change event that is small enough for `applyDelta` not to split it again, and not an empty insertion. */
  predicate Plain(e: Delta) {
    e.action.Insert? ==> 0 < |e.lines| <= LARGE
  }

  lemma PlainApplied(t: Text, e: Delta)
    requires RawOk(t, e) && Plain(e)
    ensures Applicable(t, e) && Applied(t, e) == Raw(t, e)
    ensures Applicable(t, Stripped(e)) && Applied(t, Stripped(e)) == Raw(t, e)
  {
    PlainAppliedOne(t, e);
    PlainAppliedOne(t, Stripped(e));
  }

  lemma PlainAppliedOne(t: Text, e: Delta)
    requires RawOk(t, e) && Plain(e)
    ensures Applicable(t, e) && Applied(t, e) == Raw(t, e)
  {
    if NoOp(e) {
      CutMerge(t, InLine(t, e.start));
      MergeUnit(Before(t, InLine(t, e.start)));
    } else {
      RawRunOne(t, e);
    }
  }

  lemma {:induction false} PlainRun(t: Text, es: seq<Delta>)
    requires RawRun(t, es) && forall e :: e in es ==> Plain(e)
    ensures ApplicableRun(t, es) && ApplyRun(t, es) == FoldRaw(t, es)
    ensures ApplicableRun(t, StrippedAll(es)) && ApplyRun(t, StrippedAll(es)) == FoldRaw(t, es)
    decreases |es|
  {
    if es == [] {
    } else {
      PlainApplied(t, es[0]);
      PlainRun(Raw(t, es[0]), es[1..]);
      assert StrippedAll(es)[1..] == StrippedAll(es[1..]);
    }
  }

  // ------------------------------------------------------------------ one call

  /** The insertions whose last change event is empty: the replica drops it. */
  predicate EndsEmpty(d: Delta) {
    IsLarge(d) && Divides(LARGE - 1, |d.lines|)
  }

  lemma EventsPlain(d: Delta)
    requires !EndsEmpty(d)
    ensures forall e :: e in Events(d) ==> Plain(e)
  {
    if !NoOp(d) && IsLarge(d) {
      ChunksAreSmall(d, LARGE, 0);
      EmptyTailMeansDivides(d, LARGE, 0);
      LastChunk(d, LARGE, 0);
    }
  }

  lemma {:induction false} RunSnoc(t: Text, es: seq<Delta>, e: Delta)
    requires ApplicableRun(t, es) && Applicable(ApplyRun(t, es), e)
    ensures ApplicableRun(t, es + [e])
    ensures ApplyRun(t, es + [e]) == Applied(ApplyRun(t, es), e)
    decreases |es|
  {
    if es == [] {
      assert (es + [e])[1..] == [];
    } else {
      RunSnoc(Applied(t, es[0]), es[1..], e);
      assert (es + [e])[1..] == es[1..] + [e];
    }
  }

  lemma {:induction false} RawRunPrefix(t: Text, es: seq<Delta>, e: Delta)
    requires RawRun(t, es + [e])
    ensures RawRun(t, es) && RawOk(FoldRaw(t, es), e)
    ensures FoldRaw(t, es + [e]) == Raw(FoldRaw(t, es), e)
    decreases |es|
  {
    hide Raw, RawOk;
    if es == [] {
      assert (es + [e])[1..] == [];
    } else {
      assert (es + [e])[1..] == es[1..] + [e];
      RawRunPrefix(Raw(t, es[0]), es[1..], e);
    }
  }

  /** Dropping an empty insertion is never harmless. */
  lemma EmptyInsertChanges(t: Text, e: Delta)
    requires RawOk(t, e) && e.action.Insert? && e.lines == []
    ensures Raw(t, e) != t
  {
    var row, r := e.start.row, Raw(t, e);
    var p := InLine(t, e.start);
    if row + 1 < |t| {
      assert |r| == |t| - 1;
    } else {
      assert r[row - 1] == t[row - 1] + t[row][p.column..];
      assert r[row] == t[row][..p.column] + "undefined";
      assert |r[row - 1]| + |r[row]| == |t[row - 1]| + |t[row]| + 9;
    }
  }

  /**
   Replaying the change events of one `applyDelta` on a replica that holds the same
   lines leaves it with the same lines again, exactly when the delta is not a split
   insertion whose last chunk is empty.
   */
  lemma ReplicaOne(t: Text, d: Delta)
    requires WellFormed(t, d)
    ensures Applicable(t, d) && ApplicableRun(t, Events(d)) && ApplicableRun(t, StrippedAll(Events(d)))
    ensures ApplyRun(t, Events(d)) == Applied(t, d) <==> !EndsEmpty(d)
    ensures ApplyRun(t, StrippedAll(Events(d))) == Applied(t, d) <==> !EndsEmpty(d)
  {
    AppliedIsEdited(t, d);
    if EndsEmpty(d) {
      ReplicaMissesEmpty(t, d);
    } else {
      EventsPlain(d);
      PlainRun(t, Events(d));
    }
  }

  lemma ReplicaMissesEmpty(t: Text, d: Delta)
    requires WellFormed(t, d) && Applicable(t, d) && EndsEmpty(d)
    ensures ApplicableRun(t, Events(d)) && ApplicableRun(t, StrippedAll(Events(d)))
    ensures ApplyRun(t, Events(d)) != Applied(t, d)
    ensures ApplyRun(t, StrippedAll(Events(d))) != Applied(t, d)
  {
    hide Applicable, RawRun, FoldRaw, Applied, ApplyRun, ApplicableRun, StrippedAll, Events, Plain, EndsEmpty, WellFormed;
    var es := Events(d);
    LastIsEmpty(d);
    var init, e := es[..|es| - 1], es[|es| - 1];
    assert es == init + [e];
    InitPlain(d, init);
    RunOfEvents(t, d);
    DroppedEvent(t, init, e);
  }

  lemma RunOfEvents(t: Text, d: Delta)
    requires Applicable(t, d)
    ensures RawRun(t, Events(d)) && Applied(t, d) == FoldRaw(t, Events(d))
  {
  }

  lemma LastIsEmpty(d: Delta)
    requires EndsEmpty(d)
    ensures var es := Events(d);
            es != [] && es[|es| - 1].action.Insert? && es[|es| - 1].lines == []
  {
    hide ChunkEvents;
    ChunkEventsSome(d, LARGE, 0);
    EmptyTailMeansDivides(d, LARGE, 0);
    LastChunk(d, LARGE, 0);
  }

  /** Events of which all but the last are plain and the last is an empty insertion. */
  lemma DroppedEvent(t: Text, init: seq<Delta>, e: Delta)
    requires RawRun(t, init + [e]) && e.action.Insert? && e.lines == []
    requires forall f :: f in init ==> Plain(f)
    ensures ApplicableRun(t, init + [e]) && ApplicableRun(t, StrippedAll(init + [e]))
    ensures ApplyRun(t, init + [e]) != FoldRaw(t, init + [e])
    ensures ApplyRun(t, StrippedAll(init + [e])) != FoldRaw(t, init + [e])
  {
    hide Raw, RawOk, Plain;
    RawRunPrefix(t, init, e);
    PlainRun(t, init);
    DropLast(t, init, e);
    EmptyInsertChanges(FoldRaw(t, init), e);
  }

  lemma InitPlain(d: Delta, init: seq<Delta>)
    requires EndsEmpty(d) && |Events(d)| > 0 && init == Events(d)[..|Events(d)| - 1]
    ensures forall e :: e in init ==> Plain(e)
  {
    ChunksAreSmall(d, LARGE, 0);
    forall e | e in init
      ensures Plain(e)
    {
      var i :| 0 <= i < |init| && init[i] == e;
      assert e == Events(d)[i];
    }
  }

  lemma DropLast(t: Text, init: seq<Delta>, e: Delta)
    requires ApplicableRun(t, init) && ApplicableRun(t, StrippedAll(init))
    requires e.action.Insert? && e.lines == []
    ensures ApplicableRun(t, init + [e]) && ApplyRun(t, init + [e]) == ApplyRun(t, init)
    ensures ApplicableRun(t, StrippedAll(init + [e])) && ApplyRun(t, StrippedAll(init + [e])) == ApplyRun(t, StrippedAll(init))
  {
    RunSnoc(t, init, e);
    StrippedSnoc(init, e);
    RunSnoc(t, StrippedAll(init), Stripped(e));
  }

  lemma {:induction false} StrippedSnoc(es: seq<Delta>, e: Delta)
    ensures StrippedAll(es + [e]) == StrippedAll(es) + [Stripped(e)]
  {
    if es == [] {
    } else {
      StrippedSnoc(es[1..], e);
      assert (es + [e])[1..] == es[1..] + [e];
    }
  }

  // ---------------------------------------------------------------- whole runs

  lemma {:induction false} RawRunConcat(t: Text, es: seq<Delta>, fs: seq<Delta>)
    requires RawRun(t, es) && RawRun(FoldRaw(t, es), fs)
    ensures RawRun(t, es + fs)
    ensures FoldRaw(t, es + fs) == FoldRaw(FoldRaw(t, es), fs)
    decreases |fs|
  {
    hide Raw, RawOk;
    if fs == [] {
      assert es + fs == es;
    } else {
      RawRunSnoc(t, es, fs[0]);
      RawRunConcat(t, es + [fs[0]], fs[1..]);
      assert (es + [fs[0]]) + fs[1..] == es + fs;
    }
  }

  lemma {:induction false} RunEventsFold(t: Text, ds: seq<Delta>)
    requires ApplicableRun(t, ds)
    ensures RawRun(t, RunEvents(ds)) && FoldRaw(t, RunEvents(ds)) == ApplyRun(t, ds)
    decreases |ds|
  {
    if ds == [] {
    } else {
      RunEventsFold(Applied(t, ds[0]), ds[1..]);
      RawRunConcat(t, Events(ds[0]), RunEvents(ds[1..]));
    }
  }

  lemma {:induction false} RunEventsPlain(ds: seq<Delta>)
    requires forall d :: d in ds ==> !EndsEmpty(d)
    ensures forall e :: e in RunEvents(ds) ==> Plain(e)
  {
    if ds == [] {
    } else {
      EventsPlain(ds[0]);
      RunEventsPlain(ds[1..]);
    }
  }

  /**
   Replica agreement over runs: after any applicable run in which no insertion ends
   in an empty chunk, replaying all change events in order, whole or packed, gives
   the same lines.
   */
  lemma ReplicaRun(t: Text, ds: seq<Delta>)
    requires ApplicableRun(t, ds) && forall d :: d in ds ==> !EndsEmpty(d)
    ensures var es := RunEvents(ds);
            && ApplicableRun(t, es) && ApplyRun(t, es) == ApplyRun(t, ds)
            && Packed(PackAll(es))
            && ApplicableRun(t, UnpackAll(PackAll(es))) && ApplyRun(t, UnpackAll(PackAll(es))) == ApplyRun(t, ds)
  {
    var es := RunEvents(ds);
    RunEventsFold(t, ds);
    RunEventsPlain(ds);
    PlainRun(t, es);
    PackUnpack(es);
  }

  /** An insertion of 39998 lines into an empty document is not replayed on the replica. */
  lemma EmptyChunkMissed(lines: Text)
    requires |lines| == 39998
    ensures var d := Delta(Insert, Point(0, 0), Advance(Point(0, 0), lines), lines);
            && WellFormed([""], d) && EndsEmpty(d) && ApplicableRun([""], Events(d)) && Applicable([""], d)
            && ApplyRun([""], Events(d)) != Applied([""], d)
  {
    hide Applied, Applicable, Events, ApplyRun, ApplicableRun, StrippedAll;
    ReplicaOne([""], Delta(Insert, Point(0, 0), Advance(Point(0, 0), lines), lines));
  }

  /** In numbers: the insertions that a replica does not follow. */
  lemma EndsEmptyInNumbers(d: Delta)
    ensures EndsEmpty(d) <==> d.action.Insert? && |d.lines| > 20000 && |d.lines| % 19999 == 0
  {
  }
}
