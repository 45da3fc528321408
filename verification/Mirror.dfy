/**
 The worker's replica of a document, and the client that keeps it in step.
 */
module Mirror {
  import opened Lines
  import opened Deltas
  import opened Newlines
  import opened Runs
  import opened Ranges
  import opened Replica
  import opened Document

  class Mirror {
    const doc: Document

    ghost predicate Valid()
      reads this, doc
    {
      doc.Valid() && doc.anchors == []
    }

    constructor ()
      ensures Valid() && fresh(doc) && doc.lines == [""]
    {
      doc := new Document.FromText("");
    }

    method SetValue(value: string)
      requires Valid()
      modifies doc
      ensures Valid()
      ensures doc.lines == Split(value) + if StrayInsert(1, 0, Split(value)) then ["undefined"] else []
    {
      doc.SetValue(value);
    }

    /** The "change" message when it carries whole deltas. */
    method OnDeltas(data: seq<Delta>)
      requires Valid() && |data| > 0 && ApplicableRun(doc.lines, data)
      modifies doc
      ensures Valid()
      ensures doc.lines == ApplyRun(old(doc.lines), data)
    {
      var _ := doc.ApplyDeltas(data);
    }

    /** The "change" message when it carries pairs. */
    method OnPairs(data: seq<Item>)
      requires Valid() && |data| > 0 && Packed(data) && ApplicableRun(doc.lines, UnpackAll(data))
      modifies doc
      ensures Valid()
      ensures doc.lines == ApplyRun(old(doc.lines), UnpackAll(data))
    {
      hide Applicable, Applied, Unpack;
      var i := 0;
      assert data[0..] == data;
      while i < |data|
        invariant 0 <= i <= |data| && i % 2 == 0 && Packed(data[i..]) && Valid()
        invariant ApplicableRun(doc.lines, UnpackAll(data[i..]))
        invariant ApplyRun(doc.lines, UnpackAll(data[i..])) == ApplyRun(old(doc.lines), UnpackAll(data))
        decreases |data| - i
      {
        ghost var rest := data[i..];
        assert rest[0].At? && rest[0] == data[i] && rest[1] == data[i + 1];
        assert rest[2..] == data[i + 2..];
        PackedTail(rest);
        var d := Unpack(data[i].point, data[i + 1]);
        assert UnpackAll(rest) == [d] + UnpackAll(rest[2..]);
        assert UnpackAll(rest)[1..] == UnpackAll(rest[2..]);
        var _ := doc.ApplyDelta(d);
        i := i + 2;
      }
    }

    /**
     `$sendDeltaQueue` of the client, delivered to this replica: a long queue is replaced
     by the whole value, any other is sent as pairs.
     */
    method Receive(main: Document, queue: seq<Item>)
      requires Valid() && main != doc && |queue| > 0 && Packed(queue) && ApplicableRun(doc.lines, UnpackAll(queue))
      modifies doc
      ensures Valid()
      ensures if |queue| > 50 && |queue| > |main.lines| / 2
              then doc.lines == Split(Join(main.lines, main.NewLineCharacter()))
                              + if StrayInsert(1, 0, Split(Join(main.lines, main.NewLineCharacter()))) then ["undefined"] else []
              else doc.lines == ApplyRun(old(doc.lines), UnpackAll(queue))
    {
      if |queue| > 50 && |queue| > |main.lines| / 2 {
        var value := main.GetValue();
        SetValue(value);
      } else {
        OnPairs(queue);
      }
    }

    /**
     A replica in step stays in step: the main document applies a run, the client sends
     its queued events, and the replica holds the same lines, provided no insertion ends
     in an empty chunk and, if the whole value was sent, the lines contain no line breaks
     and are not so many that a stray one is left.
     */
    method Replicate(main: Document, ds: seq<Delta>)
      requires Valid() && main != doc && main.Valid() && main.lines == doc.lines
      requires IsNewLine(main.NewLineCharacter())
      requires ApplicableRun(main.lines, ds) && (forall d :: d in ds ==> !EndsEmpty(d)) && |RunEvents(ds)| > 0
      modifies doc, main`lines, main`changes, main.anchors
      ensures main.lines == ApplyRun(old(main.lines), ds)
      ensures SendsWholeValue(|main.lines|, PackAll(RunEvents(ds)))
              && (forall line :: line in main.lines ==> BreakFree(line)) && !StrayInsert(1, 0, main.lines)
              ==> doc.lines == main.lines
      ensures !SendsWholeValue(|main.lines|, PackAll(RunEvents(ds))) ==> doc.lines == main.lines
    {
      hide ApplicableRun, ApplyRun, EndsEmpty, RunEvents;
      var sent := |main.changes|;
      ReplicaRun(main.lines, ds);
      var _ := main.ApplyDeltas(ds);
      assert main.changes[sent..] == RunEvents(ds);
      Receive(main, PackAll(main.changes[sent..]));
      JoinSplit(main.lines, main.NewLineCharacter());
      assert main.lines + [] == main.lines;
    }
  }

  predicate SendsWholeValue(length: nat, queue: seq<Item>) {
    |queue| > 50 && |queue| > length / 2
  }

  lemma PackedTail(items: seq<Item>)
    requires Packed(items) && |items| > 0
    ensures |items| >= 2 && Packed(items[2..])
  {
    assert forall i :: 0 <= i < |items| - 2 && i % 2 == 0 ==> items[i + 2].At?;
  }
}
