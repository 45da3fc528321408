/** What `stringify` writes, `parse` reads back: through splitting, decoding, nesting, merging and compacting. */
module QsRoundTrip {
  import opened CodeUnits
  import opened Options
  import opened Percent
  import opened Qs
  import opened QsPaths

  // -------------------------------------------------------------- reading the parts

  /** Encoded text holds none of the characters that structure a query string. */
  lemma {:induction false} PercentTextPlain(t: Str)
    requires IsPercentText(t)
    ensures forall i :: 0 <= i < |t| ==> t[i] != AMPERSAND && t[i] != EQUALS && t[i] != OPEN && t[i] != CLOSE
  {
    if t == [] {
    } else {
      if t[0] == PERCENT {
        PercentTextPlain(t[3..]);
        assert forall i :: 3 <= i < |t| ==> t[i] == t[3..][i - 3];
      } else {
        PercentTextPlain(t[1..]);
        assert forall i :: 1 <= i < |t| ==> t[i] == t[1..][i - 1];
      }
    }
  }

  lemma PartPlain(key: Str, value: Str)
    ensures forall i :: 0 <= i < |Part(key, value)| ==> Part(key, value)[i] != AMPERSAND && Part(key, value)[i] != CLOSE
    ensures Part(key, value) != []
  {
    hide Encoded, Seen, IsPercentText;
    DecodeEncode(key);
    DecodeEncode(value);
    PercentTextPlain(Encoded(Seen(key)));
    PercentTextPlain(Encoded(Seen(value)));
  }

  /** One part is read back. */
  lemma PartRead(key: Str, value: Str)
    requires WellFormed(key) && WellFormed(value)
    ensures ReadPart(Part(key, value)) == Entry(key, Text(value))
  {
    hide Encoded, Seen, IsPercentText, Decode, WellFormed;
    var w, a := Part(key, value), Encoded(Seen(key));
    DecodeEncode(key);
    DecodeEncode(value);
    PercentTextPlain(a);
    PartPlain(key, value);
    assert w[|a|] == EQUALS;
    assert IndexOf(w, EQUALS) == |a| by {
      assert forall j :: 0 <= j < |a| ==> w[j] == a[j];
    }
    assert w[..|a|] == a && w[|a| + 1..] == Encoded(Seen(value));
  }

  predicate Plain(t: Str) {
    forall i :: 0 <= i < |t| ==> t[i] != AMPERSAND
  }

  lemma {:induction false} SplitPlain(a: Str, t: Str)
    requires Plain(a)
    ensures Split(a + [AMPERSAND] + t) == [a] + Split(t)
  {
    var s := a + [AMPERSAND] + t;
    if a == [] {
      assert s[1..] == t;
    } else {
      assert s[0] == a[0] && s[1..] == a[1..] + [AMPERSAND] + t;
      SplitPlain(a[1..], t);
      assert [a[0]] + a[1..] == a;
    }
  }

  lemma {:induction false} SplitOne(a: Str)
    requires Plain(a)
    ensures Split(a) == [a]
  {
    if a == [] {
    } else {
      SplitOne(a[1..]);
      assert [a[0]] + a[1..] == a;
    }
  }

  lemma {:induction false} SplitJoin(parts: seq<Str>)
    requires parts != [] && forall i :: 0 <= i < |parts| ==> Plain(parts[i])
    ensures Split(Join(parts)) == parts
  {
    if |parts| == 1 {
      SplitOne(parts[0]);
    } else {
      SplitJoin(parts[1..]);
      SplitPlain(parts[0], Join(parts[1..]));
      assert [parts[0]] + parts[1..] == parts;
    }
  }

  // ------------------------------------------------------------------ collecting

  predicate GoodLeaves(ls: seq<PathLeaf>) {
    && (forall i :: 0 <= i < |ls| ==> GoodPath(ls[i].path) && WellFormed(ls[i].text))
    && (forall i, j :: 0 <= i < j < |ls| ==> ls[i].path != ls[j].path)
  }

  function EntriesOf(ls: seq<PathLeaf>): (r: seq<Entry>)
    requires Rooted(ls)
  {
    if ls == [] then []
    else
      assert ls[0].path != [];
      [Entry(PathName(ls[0].path), Text(ls[0].text))] + EntriesOf(ls[1..])
  }

  lemma HasNot(es: seq<Entry>, key: Str)
    requires forall j :: 0 <= j < |es| ==> es[j].key != key
    ensures !Has(es, key)
  {
  }

  lemma ProtoSegments()
    ensures Segments(Ascii("__proto__")) == None
  {
    hide Groups, Ascii, NextGroup, BracketFree;
    ProtoBracketFree();
    NoGroup(Ascii("__proto__"));
    assert PROTOTYPE_NAMES[10] == "__proto__";
  }

  lemma NotProto(path: seq<Key>)
    requires GoodPath(path)
    ensures PathName(path) != Ascii("__proto__")
  {
    hide *;
    NameSegments(path);
    ProtoSegments();
  }

  lemma ProtoBracketFree()
    ensures BracketFree(Ascii("__proto__")) && Ascii("__proto__") != []
  {
    var a := Ascii("__proto__");
    assert "__proto__"[1..] == "_proto__" && "_proto__"[1..] == "proto__" && "proto__"[1..] == "roto__" && "roto__"[1..] == "oto__";
    assert "oto__"[1..] == "to__" && "to__"[1..] == "o__" && "o__"[1..] == "__" && "__"[1..] == "_" && "_"[1..] == "";
  }

  lemma {:induction false} NoGroup(a: Str)
    requires BracketFree(a)
    ensures NextGroup(a) == None
  {
    if a == [] {
    } else {
      NoGroup(a[1..]);
    }
  }

  predicate Unused(ls: seq<PathLeaf>, es: seq<Entry>)
    requires Rooted(ls)
  {
    forall i, j :: 0 <= i < |ls| && 0 <= j < |es| ==> es[j].key != PathName(ls[i].path)
  }

  lemma UnusedNext(ls: seq<PathLeaf>, es: seq<Entry>, e: Entry)
    requires Rooted(ls) && ls != [] && GoodLeaves(ls) && Unused(ls, es) && e.key == PathName(ls[0].path)
    ensures Unused(ls[1..], es + [e]) && !Has(es, e.key)
  {
    hide GoodPath, WellFormed, PathName, Place;
    var next := es + [e];
    HasNot(es, e.key);
    forall i, j | 0 <= i < |ls[1..]| && 0 <= j < |next|
      ensures next[j].key != PathName(ls[1..][i].path)
    {
      assert ls[1..][i] == ls[i + 1] && GoodPath(ls[0].path) && GoodPath(ls[i + 1].path);
      if j == |es| && PathName(ls[0].path) == PathName(ls[i + 1].path) {
        NameInjective(ls[0].path, ls[i + 1].path);
      }
    }
  }

  lemma TailGood(ls: seq<PathLeaf>)
    requires ls != [] && GoodLeaves(ls) && Rooted(ls)
    ensures GoodLeaves(ls[1..]) && Rooted(ls[1..]) && GoodPath(ls[0].path) && WellFormed(ls[0].text)
  {
    hide GoodPath, WellFormed;
  }

  lemma CollectedStep(parts: seq<Str>, es: seq<Entry>)
    requires parts != []
    requires var e := ReadPart(parts[0]);
             !Has(es, e.key) && e.key != Ascii("__proto__")
    ensures Collected(parts, es) == Collected(parts[1..], es + [ReadPart(parts[0])])
  {
    hide ReadPart, Ascii, Has;
  }

  lemma {:induction false} CollectedAre(ls: seq<PathLeaf>, es: seq<Entry>)
    requires GoodLeaves(ls) && Rooted(ls) && Unused(ls, es)
    ensures Collected(NamedParts(ls), es) == es + EntriesOf(ls)
  {
    hide *;
    if ls == [] {
      NothingCollected(es, ls);
    } else {
      var l := ls[0];
      TailGood(ls);
      NamedPartsTail(ls);
      var e := Entry(PathName(l.path), Text(l.text));
      NameWellFormed(l.path);
      PartRead(PathName(l.path), l.text);
      NotProto(l.path);
      UnusedNext(ls, es, e);
      CollectedStep(NamedParts(ls), es);
      CollectedAre(ls[1..], es + [e]);
      EntriesTail(ls, es);
    }
  }

  lemma NamedPartsTail(ls: seq<PathLeaf>)
    requires Rooted(ls) && ls != []
    ensures Rooted(ls[1..]) && ls[0].path != [] && NamedParts(ls) != []
    ensures NamedParts(ls)[0] == Part(PathName(ls[0].path), ls[0].text) && NamedParts(ls)[1..] == NamedParts(ls[1..])
  {
    hide Part, PathName;
  }

  lemma {:induction false} EntriesTail(ls: seq<PathLeaf>, es: seq<Entry>)
    requires Rooted(ls) && ls != []
    ensures Rooted(ls[1..])
    ensures es + EntriesOf(ls) == es + [Entry(PathName(ls[0].path), Text(ls[0].text))] + EntriesOf(ls[1..])
  {
    hide PathName;
    assert ls[0].path != [];
  }

  lemma NothingCollected(es: seq<Entry>, ls: seq<PathLeaf>)
    requires ls == []
    ensures Rooted(ls) && Collected(NamedParts(ls), es) == es + EntriesOf(ls)
  {
    assert es + [] == es;
  }

  // -------------------------------------------------------------------- merging

  function LeafChain(l: PathLeaf): Value {
    Chain(l.path, Text(l.text))
  }

  function MergeChains(t: Value, ls: seq<PathLeaf>): Value
    decreases |ls|
  {
    if ls == [] then t else MergeChains(Merge(t, LeafChain(ls[0])), ls[1..])
  }

  lemma {:induction false} ParsedAreChains(t: Value, ls: seq<PathLeaf>)
    requires GoodLeaves(ls) && Rooted(ls)
    ensures MergeParsed(t, EntriesOf(ls)) == MergeChains(t, ls)
    decreases |ls|
  {
    hide GoodPath, ParseKey, Chain, Merge, PathName;
    if ls == [] {
    } else {
      assert GoodPath(ls[0].path);
      NameParsed(ls[0].path, Text(ls[0].text));
      assert EntriesOf(ls)[1..] == EntriesOf(ls[1..]);
      ParsedAreChains(Merge(t, LeafChain(ls[0])), ls[1..]);
    }
  }

  lemma {:induction false} MergeChainsJoin(t: Value, a: seq<PathLeaf>, b: seq<PathLeaf>)
    ensures MergeChains(t, a + b) == MergeChains(MergeChains(t, a), b)
    decreases |a|
  {
    if a == [] {
      assert a + b == b;
    } else {
      assert (a + b)[1..] == a[1..] + b;
      MergeChainsJoin(Merge(t, LeafChain(a[0])), a[1..], b);
    }
  }

  predicate Lacks(es: seq<Entry>, key: Str) {
    forall j :: 0 <= j < |es| ==> es[j].key != key
  }

  lemma MergeNewKey(es: seq<Entry>, k: Str, c: Value)
    requires Lacks(es, k)
    ensures Merge(Obj(es), Obj([Entry(k, c)])) == Obj(es + [Entry(k, c)])
  {
    HasNot(es, k);
    var a := Obj([Entry(k, c)]);
    assert MergeEntries(es + [Entry(k, c)], a, 1) == es + [Entry(k, c)];
  }

  lemma MergeOldKey(es: seq<Entry>, k: Str, x: Value, c: Value)
    requires Lacks(es, k)
    ensures Merge(Obj(es + [Entry(k, x)]), Obj([Entry(k, c)])) == Obj(es + [Entry(k, Merge(x, c))])
  {
    var a, t := Obj([Entry(k, c)]), es + [Entry(k, x)];
    PlaceLast(es, k, x);
    assert t[|es| := Entry(k, Merge(x, c))] == es + [Entry(k, Merge(x, c))];
    assert MergeEntries(es + [Entry(k, Merge(x, c))], a, 1) == es + [Entry(k, Merge(x, c))];
  }

  lemma PlaceLast(es: seq<Entry>, k: Str, x: Value)
    requires Lacks(es, k)
    ensures Place(es + [Entry(k, x)], k) == |es|
  {
    var t := es + [Entry(k, x)];
    forall j | 0 <= j < |es|
      ensures t[j].key != k
    {
      assert t[j] == es[j];
    }
    assert t[|es|].key == k;
  }

  lemma {:induction false} UnderNamed(es: seq<Entry>, k: Str, x: Value, ls: seq<PathLeaf>)
    requires Lacks(es, k)
    ensures MergeChains(Obj(es + [Entry(k, x)]), Under(Named(k), ls)) == Obj(es + [Entry(k, MergeChains(x, ls))])
    decreases |ls|
  {
    hide Merge, Lacks;
    if ls == [] {
    } else {
      var u := Under(Named(k), ls);
      assert u[1..] == Under(Named(k), ls[1..]);
      UnderChain(Named(k), ls[0]);
      MergeOldKey(es, k, x, LeafChain(ls[0]));
      UnderNamed(es, k, Merge(x, LeafChain(ls[0])), ls[1..]);
    }
  }

  lemma UnderChain(k: Key, l: PathLeaf)
    ensures LeafChain(PathLeaf([k] + l.path, l.text)) ==
            match k case Named(name) => Obj([Entry(name, LeafChain(l))]) case Index(i) => Arr(Holes(i) + [Some(LeafChain(l))])
  {
    assert ([k] + l.path)[1..] == l.path;
  }

  lemma {:induction false} SkipHoles(ts: seq<Option<Value>>, i: nat, c: Value, n: nat)
    requires n <= i
    ensures MergeItems(ts, Arr(Holes(i) + [Some(c)]), n) == MergeItems(ts, Arr(Holes(i) + [Some(c)]), i)
    decreases i - n
  {
    if n == i {
    } else {
      SkipHoles(ts, i, c, n + 1);
    }
  }

  lemma MergeNewItem(items: seq<Option<Value>>, c: Value)
    ensures Merge(Arr(items), Arr(Holes(|items|) + [Some(c)])) == Arr(items + [Some(c)])
  {
    hide Holes, MergeItems, MergeEntries, MergeIndexed, IndexEntries;
    SkipHoles(items, |items|, c, 0);
    LastItemNew(items, c);
  }

  lemma LastItemNew(items: seq<Option<Value>>, c: Value)
    ensures MergeItems(items, Arr(Holes(|items|) + [Some(c)]), |items|) == items + [Some(c)]
  {
    hide Merge, Holes;
    var i := |items|;
    var a := Arr(Holes(i) + [Some(c)]);
    NoHoles(items, c);
    assert MergeItems(items + [Some(c)], a, i + 1) == items + [Some(c)];
  }

  lemma NoHoles(items: seq<Option<Value>>, c: Value)
    ensures items + Holes(0) + [Some(c)] == items + [Some(c)]
  {
  }

  lemma MergeOldItem(items: seq<Option<Value>>, x: Value, c: Value)
    requires IsObject(x) && IsObject(c)
    ensures Merge(Arr(items + [Some(x)]), Arr(Holes(|items|) + [Some(c)])) == Arr(items + [Some(Merge(x, c))])
    ensures IsObject(Merge(x, c))
  {
    var i, t := |items|, items + [Some(x)];
    var a := Arr(Holes(i) + [Some(c)]);
    SkipHoles(t, i, c, 0);
    assert t[i := Some(Merge(x, c))] == items + [Some(Merge(x, c))];
    assert MergeItems(items + [Some(Merge(x, c))], a, i + 1) == items + [Some(Merge(x, c))];
  }

  lemma {:induction false} UnderIndex(items: seq<Option<Value>>, x: Value, ls: seq<PathLeaf>)
    requires ls != [] ==> IsObject(x)
    requires Rooted(ls)
    ensures MergeChains(Arr(items + [Some(x)]), Under(Index(|items|), ls)) == Arr(items + [Some(MergeChains(x, ls))])
    decreases |ls|
  {
    hide Merge;
    if ls == [] {
    } else {
      var u := Under(Index(|items|), ls);
      assert u[1..] == Under(Index(|items|), ls[1..]);
      UnderChain(Index(|items|), ls[0]);
      assert ls[0].path != [];
      MergeOldItem(items, x, LeafChain(ls[0]));
      UnderIndex(items, Merge(x, LeafChain(ls[0])), ls[1..]);
    }
  }

  // ------------------------------------------------------------------ the tree back

  /** What a tree is read as. */
  function ValueOf(t: Tree): Value
    decreases t, 1, 0
  {
    if t.Leaf? then Text(t.s) else FirstKids(t, Arity(t))
  }

  /** The value with the first kids of a tree. */
  function FirstKids(t: Tree, n: nat): (v: Value)
    requires n <= Arity(t) && !t.Leaf?
    ensures if t.Object? then v.Obj? && |v.entries| == n else v.Arr? && |v.items| == n
    decreases t, 0, n
  {
    if n == 0 then if t.Object? then Obj([]) else Arr([])
    else if t.Object? then Obj(FirstKids(t, n - 1).entries + [Entry(t.fields[n - 1].key, ValueOf(Kid(t, n - 1)))])
    else Arr(FirstKids(t, n - 1).items + [Some(ValueOf(Kid(t, n - 1)))])
  }

  lemma {:induction false} FirstKidsAt(t: Tree, n: nat)
    requires n <= Arity(t) && !t.Leaf?
    ensures t.Object? ==> forall i :: 0 <= i < n ==> FirstKids(t, n).entries[i] == Entry(t.fields[i].key, ValueOf(Kid(t, i)))
    ensures t.List? ==> forall i :: 0 <= i < n ==> FirstKids(t, n).items[i] == Some(ValueOf(Kid(t, i)))
  {
    if n == 0 {
    } else {
      FirstKidsAt(t, n - 1);
    }
  }

  predicate DistinctKeys(t: Tree) {
    t.Object? ==> forall i, j :: 0 <= i < j < |t.fields| ==> t.fields[i].key != t.fields[j].key
  }

  /** A tree that may stand below the root, with at most `depth` keys on a path. */
  predicate Good(t: Tree, depth: nat)
    decreases t
  {
    if t.Leaf? then WellFormed(t.s)
    else
      && depth > 0 && Arity(t) > 0 && DistinctKeys(t)
      && forall i :: 0 <= i < Arity(t) ==> GoodStep(KidKey(t, i)) && Good(Kid(t, i), depth - 1)
  }

  /** The leaves collected into one value. */
  function Assembled(ls: seq<PathLeaf>): Value
    requires ls != []
  {
    MergeChains(LeafChain(ls[0]), ls[1..])
  }

  lemma {:induction false} LeavesRooted(t: Tree, i: nat)
    requires i <= Arity(t) && !t.Leaf?
    ensures Rooted(LeavesFrom(t, i))
    decreases Arity(t) - i
  {
    if i == Arity(t) {
    } else {
      LeavesRooted(t, i + 1);
    }
  }

  lemma {:induction false} SomeLeaf(t: Tree, depth: nat)
    requires Good(t, depth)
    ensures Leaves(t) != []
    decreases t
  {
    if t.Leaf? {
    } else {
      SomeLeaf(Kid(t, 0), depth - 1);
      assert LeavesFrom(t, 0) == Under(KidKey(t, 0), Leaves(Kid(t, 0))) + LeavesFrom(t, 1);
    }
  }

  /** One kid's leaves add that kid. */
  lemma KidMerged(t: Tree, i: nat, ls: seq<PathLeaf>)
    requires i < Arity(t) && !t.Leaf? && DistinctKeys(t) && ls != [] && (|ls| > 1 ==> Rooted(ls))
    requires Assembled(ls) == ValueOf(Kid(t, i))
    ensures MergeChains(FirstKids(t, i), Under(KidKey(t, i), ls)) == FirstKids(t, i + 1)
  {
    hide Merge, ValueOf;
    var k, u := KidKey(t, i), Under(KidKey(t, i), ls);
    assert u[1..] == Under(k, ls[1..]);
    UnderChain(k, ls[0]);
    FirstKidsAt(t, i);
    var c := LeafChain(ls[0]);
    if t.Object? {
      var es := FirstKids(t, i).entries;
      assert Lacks(es, t.fields[i].key);
      MergeNewKey(es, t.fields[i].key, c);
      UnderNamed(es, t.fields[i].key, c, ls[1..]);
    } else {
      var items := FirstKids(t, i).items;
      MergeNewItem(items, c);
      if |ls| > 1 {
        assert ls[0].path != [];
      }
      UnderIndex(items, c, ls[1..]);
    }
  }

  lemma {:induction false} Rebuilt(t: Tree, depth: nat)
    requires Good(t, depth)
    ensures Leaves(t) != [] && Assembled(Leaves(t)) == ValueOf(t)
    decreases t, 1, 0
  {
    SomeLeaf(t, depth);
    if t.Leaf? {
    } else {
      forall i | 0 <= i < Arity(t)
        ensures Leaves(Kid(t, i)) != [] && Assembled(Leaves(Kid(t, i))) == ValueOf(Kid(t, i))
      {
        Rebuilt(Kid(t, i), depth - 1);
      }
      RebuiltFrom(t, 0);
      FirstIntoEmpty(t, depth);
    }
  }

  /** The first leaf's chain is what it is when merged into the empty object or array. */
  lemma FirstIntoEmpty(t: Tree, depth: nat)
    requires Good(t, depth) && !t.Leaf?
    ensures Leaves(t) != [] && MergeChains(FirstKids(t, 0), Leaves(t)) == Assembled(Leaves(t))
  {
    hide Merge, Chain;
    SomeLeaf(t, depth);
    SomeLeaf(Kid(t, 0), depth - 1);
    var ls := Leaves(Kid(t, 0));
    assert Leaves(t) == Under(KidKey(t, 0), ls) + LeavesFrom(t, 1);
    UnderChain(KidKey(t, 0), ls[0]);
    assert [] + [Some(LeafChain(ls[0]))] == [Some(LeafChain(ls[0]))];
    assert Holes(0) + [Some(LeafChain(ls[0]))] == [Some(LeafChain(ls[0]))];
    if t.Object? {
      MergeNewKey([], t.fields[0].key, LeafChain(ls[0]));
      assert [] + [Entry(t.fields[0].key, LeafChain(ls[0]))] == [Entry(t.fields[0].key, LeafChain(ls[0]))];
    } else {
      MergeNewItem([], LeafChain(ls[0]));
    }
  }

  lemma {:induction false} RebuiltFrom(t: Tree, i: nat)
    requires !t.Leaf? && i <= Arity(t) && DistinctKeys(t)
    requires forall j :: i <= j < Arity(t) ==> Leaves(Kid(t, j)) != [] && Assembled(Leaves(Kid(t, j))) == ValueOf(Kid(t, j))
    ensures MergeChains(FirstKids(t, i), LeavesFrom(t, i)) == ValueOf(t)
    decreases Arity(t) - i
  {
    hide Assembled, Merge, MergeChains, Leaves, DistinctKeys, ValueOf, FirstKids, Under;
    if i < Arity(t) {
      var ls := Leaves(Kid(t, i));
      KidRooted(Kid(t, i));
      KidMerged(t, i, ls);
      MergeChainsJoin(FirstKids(t, i), Under(KidKey(t, i), ls), LeavesFrom(t, i + 1));
      RebuiltFrom(t, i + 1);
    } else {
      RebuiltEnd(t);
    }
  }

  lemma KidRooted(k: Tree)
    ensures |Leaves(k)| > 1 ==> Rooted(Leaves(k))
  {
    if !k.Leaf? {
      LeavesRooted(k, 0);
    }
  }

  lemma RebuiltEnd(t: Tree)
    requires !t.Leaf?
    ensures MergeChains(FirstKids(t, Arity(t)), LeavesFrom(t, Arity(t))) == ValueOf(t)
  {
  }

  // ----------------------------------------------------------------- compacting

  lemma {:induction false} CompactKept(t: Tree)
    ensures Compacted(ValueOf(t)) == ValueOf(t)
    decreases t, 1, 0
  {
    if !t.Leaf? {
      CompactKeptFrom(t, 0);
      FirstKidsAt(t, Arity(t));
    }
  }

  lemma {:induction false} CompactKeptFrom(t: Tree, i: nat)
    requires !t.Leaf? && i <= Arity(t)
    ensures t.Object? ==> CompactedEntries(ValueOf(t), i) == ValueOf(t).entries[i..]
    ensures t.List? ==> CompactedItems(ValueOf(t), i) == ValueOf(t).items[i..]
    decreases t, 0, Arity(t) - i
  {
    FirstKidsAt(t, Arity(t));
    if i == Arity(t) {
    } else {
      CompactKept(Kid(t, i));
      CompactKeptFrom(t, i + 1);
      if t.Object? {
        assert ValueOf(t).entries[i..] == [ValueOf(t).entries[i]] + ValueOf(t).entries[i + 1..];
      } else {
        assert ValueOf(t).items[i..] == [ValueOf(t).items[i]] + ValueOf(t).items[i + 1..];
      }
    }
  }

  // ------------------------------------------------------------------ good leaves

  predicate GoodLeaf(l: PathLeaf, depth: nat) {
    |l.path| <= depth && WellFormed(l.text) && forall i :: 0 <= i < |l.path| ==> GoodStep(l.path[i])
  }

  predicate DistinctPaths(ls: seq<PathLeaf>) {
    forall i, j :: 0 <= i < j < |ls| ==> ls[i].path != ls[j].path
  }

  lemma {:induction false} LeavesGood(t: Tree, depth: nat)
    requires Good(t, depth)
    ensures AllGood(Leaves(t), depth) && DistinctPaths(Leaves(t))
    decreases t, 1, 0
  {
    if t.Leaf? {
    } else {
      forall i | 0 <= i < Arity(t)
        ensures AllGood(Leaves(Kid(t, i)), depth - 1) && DistinctPaths(Leaves(Kid(t, i)))
      {
        LeavesGood(Kid(t, i), depth - 1);
      }
      KeysDiffer(t);
      LeavesGoodFrom(t, 0, depth);
    }
  }

  predicate DistinctKidKeys(t: Tree) {
    forall i, j :: 0 <= i < j < Arity(t) ==> KidKey(t, i) != KidKey(t, j)
  }

  lemma KeysDiffer(t: Tree)
    requires DistinctKeys(t)
    ensures DistinctKidKeys(t)
  {
  }

  /** Every leaf from the `i`-th kid on begins with the key of such a kid. */
  predicate Begins(t: Tree, i: nat, l: PathLeaf) {
    l.path != [] && exists j :: i <= j < Arity(t) && l.path[0] == KidKey(t, j)
  }

  lemma {:induction false} LeavesBegin(t: Tree, i: nat)
    requires i <= Arity(t)
    ensures forall k :: 0 <= k < |LeavesFrom(t, i)| ==> Begins(t, i, LeavesFrom(t, i)[k])
    decreases Arity(t) - i
  {
    if i == Arity(t) {
    } else {
      LeavesBegin(t, i + 1);
      var u, rest := Under(KidKey(t, i), Leaves(Kid(t, i))), LeavesFrom(t, i + 1);
      forall k | 0 <= k < |LeavesFrom(t, i)|
        ensures Begins(t, i, LeavesFrom(t, i)[k])
      {
        if k < |u| {
          assert LeavesFrom(t, i)[k] == u[k] && u[k].path[0] == KidKey(t, i);
        } else {
          assert LeavesFrom(t, i)[k] == rest[k - |u|] && Begins(t, i + 1, rest[k - |u|]);
        }
      }
    }
  }

  lemma UnderDistinct(k: Key, ls: seq<PathLeaf>)
    requires DistinctPaths(ls)
    ensures DistinctPaths(Under(k, ls))
  {
    var u := Under(k, ls);
    forall a, b | 0 <= a < b < |u|
      ensures u[a].path != u[b].path
    {
      assert u[a].path[1..] == ls[a].path && u[b].path[1..] == ls[b].path;
    }
  }

  lemma DistinctJoin(a: seq<PathLeaf>, b: seq<PathLeaf>)
    requires DistinctPaths(a) && DistinctPaths(b)
    requires forall i, j :: 0 <= i < |a| && 0 <= j < |b| ==> a[i].path != b[j].path
    ensures DistinctPaths(a + b)
  {
  }

  lemma {:induction false} LeavesDistinctFrom(t: Tree, i: nat)
    requires i <= Arity(t) && DistinctKidKeys(t)
    requires forall j :: i <= j < Arity(t) ==> DistinctPaths(Leaves(Kid(t, j)))
    ensures DistinctPaths(LeavesFrom(t, i))
    decreases Arity(t) - i
  {
    if i == Arity(t) {
    } else {
      LeavesDistinctFrom(t, i + 1);
      LeavesBegin(t, i + 1);
      var ls, rest := Leaves(Kid(t, i)), LeavesFrom(t, i + 1);
      var u, all := Under(KidKey(t, i), ls), LeavesFrom(t, i);
      assert all == u + rest;
      UnderDistinct(KidKey(t, i), ls);
      forall a, b | 0 <= a < |u| && 0 <= b < |rest|
        ensures u[a].path != rest[b].path
      {
        assert Begins(t, i + 1, rest[b]) && u[a].path[0] == KidKey(t, i);
      }
      DistinctJoin(u, rest);
    }
  }

  predicate AllGood(ls: seq<PathLeaf>, depth: nat) {
    forall k :: 0 <= k < |ls| ==> GoodLeaf(ls[k], depth)
  }

  lemma UnderGood(k: Key, ls: seq<PathLeaf>, depth: nat)
    requires depth > 0 && GoodStep(k) && AllGood(ls, depth - 1)
    ensures AllGood(Under(k, ls), depth)
  {
    hide WellFormed, GoodStep;
    var u := Under(k, ls);
    forall i | 0 <= i < |u|
      ensures GoodLeaf(u[i], depth)
    {
      assert GoodLeaf(ls[i], depth - 1) && u[i] == PathLeaf([k] + ls[i].path, ls[i].text);
    }
  }

  lemma JoinGood(a: seq<PathLeaf>, b: seq<PathLeaf>, depth: nat)
    requires AllGood(a, depth) && AllGood(b, depth)
    ensures AllGood(a + b, depth)
  {
    hide GoodLeaf;
  }

  lemma {:induction false} LeavesGoodFrom(t: Tree, i: nat, depth: nat)
    requires i <= Arity(t) && depth > 0 && DistinctKidKeys(t)
    requires forall j :: i <= j < Arity(t) ==> GoodStep(KidKey(t, j)) && DistinctPaths(Leaves(Kid(t, j)))
    requires forall j :: i <= j < Arity(t) ==> AllGood(Leaves(Kid(t, j)), depth - 1)
    ensures AllGood(LeavesFrom(t, i), depth) && DistinctPaths(LeavesFrom(t, i))
    decreases Arity(t) - i
  {
    hide GoodStep, AllGood, DistinctPaths, DistinctKidKeys;
    LeavesDistinctFrom(t, i);
    if i < Arity(t) {
      LeavesGoodFrom(t, i + 1, depth);
      UnderGood(KidKey(t, i), Leaves(Kid(t, i)), depth);
      JoinGood(Under(KidKey(t, i), Leaves(Kid(t, i))), LeavesFrom(t, i + 1), depth);
    } else {
      NoneGood(depth);
    }
  }

  lemma NoneGood(depth: nat)
    ensures AllGood([], depth)
  {
  }

  /** The object at the root: its keys may also look like array indices. */
  predicate GoodRoot(t: Tree) {
    t.Object? && DistinctKeys(t) && forall i :: 0 <= i < Arity(t) ==> GoodKey(t.fields[i].key) && Good(t.fields[i].tree, DEPTH)
  }

  lemma RootLeaves(t: Tree)
    requires GoodRoot(t)
    ensures GoodLeaves(LeavesFrom(t, 0)) && Rooted(LeavesFrom(t, 0))
  {
    hide WellFormed, GoodStep, GoodKey, GoodPath;
    var ls := LeavesFrom(t, 0);
    KeysDiffer(t);
    LeavesRooted(t, 0);
    forall i | 0 <= i < Arity(t)
      ensures DistinctPaths(Leaves(Kid(t, i)))
    {
      LeavesGood(Kid(t, i), DEPTH);
    }
    LeavesDistinctFrom(t, 0);
    RootPathsGood(t, 0);
  }

  lemma {:induction false} RootPathsGood(t: Tree, i: nat)
    requires GoodRoot(t) && i <= Arity(t)
    ensures forall k :: 0 <= k < |LeavesFrom(t, i)| ==> GoodPath(LeavesFrom(t, i)[k].path) && WellFormed(LeavesFrom(t, i)[k].text)
    decreases Arity(t) - i
  {
    hide WellFormed, GoodStep, GoodKey;
    if i == Arity(t) {
    } else {
      RootPathsGood(t, i + 1);
      LeavesGood(Kid(t, i), DEPTH);
      var ls, rest := Leaves(Kid(t, i)), LeavesFrom(t, i + 1);
      var u, all := Under(KidKey(t, i), ls), LeavesFrom(t, i);
      forall k | 0 <= k < |all|
        ensures GoodPath(all[k].path) && WellFormed(all[k].text)
      {
        if k < |u| {
          assert GoodLeaf(ls[k], DEPTH);
          assert all[k] == PathLeaf([KidKey(t, i)] + ls[k].path, ls[k].text);
        } else {
          assert all[k] == rest[k - |u|];
        }
      }
    }
  }

  /**
   For nested non-empty objects and arrays of strings under allowed keys, with at most
   1000 leaves, `parse` gives back what `stringify` was given.
   */
  lemma RoundTrip(t: Tree)
    requires GoodRoot(t) && |LeavesFrom(t, 0)| <= PARAMETER_LIMIT
    ensures Parse(Stringify(t.fields)) == ValueOf(t)
  {
    hide Part, Merge, Compacted, Collected, Good, GoodLeaves, Assembled, Leaves;
    var ls := LeavesFrom(t, 0);
    RootLeaves(t);
    AllPartsAre(t, 0);
    assert t.fields[0..] == t.fields;
    var parts := NamedParts(ls);
    if ls == [] {
      NoLeavesNoFields(t);
    } else {
      PartsPlain(ls);
      SplitJoin(parts);
      JoinNotEmpty(parts);
      CollectedAre(ls, []);
      assert [] + EntriesOf(ls) == EntriesOf(ls);
      ParsedAreChains(Obj([]), ls);
      KidsRebuilt(t);
    }
    CompactKept(t);
  }

  lemma NoLeavesNoFields(t: Tree)
    requires GoodRoot(t) && LeavesFrom(t, 0) == []
    ensures t.fields == [] && ValueOf(t) == Obj([]) && AllParts(t.fields) == []
  {
    if t.fields != [] {
      FirstLeaf(t);
    }
  }

  lemma FirstLeaf(t: Tree)
    requires GoodRoot(t) && t.fields != []
    ensures LeavesFrom(t, 0) != []
  {
    SomeLeaf(Kid(t, 0), DEPTH);
    assert LeavesFrom(t, 0) == Under(KidKey(t, 0), Leaves(Kid(t, 0))) + LeavesFrom(t, 1);
  }

  lemma KidsRebuilt(t: Tree)
    requires GoodRoot(t)
    ensures MergeChains(Obj([]), LeavesFrom(t, 0)) == ValueOf(t)
  {
    hide Assembled, MergeChains;
    forall i | 0 <= i < Arity(t)
      ensures Leaves(Kid(t, i)) != [] && Assembled(Leaves(Kid(t, i))) == ValueOf(Kid(t, i))
    {
      Rebuilt(Kid(t, i), DEPTH);
    }
    RebuiltFrom(t, 0);
  }

  lemma PartsPlain(ls: seq<PathLeaf>)
    requires Rooted(ls)
    ensures forall i :: 0 <= i < |ls| ==> Plain(NamedParts(ls)[i]) && NamedParts(ls)[i] != []
  {
    hide Part;
    forall i | 0 <= i < |ls|
      ensures Plain(NamedParts(ls)[i]) && NamedParts(ls)[i] != []
    {
      PartPlain(PathName(ls[i].path), ls[i].text);
    }
  }

  lemma JoinNotEmpty(parts: seq<Str>)
    requires parts != [] && parts[0] != []
    ensures Join(parts) != []
  {
  }

  /** An object or array without entries is not written at all, and so not read back. */
  lemma EmptyIsLost(key: Str)
    ensures Parse(Stringify([Field(key, Object([]))])) == Obj([]) == Parse(Stringify([Field(key, List([]))]))
  {
    assert [Field(key, Object([]))][1..] == [] && [Field(key, List([]))][1..] == [];
    assert AllParts([]) == [];
    assert Parts(key, Object([])) == [] && Parts(key, List([])) == [];
    assert AllParts([Field(key, Object([]))]) == [] == AllParts([Field(key, List([]))]);
  }
}
