/**
 The editing operations as functions on the links of all nodes, and what each does to
 the child lists, the parents and the invariant.
 */
module DomSteps {
  import opened Dom

  lemma WithoutKeeps(s: seq<Node>, n: Node, x: Node)
    requires x in s && x != n
    ensures x in Without(s, n)
  {
    if s[0] != n && s[0] != x {
      WithoutKeeps(s[1..], n, x);
    }
  }

  lemma WithoutPart(s: seq<Node>, x: Node)
    ensures forall n :: n in Without(s, x) ==> n in s
  {
  }

  /** The first step of every insertion: the node leaves the list it is in. */
  function TakenOut(m: Forest, c: Node): Forest
    requires World(m) && Insertable(m, c)
  {
    var q := m[c].parentNode;
    if q == null then m
    else
      RemovableInside(m, q, c);
      Removed(m, q, c)
  }

  lemma TakenOutWorld(m: Forest, c: Node)
    requires World(m) && Insertable(m, c)
    ensures var r := TakenOut(m, c);
            && World(r) && r.Keys == m.Keys && Detached(r, c)
            && forall n :: n in m ==> r[n].kids == Without(m[n].kids, c) && r[n].parentNode == m[n].parentNode && r[n].nodeType == m[n].nodeType
  {
    hide World, Detached, Without, Removed, Fits;
    var q := m[c].parentNode;
    if q == null {
      Orphan(m, c);
      forall n | n in m
        ensures Without(m[n].kids, c) == m[n].kids
      {
        OrphanAbsent(m, c, n);
        WithoutAbsent(m[n].kids, c);
      }
    } else {
      RemovableInside(m, q, c);
      RemovedWorld(m, q, c);
      if c !in m[q].kids {
        NotHere(m, q, c);
      }
      forall n | n in m
        ensures n in Removed(m, q, c)
        ensures var r := Removed(m, q, c);
                r[n].kids == Without(m[n].kids, c) && r[n].parentNode == m[n].parentNode && r[n].nodeType == m[n].nodeType
      {
        RemovedFields(m, q, c, n);
        ElsewhereSame(m, q, c, n);
      }
    }
  }

  /** A node that is no child of its parent is no child at all. */
  lemma NotHere(m: Forest, q: Node, c: Node)
    requires World(m) && c in m && m[c].parentNode == q && q in m && c !in m[q].kids
    ensures Detached(m, c)
  {
    hide World;
    forall n | n in m
      ensures c !in m[n].kids
    {
      if c in m[n].kids {
        var k := Neighbours(m, n, c);
      }
    }
  }

  lemma ElsewhereSame(m: Forest, q: Node, c: Node, n: Node)
    requires World(m) && c in m && m[c].parentNode == q && q in m && n in m
    ensures n != q ==> Without(m[n].kids, c) == m[n].kids
  {
    hide World, Without;
    if n != q {
      if c in m[n].kids {
        var k := Neighbours(m, n, c);
      }
      WithoutAbsent(m[n].kids, c);
    }
  }

  lemma OrphanAbsent(m: Forest, c: Node, n: Node)
    requires World(m) && c in m && m[c].parentNode == null && n in m
    ensures c !in m[n].kids
  {
    if c in m[n].kids {
      var k := Neighbours(m, n, c);
    }
  }

  lemma Orphan(m: Forest, c: Node)
    requires World(m) && c in m && m[c].parentNode == null
    ensures Detached(m, c)
  {
    forall n | n in m
      ensures c !in m[n].kids
    {
      OrphanAbsent(m, c, n);
    }
  }

  /** After it left, a single node is a block that may be spliced anywhere. */
  lemma SingleReady(m: Forest, p: Node, c: Node, ref: Node?)
    requires World(m) && p in m && c in m && Detached(m, c) && (ref == null || ref in m[p].kids)
    ensures Ready(m, p, [c], ref, null)
  {
    hide Coherent;
  }

  /** The children of a fragment are such a block. */
  lemma FragmentReady(m: Forest, p: Node, f: Node, ref: Node?)
    requires World(m) && p in m && f in m && p != f && m[f].kids != [] && (ref == null || ref in m[p].kids)
    ensures Ready(m, p, m[f].kids, ref, f)
  {
    hide World, Coherent, Distinct;
    var block := m[f].kids;
    CoherentAt(m, f);
    CoherentMeans(m, f);
    forall i | 0 <= i < |block|
      ensures LinkedAt(m, f, block, i)
    {
      CoherentLinked(m, f, i);
    }
    forall i | 0 <= i < |block|
      ensures block[i] in m
    {
      assert LinkedAt(m, f, block, i);
    }
    forall n, i | n in m && n != f && 0 <= i < |block|
      ensures block[i] !in m[n].kids
    {
      if block[i] in m[n].kids {
        OneParent(m, n, f, block[i]);
      }
    }
    forall n | n in m && n != f
      ensures Coherent(m, n)
    {
      CoherentAt(m, n);
    }
    InnerIntro(m, f, block);
  }

  lemma InnerIntro(m: Forest, f: Node, block: seq<Node>)
    requires (forall i :: 0 <= i < |block| ==> block[i] in m) && forall i :: 0 <= i < |block| ==> LinkedAt(m, f, block, i)
    ensures InnerChained(m, block)
  {
    forall i | 0 < i < |block|
      ensures m[block[i]].previousSibling == block[i - 1]
    {
      assert LinkedAt(m, f, block, i);
    }
    forall i | 0 <= i < |block| - 1
      ensures m[block[i]].nextSibling == block[i + 1]
    {
      assert LinkedAt(m, f, block, i);
    }
  }

  // ------------------------------------------------------- putting a node in

  /** The nodes an insertion moves: the children of a fragment, or the node itself. */
  function Block(m: Forest, c: Node): seq<Node>
    requires c in m
  {
    if m[c].nodeType == FRAGMENT_NODE then m[c].kids else [c]
  }

  predicate Enterable(m: Forest, p: Node, c: Node, ref: Node?) {
    && World(m) && p in m && c in m && Detached(m, c) && (ref == null || ref in m[p].kids)
    && (m[c].nodeType == FRAGMENT_NODE ==> c != p)
  }

  function Emptied(m: Forest, f: Node): Forest
    requires f in m
  {
    m[f := m[f].(firstChild := null, lastChild := null, kids := [])]
  }

  /** The fields after a node in no list, or what is in a fragment, is put in front of `ref`. */
  function Entered(m: Forest, p: Node, c: Node, ref: Node?): Forest
    requires Enterable(m, p, c, ref)
  {
    if m[c].nodeType != FRAGMENT_NODE then
      SingleReady(m, p, c, ref);
      SplicedWorld(m, p, [c], ref, null);
      Spliced(m, p, [c], ref)
    else if m[c].kids == [] then m
    else
      FragmentReady(m, p, c, ref);
      SplicedWorld(m, p, m[c].kids, ref, c);
      Emptied(Spliced(m, p, m[c].kids, ref), c)
  }

  /** A fragment that gave its children away is coherent again, with none. */
  lemma ClearedWorld(m: Forest, f: Node)
    requires f in m && m[f].nodeType == FRAGMENT_NODE
    requires forall n :: n in m && n != f ==> Coherent(m, n)
    ensures World(Emptied(m, f))
  {
    hide Coherent;
    var r := Emptied(m, f);
    forall n | n in r
      ensures Coherent(r, n)
    {
      if n != f {
        ClearedOther(m, f, n);
      } else {
        EmptyCoherent(r, f);
      }
    }
  }

  lemma ClearedOther(m: Forest, f: Node, n: Node)
    requires f in m && n in m && n != f && Coherent(m, n)
    ensures Coherent(Emptied(m, f), n)
  {
    hide Coherent, Distinct, Describes;
    var r, kids := Emptied(m, f), m[n].kids;
    CoherentMeans(m, n);
    forall i | 0 <= i < |kids|
      ensures LinkedAt(r, n, kids, i)
    {
      CoherentLinked(m, n, i);
    }
    DescribesIntro(r, n, kids);
    CoherentKept(m, r, n);
  }

  lemma EmptyCoherent(m: Forest, f: Node)
    requires f in m && m[f].nodeType == FRAGMENT_NODE && m[f].kids == [] && m[f].firstChild == null && m[f].lastChild == null
    ensures Coherent(m, f)
  {
  }

  lemma AppendedEnd(s: seq<Node>, c: Node)
    ensures Inserted(s, [c], null) == s + [c]
  {
    assert Place(s, null) == |s|;
    assert s[..|s|] + [c] + s[|s|..] == s + [c];
  }

  lemma InsertedNothing(s: seq<Node>, ref: Node?)
    ensures Inserted(s, [], ref) == s
  {
  }

  lemma InsertedKeeps(s: seq<Node>, block: seq<Node>, ref: Node?, x: Node)
    requires x in s
    ensures x in Inserted(s, block, ref)
  {
    var j := Place(s, ref);
    assert s == s[..j] + s[j..];
  }

  lemma EnteredWorld(m: Forest, p: Node, c: Node, ref: Node?)
    requires Enterable(m, p, c, ref)
    ensures var r := Entered(m, p, c, ref);
            && World(r) && r.Keys == m.Keys
            && forall n :: n in m ==>
                 && r[n].nodeType == m[n].nodeType
                 && r[n].parentNode == (if n in Block(m, c) then p else m[n].parentNode)
                 && r[n].kids == (if n == p then Inserted(m[p].kids, Block(m, c), ref)
                                  else if n == c && m[c].nodeType == FRAGMENT_NODE then []
                                  else m[n].kids)
  {
    hide World, Detached, Ready, Inserted, Spliced, Coherent, Inside;
    if m[c].nodeType != FRAGMENT_NODE {
      SingleReady(m, p, c, ref);
      SplicedWorld(m, p, [c], ref, null);
      WorldIntro(Spliced(m, p, [c], ref));
      forall n | n in m
        ensures var r := Spliced(m, p, [c], ref);
                r[n].nodeType == m[n].nodeType && r[n].parentNode == if n in [c] then p else m[n].parentNode
      {
        SplicedFields(m, p, [c], ref, null, n);
      }
    } else if m[c].kids == [] {
      InsertedNothing(m[p].kids, ref);
    } else {
      var block := m[c].kids;
      FragmentReady(m, p, c, ref);
      SplicedWorld(m, p, block, ref, c);
      SplicedFields(m, p, block, ref, c, c);
      ClearedWorld(Spliced(m, p, block, ref), c);
      forall n | n in m
        ensures var r := Spliced(m, p, block, ref);
                r[n].nodeType == m[n].nodeType && r[n].parentNode == if n in block then p else m[n].parentNode
      {
        SplicedFields(m, p, block, ref, c, n);
      }
    }
  }

  /** The fields after a node in no list is pushed to the children of `p`. */
  function Pushed(m: Forest, p: Node, c: Node): Forest
    requires World(m) && p in m && c in m && Detached(m, c)
  {
    SingleReady(m, p, c, null);
    SplicedWorld(m, p, [c], null, null);
    var r := Spliced(m, p, [c], null);
    r[p := r[p].(childNodes := m[p].childNodes + [c])]
  }

  lemma PushedWorld(m: Forest, p: Node, c: Node)
    requires World(m) && p in m && c in m && Detached(m, c)
    ensures var r := Pushed(m, p, c);
            && World(r) && r.Keys == m.Keys
            && (m[p].nodeType != FRAGMENT_NODE && m[c].nodeType != FRAGMENT_NODE ==>
                  Enterable(m, p, c, null) && r == Entered(m, p, c, null))
            && forall n :: n in m ==>
                 && r[n].kids == (if n == p then m[p].kids + [c] else m[n].kids)
                 && r[n].parentNode == if n == c then p else m[n].parentNode
  {
    hide World, Detached, Ready, Inserted, Spliced, Coherent, Place;
    CoherentAt(m, p);
    ListOf(m, p);
    SingleReady(m, p, c, null);
    SplicedWorld(m, p, [c], null, null);
    AppendedEnd(m[p].kids, c);
    var r := Spliced(m, p, [c], null);
    WorldIntro(r);
    forall n | n in m
      ensures r[n].parentNode == (if n == c then p else m[n].parentNode) && r[n].nodeType == m[n].nodeType
    {
      SplicedFields(m, p, [c], null, null, n);
    }
    SplicedFields(m, p, [c], null, null, p);
    OwnList(r, p, m[p].childNodes + [c]);
  }

  lemma ListOf(m: Forest, n: Node)
    requires n in m && Coherent(m, n)
    ensures m[n].nodeType != FRAGMENT_NODE ==> m[n].childNodes == m[n].kids
  {
  }

  /** Only the list that is kept for a node that is no fragment matters. */
  lemma OwnList(m: Forest, p: Node, cs: seq<Node>)
    requires World(m) && p in m && (m[p].nodeType == FRAGMENT_NODE || cs == m[p].kids)
    ensures World(m[p := m[p].(childNodes := cs)])
    ensures cs == m[p].kids == m[p].childNodes ==> m[p := m[p].(childNodes := cs)] == m
  {
    hide World, Coherent, Describes, Distinct;
    var r := m[p := m[p].(childNodes := cs)];
    forall n | n in r
      ensures Coherent(r, n)
    {
      CoherentAt(m, n);
      CoherentMeans(m, n);
      forall i | 0 <= i < |m[n].kids|
        ensures LinkedAt(r, n, m[n].kids, i)
      {
        LinkedIn(m, n, i);
      }
      DescribesIntro(r, n, m[n].kids);
      OwnListAt(m, r, n);
    }
    WorldIntro(r);
  }

  lemma OwnListAt(m: Forest, r: Forest, n: Node)
    requires n in m && n in r && Coherent(m, n) && Describes(r, n, r[n].kids)
    requires r[n].kids == m[n].kids && r[n].nodeType == m[n].nodeType
    requires r[n].nodeType == FRAGMENT_NODE || r[n].childNodes == m[n].kids || r[n].childNodes == m[n].childNodes
    ensures Coherent(r, n)
  {
  }

  // ------------------------------------------------------------- the operations

  predicate CanInsert(m: Forest, p: Node, c: Node, ref: Node?) {
    && World(m) && Insertable(m, c) && p in m && (ref == null || ref in m[p].kids) && ref != c
    && (m[c].nodeType == 11 ==> c != p)
  }

  lemma EnterableAfter(m: Forest, p: Node, c: Node, ref: Node?)
    requires CanInsert(m, p, c, ref)
    ensures Enterable(TakenOut(m, c), p, c, ref)
  {
    hide World, Insertable, TakenOut, Without, Detached;
    InsertableIn(m, c);
    TakenOutWorld(m, c);
    if ref != null {
      WithoutKeeps(m[p].kids, c, ref);
    }
  }

  lemma InsertableIn(m: Forest, c: Node)
    requires Insertable(m, c)
    ensures c in m
  {
  }

  /** `insertBefore` */
  function AfterInsert(m: Forest, p: Node, c: Node, ref: Node?): Forest
    requires CanInsert(m, p, c, ref)
  {
    EnterableAfter(m, p, c, ref);
    Entered(TakenOut(m, c), p, c, ref)
  }

  /** What an insertion does to every list and every parent. */
  lemma AfterInsertWorld(m: Forest, p: Node, c: Node, ref: Node?)
    requires CanInsert(m, p, c, ref)
    ensures var r := AfterInsert(m, p, c, ref);
            var block := if m[c].nodeType == 11 then Without(m[c].kids, c) else [c];
            && World(r) && r.Keys == m.Keys
            && forall n :: n in m ==>
                 && r[n].nodeType == m[n].nodeType
                 && r[n].parentNode == (if n in block then p else m[n].parentNode)
                 && r[n].kids == (if n == p then Inserted(Without(m[p].kids, c), block, ref)
                                  else if n == c && m[c].nodeType == 11 then []
                                  else Without(m[n].kids, c))
  {
    hide World, Insertable, TakenOut, Without, Detached, Entered, Enterable, Inserted;
    InsertableIn(m, c);
    TakenOutWorld(m, c);
    EnterableAfter(m, p, c, ref);
    EnteredWorld(TakenOut(m, c), p, c, ref);
  }

  /** `_removeChild` */
  function AfterRemove(m: Forest, p: Node, c: Node): Forest
    requires World(m) && Removable(m, p, c)
  {
    RemovableInside(m, p, c);
    Removed(m, p, c)
  }

  /** `replaceChild`: the old child goes after the new one has come; without one the new child comes last. */
  function AfterReplace(m: Forest, p: Node, c: Node, gone: Node?): Forest
    requires CanInsert(m, p, c, gone)
  {
    if gone == null then AfterInsert(m, p, c, null)
    else
      AfterInsertWorld(m, p, c, gone);
      OldStays(m, p, c, gone);
      AfterRemove(AfterInsert(m, p, c, gone), p, gone)
  }

  lemma OldStays(m: Forest, p: Node, c: Node, x: Node)
    requires CanInsert(m, p, c, x)
    ensures var r := AfterInsert(m, p, c, x);
            p in r && x in r[p].kids && Removable(r, p, x) && World(r)
  {
    hide World, Insertable, Without, AfterInsert, Inserted, Inside, Fits;
    InsertableIn(m, c);
    AfterInsertWorld(m, p, c, x);
    WithoutKeeps(m[p].kids, c, x);
    InsertedKeeps(Without(m[p].kids, c), if m[c].nodeType == FRAGMENT_NODE then Without(m[c].kids, c) else [c], x, x);
    var k := Neighbours(AfterInsert(m, p, c, x), p, x);
  }
}
