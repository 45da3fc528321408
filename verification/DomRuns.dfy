/**
 Runs of editing operations.  What the pointers show after any run is what the same
 operations make of plain lists: which edits may follow, and what every list then is,
 can be read off the lists alone.
 */
module DomRuns {
  import opened Dom
  import opened DomSteps

  /** `insertBefore` and `appendChild`, `removeChild`, `replaceChild`. */
  datatype Edit =
    | Insert(parent: Node, child: Node, ref: Node?)
    | Remove(parent: Node, child: Node)
    | Replace(parent: Node, child: Node, gone: Node?)

  predicate Legal(m: Forest, e: Edit) {
    match e
    case Insert(p, c, ref) => CanInsert(m, p, c, ref)
    case Remove(p, c) => World(m) && Removable(m, p, c)
    case Replace(p, c, gone) => CanInsert(m, p, c, gone)
  }

  function After(m: Forest, e: Edit): Forest
    requires Legal(m, e)
  {
    match e
    case Insert(p, c, ref) => AfterInsert(m, p, c, ref)
    case Remove(p, c) => AfterRemove(m, p, c)
    case Replace(p, c, gone) => AfterReplace(m, p, c, gone)
  }

  // -------------------------------------------------------------- lists alone

  /** The child lists, the nodes that were taken out of one and put into none, and the fragments. */
  datatype Family = Family(lists: map<Node, seq<Node>>, gone: set<Node>, fragments: set<Node>)

  predicate Listed(f: Family, n: Node) {
    exists q :: q in f.lists && n in f.lists[q]
  }

  function FamilyOf(m: Forest): Family {
    Family(map n | n in m :: m[n].kids, set n | n in m && IsGone(m, n), set n | n in m && m[n].nodeType == 11)
  }

  /** The node still points to a parent, but is in no list. */
  predicate IsGone(m: Forest, n: Node) {
    n in m && m[n].parentNode != null && Detached(m, n)
  }

  /** The lists after a node, or the children of a fragment, is moved in front of `ref`. */
  function Moved(f: Family, p: Node, c: Node, ref: Node?): Family
    requires p in f.lists && c in f.lists
  {
    var block := if c in f.fragments then Without(f.lists[c], c) else [c];
    f.(lists := map n | n in f.lists ::
                  if n == p then Inserted(Without(f.lists[p], c), block, ref)
                  else if n == c && c in f.fragments then []
                  else Without(f.lists[n], c),
       gone := if c !in f.fragments then f.gone - {c} else if Listed(f, c) then f.gone + {c} else f.gone)
  }

  function Dropped(f: Family, p: Node, c: Node): Family
    requires p in f.lists
  {
    f.(lists := f.lists[p := Without(f.lists[p], c)], gone := if c in f.lists[p] then f.gone + {c} else f.gone)
  }

  /** The nodes of the edit are known. */
  predicate Known(f: Family, e: Edit) {
    e.parent in f.lists && (e.Remove? || e.child in f.lists)
  }

  function Edited(f: Family, e: Edit): Family
    requires Known(f, e)
  {
    match e
    case Insert(p, c, ref) => Moved(f, p, c, ref)
    case Remove(p, c) => Dropped(f, p, c)
    case Replace(p, c, gone) =>
      var moved := Moved(f, p, c, gone);
      if gone == null then moved else Dropped(moved, p, gone)
  }

  /** The edit takes a child out, or puts a node that is not gone in front of another child, or at the end. */
  predicate Free(f: Family, e: Edit) {
    Known(f, e) &&
    match e
    case Insert(p, c, ref) => MayMove(f, p, c, ref)
    case Remove(p, c) => c in f.lists[p]
    case Replace(p, c, gone) => MayMove(f, p, c, gone)
  }

  predicate MayMove(f: Family, p: Node, c: Node, ref: Node?)
    requires p in f.lists
  {
    c !in f.gone && (ref == null || ref in f.lists[p]) && ref != c && (c in f.fragments ==> c != p)
  }

  // ------------------------------------------------------------------ one edit

  lemma {:induction false} WithoutMember(s: seq<Node>, c: Node, n: Node)
    requires n != c
    ensures n in Without(s, c) <==> n in s
  {
    if s != [] && s[0] != c {
      WithoutMember(s[1..], c, n);
      assert n in s <==> n == s[0] || n in s[1..];
    } else if s != [] {
      assert n in s <==> n == s[0] || n in s[1..];
    }
  }

  lemma InsertedMember(s: seq<Node>, block: seq<Node>, ref: Node?, n: Node)
    ensures n in Inserted(s, block, ref) <==> n in s || n in block
  {
    assert s == s[..Place(s, ref)] + s[Place(s, ref)..];
  }

  lemma FreeIsLegal(m: Forest, e: Edit)
    requires World(m) && Free(FamilyOf(m), e)
    ensures Legal(m, e)
  {
    hide World, Detached, Fits;
    match e
    case Insert(p, c, ref) => NotGoneInsertable(m, c);
    case Replace(p, c, ref) => NotGoneInsertable(m, c);
    case Remove(p, c) => var k := Neighbours(m, p, c);
  }

  lemma NotGoneInsertable(m: Forest, c: Node)
    requires World(m) && c in m && !IsGone(m, c)
    ensures Insertable(m, c)
  {
    hide World, Fits;
    if m[c].parentNode != null {
      var q :| q in m && c in m[q].kids;
      var k := Neighbours(m, q, c);
    }
  }

  /** An insertion, seen on the lists. */
  lemma MovedFamily(m: Forest, p: Node, c: Node, ref: Node?)
    requires CanInsert(m, p, c, ref)
    ensures c in m && World(AfterInsert(m, p, c, ref))
    ensures FamilyOf(AfterInsert(m, p, c, ref)) == Moved(FamilyOf(m), p, c, ref)
  {
    hide World, Insertable, AfterInsert, Inserted, Without, Detached, IsGone;
    InsertableIn(m, c);
    AfterInsertWorld(m, p, c, ref);
    var f, g := FamilyOf(m), FamilyOf(AfterInsert(m, p, c, ref));
    forall n | n in m
      ensures n in g.gone <==> n in Moved(f, p, c, ref).gone
    {
      MovedGone(m, p, c, ref, n);
    }
    MovedLists(m, p, c, ref);
    GoneKnown(m, AfterInsert(m, p, c, ref), p, c, ref);
    assert g.gone == Moved(f, p, c, ref).gone;
  }

  lemma GoneKnown(m: Forest, r: Forest, p: Node, c: Node, ref: Node?)
    requires p in m && c in m && r.Keys == m.Keys
    ensures forall n :: n in FamilyOf(r).gone || n in Moved(FamilyOf(m), p, c, ref).gone ==> n in m
  {
  }

  lemma MovedLists(m: Forest, p: Node, c: Node, ref: Node?)
    requires CanInsert(m, p, c, ref)
    ensures c in m
    ensures var f, g := FamilyOf(m), FamilyOf(AfterInsert(m, p, c, ref));
            g.lists == Moved(f, p, c, ref).lists && g.fragments == Moved(f, p, c, ref).fragments
  {
    hide World, Insertable, AfterInsert, Inserted, Without, Detached, IsGone, Listed;
    InsertableIn(m, c);
    AfterInsertWorld(m, p, c, ref);
  }

  lemma FamilyKeys(m: Forest)
    ensures FamilyOf(m).lists.Keys == m.Keys
  {
  }

  lemma MovedGone(m: Forest, p: Node, c: Node, ref: Node?, n: Node)
    requires CanInsert(m, p, c, ref) && n in m
    ensures c in m
    ensures IsGone(AfterInsert(m, p, c, ref), n) <==> n in Moved(FamilyOf(m), p, c, ref).gone
  {
    hide World, Insertable, AfterInsert, Inserted, Without, Detached;
    InsertableIn(m, c);
    AfterInsertWorld(m, p, c, ref);
    if n == c {
      MovedItself(m, p, c, ref);
      ListedOrNot(m, c);
    } else {
      MovedOther(m, p, c, ref, n);
    }
  }

  lemma MovedItself(m: Forest, p: Node, c: Node, ref: Node?)
    requires CanInsert(m, p, c, ref)
    ensures c in m && c in AfterInsert(m, p, c, ref)
    ensures Detached(AfterInsert(m, p, c, ref), c) <==> m[c].nodeType == FRAGMENT_NODE
    ensures m[c].nodeType == FRAGMENT_NODE ==> AfterInsert(m, p, c, ref)[c].parentNode == m[c].parentNode
    ensures !Detached(m, c) ==> m[c].parentNode != null
  {
    hide World, Insertable, AfterInsert, Inserted, Without, Fits;
    InsertableIn(m, c);
    AfterInsertWorld(m, p, c, ref);
    TakenOutGone(m, c);
    if !Detached(m, c) {
      HasParent(m, c);
    }
    InsertedMember(Without(m[p].kids, c), if m[c].nodeType == FRAGMENT_NODE then Without(m[c].kids, c) else [c], ref, c);
    assert m[c].nodeType != FRAGMENT_NODE ==> c in AfterInsert(m, p, c, ref)[p].kids;
  }

  lemma MovedOther(m: Forest, p: Node, c: Node, ref: Node?, n: Node)
    requires CanInsert(m, p, c, ref) && n in m && n != c
    ensures IsGone(AfterInsert(m, p, c, ref), n) <==> IsGone(m, n)
  {
    hide World, Insertable, AfterInsert, Inserted, Without, Fits;
    InsertableIn(m, c);
    AfterInsertWorld(m, p, c, ref);
    var r := AfterInsert(m, p, c, ref);
    var block := if m[c].nodeType == FRAGMENT_NODE then Without(m[c].kids, c) else [c];
    InsertedMember(Without(m[p].kids, c), block, ref, n);
    forall q | q in m
      ensures n in Without(m[q].kids, c) <==> n in m[q].kids
    {
      WithoutMember(m[q].kids, c, n);
    }
    assert n in block ==> n in r[p].kids && n in m[c].kids;
    assert forall q :: q in m && n in m[q].kids ==> n in r[q].kids || n in r[p].kids;
    assert forall q :: q in m && n in r[q].kids ==> n in m[q].kids || n in m[c].kids;
  }

  lemma TakenOutGone(m: Forest, c: Node)
    requires World(m) && Insertable(m, c)
    ensures forall q :: q in m ==> c !in Without(m[q].kids, c)
  {
    hide World, Insertable, Without;
    TakenOutWorld(m, c);
  }

  lemma ListedOrNot(m: Forest, c: Node)
    ensures Listed(FamilyOf(m), c) <==> !Detached(m, c)
  {
    var f := FamilyOf(m);
    if !Detached(m, c) {
      var q :| q in m && c in m[q].kids;
      assert q in f.lists && c in f.lists[q];
    }
  }

  lemma HasParent(m: Forest, c: Node)
    requires World(m) && !Detached(m, c)
    ensures c in m && m[c].parentNode != null
  {
    hide World;
    var q :| q in m && c in m[q].kids;
    var k := Neighbours(m, q, c);
  }

  /** A removal, seen on the lists. */
  lemma DroppedFamily(m: Forest, p: Node, c: Node)
    requires World(m) && Removable(m, p, c)
    ensures World(AfterRemove(m, p, c))
    ensures FamilyOf(AfterRemove(m, p, c)) == Dropped(FamilyOf(m), p, c)
  {
    hide World, Detached, Without, Removed, Fits, Inside;
    RemovableInside(m, p, c);
    RemovedWorld(m, p, c);
    var f, r := FamilyOf(m), Removed(m, p, c);
    forall n | n in m
      ensures r[n].kids == (if n == p then Without(m[p].kids, c) else m[n].kids) && r[n].nodeType == m[n].nodeType
      ensures IsGone(r, n) <==> n in Dropped(f, p, c).gone
    {
      RemovedFields(m, p, c, n);
      DroppedGone(m, p, c, n);
    }
    assert FamilyOf(r).lists == Dropped(f, p, c).lists;
    assert FamilyOf(r).fragments == f.fragments;
    assert c in m[p].kids ==> c in m;
  }

  lemma DroppedGone(m: Forest, p: Node, c: Node, n: Node)
    requires World(m) && Removable(m, p, c) && n in m
    requires Inside(m, m[c].previousSibling) && Inside(m, m[c].nextSibling)
    ensures IsGone(Removed(m, p, c), n) <==> IsGone(m, n) || (n == c && c in m[p].kids)
  {
    hide World, Removed, Fits, Inside, Without;
    RemovedWorld(m, p, c);
    RemovedFields(m, p, c, n);
    var r := Removed(m, p, c);
    forall q | q in m
      ensures n !in r[q].kids <==> n !in m[q].kids || (n == c && q == p)
    {
      RemovedFields(m, p, c, q);
      if c in m[p].kids && n == c {
        var k := Neighbours(m, p, c);
        if q != p && c in m[q].kids {
          OneParent(m, p, q, c);
        }
      } else if n != c {
        WithoutMember(m[p].kids, c, n);
      } else {
        WithoutAbsent(m[p].kids, c);
      }
    }
    if n == c && c in m[p].kids {
      var k := Neighbours(m, p, c);
      assert Detached(r, c);
    }
  }

  /** One edit does to the lists what it says, and keeps the pointers in order. */
  lemma EditKeeps(m: Forest, e: Edit)
    requires Legal(m, e)
    ensures World(m) && World(After(m, e)) && Known(FamilyOf(m), e)
    ensures FamilyOf(After(m, e)) == Edited(FamilyOf(m), e)
  {
    hide World, Insertable, Fits, FamilyOf, AfterInsert, AfterRemove, Moved, Dropped;
    FamilyKeys(m);
    match e
    case Insert(p, c, ref) => MovedFamily(m, p, c, ref);
    case Remove(p, c) => DroppedFamily(m, p, c);
    case Replace(p, c, gone) =>
      MovedFamily(m, p, c, gone);
      if gone != null {
        OldStays(m, p, c, gone);
        DroppedFamily(AfterInsert(m, p, c, gone), p, gone);
      }
  }

  // ---------------------------------------------------------------------- runs

  predicate LegalRun(m: Forest, es: seq<Edit>)
    decreases |es|
  {
    es == [] || (Legal(m, es[0]) && LegalRun(After(m, es[0]), es[1..]))
  }

  function AfterRun(m: Forest, es: seq<Edit>): Forest
    requires LegalRun(m, es)
    decreases |es|
  {
    if es == [] then m else AfterRun(After(m, es[0]), es[1..])
  }

  /** The same run on lists, where no gone node comes back. */
  predicate FreeRun(f: Family, es: seq<Edit>)
    decreases |es|
  {
    es == [] || (Free(f, es[0]) && FreeRun(Edited(f, es[0]), es[1..]))
  }

  function KnownRun(f: Family, es: seq<Edit>): bool
    decreases |es|
  {
    es == [] || (Known(f, es[0]) && KnownRun(Edited(f, es[0]), es[1..]))
  }

  function EditedRun(f: Family, es: seq<Edit>): Family
    requires KnownRun(f, es)
    decreases |es|
  {
    if es == [] then f else EditedRun(Edited(f, es[0]), es[1..])
  }

  /** After every legal run the pointers of all nodes describe the lists that the run makes. */
  lemma {:induction false} RunKeeps(m: Forest, es: seq<Edit>)
    requires World(m) && LegalRun(m, es)
    ensures World(AfterRun(m, es)) && KnownRun(FamilyOf(m), es)
    ensures FamilyOf(AfterRun(m, es)) == EditedRun(FamilyOf(m), es)
    decreases |es|
  {
    hide World, Legal, After, FamilyOf, Known, Edited;
    if es == [] {
    } else {
      EditKeeps(m, es[0]);
      RunKeeps(After(m, es[0]), es[1..]);
    }
  }

  /** A run in which no gone node comes back is legal, whatever the pointers of the gone nodes are. */
  lemma {:induction false} FreeRunIsLegal(m: Forest, es: seq<Edit>)
    requires World(m) && FreeRun(FamilyOf(m), es)
    ensures LegalRun(m, es)
    decreases |es|
  {
    hide World, Legal, After, FamilyOf, Free, Edited;
    if es == [] {
    } else {
      FreeIsLegal(m, es[0]);
      EditKeeps(m, es[0]);
      FreeRunIsLegal(After(m, es[0]), es[1..]);
    }
  }

  // ------------------------------------------------------------ where it fails

  lemma RemovedOwn(m: Forest, p: Node, b: Node)
    requires World(m) && p in m && b in m[p].kids
    ensures b in m && Removable(m, p, b)
    ensures var r := AfterRemove(m, p, b);
            b in r && r[b].previousSibling == m[b].previousSibling && r[b].nextSibling == m[b].nextSibling && r[b].parentNode == p
    ensures Inside(m, m[b].previousSibling) && Inside(m, m[b].nextSibling) && m[b].nextSibling != b
    ensures m[b].nextSibling != null ==> m[b].nextSibling in m[p].kids
  {
    hide World, Removed, Coherent, Distinct;
    var k := Neighbours(m, p, b);
    RemovedFields(m, p, b, b);
    CoherentAt(m, p);
    CoherentMeans(m, p);
    if k > 0 {
      DistinctAt(m[p].kids, k, k - 1);
    }
    if k + 1 < |m[p].kids| {
      DistinctAt(m[p].kids, k, k + 1);
    }
  }

  /** Taking out a listed node, or one that never was in a list, leaves the links of a node in no list alone. */
  lemma TakenOutLinks(m: Forest, c: Node, b: Node)
    requires World(m) && c in m && !IsGone(m, c) && b in m && Detached(m, b)
    ensures Insertable(m, c)
    ensures var r := TakenOut(m, c);
            b in r && Detached(r, b) && r[b].previousSibling == m[b].previousSibling && r[b].nextSibling == m[b].nextSibling
  {
    hide World, Removed, Without, Fits;
    NotGoneInsertable(m, c);
    TakenOutWorld(m, c);
    WithoutParts(m, c);
    var q := m[c].parentNode;
    if q != null {
      var k := ListedNeighbours(m, c);
      RemovableInside(m, q, c);
      RemovedFields(m, q, c, b);
    }
  }

  lemma WithoutParts(m: Forest, c: Node)
    ensures forall q, n :: q in m && n in Without(m[q].kids, c) ==> n in m[q].kids
  {
    forall q, n | q in m && n in Without(m[q].kids, c)
      ensures n in m[q].kids
    {
      WithoutPart(m[q].kids, c);
    }
  }

  lemma ListedNeighbours(m: Forest, c: Node) returns (q: Node)
    requires World(m) && c in m && !IsGone(m, c) && m[c].parentNode != null
    ensures q == m[c].parentNode && q in m
    ensures m[c].previousSibling == null || m[c].previousSibling in m[q].kids
    ensures m[c].nextSibling == null || m[c].nextSibling in m[q].kids
  {
    hide World;
    q :| q in m && c in m[q].kids;
    var k := Neighbours(m, q, c);
  }

  lemma EnteredLinks(m: Forest, p: Node, c: Node, ref: Node, b: Node)
    requires Enterable(m, p, c, ref) && m[c].nodeType != FRAGMENT_NODE && b in m && b != c && Detached(m, b)
    ensures var r := Entered(m, p, c, ref);
            && b in r && r[b].previousSibling == m[b].previousSibling && r[b].nextSibling == m[b].nextSibling
            && ref in r && r[ref].previousSibling == c
  {
    hide World, Ready, Spliced, Coherent, Inserted, Inside;
    SingleReady(m, p, c, ref);
    var k := Neighbours(m, p, ref);
    SplicedFields(m, p, [c], ref, null, b);
    SplicedFields(m, p, [c], ref, null, ref);
  }

  /**
   A removed node keeps its links.  Once another node comes to stand where it stood, it
   may not be inserted again: taking it out of its former list would break that list.
   */
  lemma GoneNodeBreaks(m: Forest, p: Node, b: Node, c: Node)
    requires World(m) && p in m && b in m[p].kids && b in m && m[b].nextSibling != null
    requires c in m && c != b && c != m[b].previousSibling && c != m[b].nextSibling
    requires m[c].nodeType != FRAGMENT_NODE && !IsGone(m, c)
    ensures var es := [Remove(p, b), Insert(p, c, m[b].nextSibling)];
            LegalRun(m, es) && !Insertable(AfterRun(m, es), b)
  {
    hide Legal, After, Insertable, World;
    var next := m[b].nextSibling;
    var e := Insert(p, c, next);
    var m1 := RemovedThere(m, p, b, c);
    InsertedThere(m1, p, b, c, next);
    assert [Remove(p, b), e][1..] == [e] && [e][1..] == [];
    assert AfterRun(m1, [e]) == After(m1, e);
  }

  lemma InsertedThere(m: Forest, p: Node, b: Node, c: Node, next: Node)
    requires World(m) && p in m && b in m && c in m && Detached(m, b) && !IsGone(m, c) && next in m[p].kids
    requires m[b].parentNode == p && m[b].nextSibling == next && m[b].previousSibling != c && c != b && c != next
    requires m[c].nodeType != FRAGMENT_NODE
    ensures var e := Insert(p, c, next);
            Legal(m, e) && !Insertable(After(m, e), b)
  {
    hide World, Removed, TakenOut, Entered, Without, Inserted, Detached, Spliced, Fits, Insertable;
    TakenOutLinks(m, c, b);
    EnterableAfter(m, p, c, next);
    TakenOutWorld(m, c);
    EnteredLinks(TakenOut(m, c), p, c, next, b);
    AfterInsertWorld(m, p, c, next);
    var r := AfterInsert(m, p, c, next);
    MovedOther(m, p, c, next, b);
    WithoutKeeps(m[p].kids, c, next);
    InsertedKeeps(Without(m[p].kids, c), [c], next, next);
    BreaksThere(r, p, b, c, next);
  }

  lemma RemovedThere(m: Forest, p: Node, b: Node, c: Node) returns (r: Forest)
    requires World(m) && p in m && b in m[p].kids && b in m && m[b].nextSibling != null
    requires c in m && c != b && !IsGone(m, c)
    ensures Legal(m, Remove(p, b)) && r == After(m, Remove(p, b)) && World(r) && r.Keys == m.Keys
    ensures r[b].previousSibling == m[b].previousSibling && r[b].nextSibling == m[b].nextSibling && r[b].parentNode == p
    ensures Detached(r, b) && !IsGone(r, c) && m[b].nextSibling in r[p].kids && r[c].nodeType == m[c].nodeType
  {
    hide World, Removed, Without, Detached, Fits;
    RemovedOwn(m, p, b);
    RemovedWorld(m, p, b);
    DroppedGone(m, p, b, c);
    RemovedFields(m, p, b, c);
    WithoutKeeps(m[p].kids, b, m[b].nextSibling);
    r := AfterRemove(m, p, b);
  }

  lemma BreaksThere(r: Forest, p: Node, b: Node, c: Node, next: Node)
    requires World(r) && p in r && b in r && next in r && r[b].parentNode == p && next in r[p].kids && Detached(r, b)
    requires r[b].previousSibling != c && r[b].nextSibling == next && r[next].previousSibling == c
    ensures !Insertable(r, b)
  {
    hide World;
  }

  /** A node inserted in front of itself follows itself: the links then describe no list that it is in. */
  lemma BeforeItself(m: Forest, p: Node, c: Node, pre: Node?)
    requires p in m && c in m && Inside(m, pre)
    ensures var r := Adopted(Hooked(m, p, c, c, pre, c), [c], p);
            forall n, kids :: n in r && c in kids ==> !Describes(r, n, kids)
  {
    var r := Adopted(Hooked(m, p, c, c, pre, c), [c], p);
    assert c in r && r[c].nextSibling == c;
    forall n, kids | n in r && c in kids
      ensures !Describes(r, n, kids)
    {
      OwnFollower(r, n, kids, c);
    }
  }

  lemma OwnFollower(m: Forest, n: Node, kids: seq<Node>, c: Node)
    requires n in m && c in m && m[c].nextSibling == c && c in kids
    ensures !Describes(m, n, kids)
  {
    var i :| 0 <= i < |kids| && kids[i] == c;
    assert Distinct(kids) && i + 1 < |kids| ==> kids[i] != kids[i + 1];
    if Describes(m, n, kids) {
      ChainedAt(m, kids, i);
    }
  }
}
