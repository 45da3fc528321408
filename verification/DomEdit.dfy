/**
 The operations on sibling lists as the source performs them, field by field.  Each is
 proved to change the links as the functions of `Dom` say, and to keep the invariant.
 */
module DomEdit {
  import opened Dom
  import opened DomSteps

  // -------------------------------------------------------- snapshots and fields

  lemma SnapshotAt(S: set<Node>, n: Node)
    requires n in S
    ensures n in Snapshot(S) && Snapshot(S)[n] == Look(n)
  {
  }

  lemma SnapshotKeys(S: set<Node>)
    ensures Snapshot(S).Keys == S
  {
  }

  lemma DescribesParts(m: Forest, p: Node, kids: seq<Node>)
    requires p in m && Describes(m, p, kids)
    ensures m[p].firstChild == (if kids == [] then null else kids[0])
    ensures (forall i :: 0 <= i < |kids| ==> kids[i] in m) && Chained(m, kids, null, null)
  {
  }

  /** `_onUpdateChild` without a new child: the child list is read off the links again. */
  method Rebuild(ghost S: set<Node>, p: Node)
    requires p in S && Describes(Snapshot(S), p, p.kids)
    modifies p`childNodes, p.owner
    ensures Snapshot(S) == old(Snapshot(S))[p := old(Look(p)).(childNodes := p.kids)]
  {
    hide Describes, Chained;
    ghost var m, kids := Snapshot(S), p.kids;
    DescribesParts(m, p, kids);
    SnapshotAt(S, p);
    p.owner.inc := p.owner.inc + 1;
    var cs := ListChildren(S, p, m);
    p.childNodes := cs;
    assert Snapshot(S) == m[p := m[p].(childNodes := kids)];
  }

  method ListChildren(ghost S: set<Node>, p: Node, ghost m: Forest) returns (cs: seq<Node>)
    requires p in S && Snapshot(S) == m
    requires (forall i :: 0 <= i < |p.kids| ==> p.kids[i] in m) && Chained(m, p.kids, null, null)
    requires p.firstChild == if p.kids == [] then null else p.kids[0]
    ensures cs == p.kids
  {
    hide Chained;
    ghost var kids := p.kids;
    var child := p.firstChild;
    var i := 0;
    cs := [];
    while child != null
      invariant 0 <= i <= |kids| && cs == kids[..i]
      invariant child == if i < |kids| then kids[i] else null
      decreases |kids| - i
    {
      ChainedAt(m, kids, i);
      SnapshotAt(S, kids[i]);
      cs := cs + [child];
      i := i + 1;
      child := child.nextSibling;
    }
  }

  method SetNext(ghost S: set<Node>, p: Node, x: Node?, y: Node?)
    requires p in S && Inside(Snapshot(S), x)
    modifies S
    ensures Snapshot(S) == LinkNext(old(Snapshot(S)), p, x, y)
  {
    if x != null {
      x.nextSibling := y;
    } else {
      p.firstChild := y;
    }
  }

  method SetPrevious(ghost S: set<Node>, p: Node, x: Node?, y: Node?)
    requires p in S && Inside(Snapshot(S), x)
    modifies S
    ensures Snapshot(S) == LinkPrevious(old(Snapshot(S)), p, x, y)
  {
    if x != null {
      x.previousSibling := y;
    } else {
      p.lastChild := y;
    }
  }

  ghost method SetKids(S: set<Node>, p: Node, kids: seq<Node>)
    requires p in S
    modifies S
    ensures Snapshot(S) == old(Snapshot(S))[p := old(Look(p)).(kids := kids)]
  {
    p.kids := kids;
  }

  lemma DescribesSame(r: Forest, m: Forest, p: Node)
    requires p in r && Describes(r, p, r[p].kids)
    requires p in m && r == m[p := m[p].(childNodes := r[p].childNodes)]
    ensures Describes(m, p, m[p].kids)
  {
    var kids := m[p].kids;
    hide Distinct, Chained;
    DescribesParts(r, p, kids);
    forall i | 0 <= i < |kids|
      ensures LinkedAt(m, p, kids, i)
    {
      ChainedAt(r, kids, i);
      assert r[kids[i]].parentNode == p;
    }
    DescribesIntro(m, p, kids);
  }

  /** The pointer assignments of `_removeChild`. */
  method Unlink(ghost S: set<Node>, p: Node, child: Node)
    requires p in S && child in S && Inside(Snapshot(S), child.previousSibling) && Inside(Snapshot(S), child.nextSibling)
    modifies S
    ensures var m := old(Snapshot(S));
            && p in m && child in m && Inside(m, m[child].previousSibling) && Inside(m, m[child].nextSibling)
            && Snapshot(S) == LinkPrevious(LinkNext(m, p, m[child].previousSibling, m[child].nextSibling), p,
                                           m[child].nextSibling, m[child].previousSibling)
  {
    hide Snapshot;
    SnapshotKeys(S);
    SnapshotAt(S, child);
    var previous, next := child.previousSibling, child.nextSibling;
    LinkKeys(Snapshot(S), p, previous, next);
    SetNext(S, p, previous, next);
    SetPrevious(S, p, next, previous);
  }

  /** `_removeChild`.  The removed node keeps its own links. */
  method RemoveChild(ghost S: set<Node>, p: Node, child: Node)
    requires World(Snapshot(S)) && p in S && Removable(Snapshot(S), p, child)
    modifies S, p.owner
    ensures Snapshot(S) == AfterRemove(old(Snapshot(S)), p, child)
    ensures World(Snapshot(S))
    ensures p.kids == Without(old(p.kids), child)
    ensures old(child in p.kids || Detached(Snapshot(S), child)) ==> Detached(Snapshot(S), child)
  {
    hide World, Describes, Detached, Without, Coherent, Snapshot, Inside, Fits, Removed, LinkNext, LinkPrevious;
    ghost var m := Snapshot(S);
    SnapshotKeys(S);
    SnapshotAt(S, p);
    RemovableInside(m, p, child);
    RemovedWorld(m, p, child);
    SnapshotAt(S, child);
    Unlink(S, p, child);
    LinkKeys(m, p, m[child].previousSibling, m[child].nextSibling);
    SnapshotAt(S, p);
    ghost var linked := Snapshot(S);
    SetKids(S, p, Without(m[p].kids, child));
    ghost var r, before := Removed(m, p, child), Snapshot(S);
    RemovedButList(m, p, child, linked, before);
    SnapshotAt(S, p);
    KidsDescribed(r, p);
    DescribesSame(r, before, p);
    Rebuild(S, p);
    SnapshotAt(S, p);
  }

  lemma RemovedButList(m: Forest, p: Node, c: Node, linked: Forest, before: Forest)
    requires p in m && c in m && Inside(m, m[c].previousSibling) && Inside(m, m[c].nextSibling)
    requires linked == LinkPrevious(LinkNext(m, p, m[c].previousSibling, m[c].nextSibling), p, m[c].nextSibling, m[c].previousSibling)
    requires p in linked && before == linked[p := linked[p].(kids := Without(m[p].kids, c))]
    ensures var r := Removed(m, p, c);
            && p in r && r == before[p := before[p].(childNodes := r[p].childNodes)]
            && before[p].kids == r[p].kids == r[p].childNodes
  {
    hide LinkNext, LinkPrevious, Without;
  }

  lemma KidsDescribed(m: Forest, n: Node)
    requires World(m) && n in m
    ensures Describes(m, n, m[n].kids)
  {
    assert Coherent(m, n);
  }

  // ------------------------------------------------------------------- insertion

  /** The first step of every insertion: the node leaves the list it is in. */
  method Leave(ghost S: set<Node>, newChild: Node)
    requires World(Snapshot(S)) && Insertable(Snapshot(S), newChild)
    modifies S, set n | n in S :: n.owner
    ensures Snapshot(S) == TakenOut(old(Snapshot(S)), newChild)
    ensures World(Snapshot(S)) && Detached(Snapshot(S), newChild)
    ensures forall n :: n in S ==> n.kids == Without(old(n.kids), newChild)
  {
    hide World, Detached, Without, Removed, Inside, Fits, Snapshot;
    ghost var m := Snapshot(S);
    SnapshotKeys(S);
    SnapshotAt(S, newChild);
    TakenOutWorld(m, newChild);
    KidsOf(S);
    var cp := newChild.parentNode;
    if cp != null {
      SnapshotAt(S, cp);
      RemoveChild(S, cp, newChild);
      KidsOf(S);
    }
  }

  method SetParent(ghost S: set<Node>, n: Node, p: Node)
    requires n in S
    modifies S
    ensures Snapshot(S) == old(Snapshot(S))[n := old(Look(n)).(parentNode := p)]
  {
    n.parentNode := p;
  }

  lemma AdoptedStep(m: Forest, block: seq<Node>, i: nat, p: Node)
    requires i < |block| && block[i] in m
    ensures var r := Adopted(m, block[..i], p);
            && block[i] in r && r[block[i]].nextSibling == m[block[i]].nextSibling
            && r[block[i] := r[block[i]].(parentNode := p)] == Adopted(m, block[..i + 1], p)
  {
    assert block[..i + 1] == block[..i] + [block[i]];
  }

  lemma AdoptedNothing(m: Forest, p: Node)
    ensures Adopted(m, [], p) == m
  {
  }

  /** The do-while loop of `_insertBefore`: every node of the block gets its new parent. */
  method Adopt(ghost S: set<Node>, ghost block: seq<Node>, first: Node, last: Node, p: Node)
    requires block != [] && Distinct(block) && first == block[0] && last == block[|block| - 1]
    requires forall i :: 0 <= i < |block| ==> block[i] in S
    requires forall i :: 0 <= i < |block| - 1 ==> block[i] in Snapshot(S) && Snapshot(S)[block[i]].nextSibling == block[i + 1]
    modifies S
    ensures Snapshot(S) == Adopted(old(Snapshot(S)), block, p)
  {
    hide Snapshot, Adopted, Distinct;
    ghost var m := Snapshot(S);
    var child := first;
    ghost var i := 0;
    AdoptedNothing(m, p);
    SnapshotKeys(S);
    assert block[..0] == [];
    while true
      invariant 0 <= i < |block| && child == block[i]
      invariant Snapshot(S) == Adopted(m, block[..i], p)
      decreases |block| - i
    {
      AdoptedStep(m, block, i, p);
      SnapshotAt(S, child);
      SetParent(S, child, p);
      SnapshotKeys(S);
      SnapshotAt(S, child);
      DistinctAt(block, i, |block| - 1);
      if child == last {
        assert block[..i + 1] == block;
        break;
      }
      child := child.nextSibling;
      i := i + 1;
    }
  }

  method SetOwnPrevious(ghost S: set<Node>, n: Node, x: Node?)
    requires n in S
    modifies S
    ensures Snapshot(S) == old(Snapshot(S))[n := old(Look(n)).(previousSibling := x)]
  {
    n.previousSibling := x;
  }

  method SetOwnNext(ghost S: set<Node>, n: Node, x: Node?)
    requires n in S
    modifies S
    ensures Snapshot(S) == old(Snapshot(S))[n := old(Look(n)).(nextSibling := x)]
  {
    n.nextSibling := x;
  }

  /** The four pointer assignments around a block. */
  method Hook(ghost S: set<Node>, p: Node, first: Node, last: Node, pre: Node?, ref: Node?)
    requires p in S && first in S && last in S && Inside(Snapshot(S), pre) && Inside(Snapshot(S), ref)
    modifies S
    ensures Snapshot(S) == Hooked(old(Snapshot(S)), p, first, last, pre, ref)
  {
    hide Snapshot;
    SnapshotKeys(S);
    SnapshotAt(S, first);
    SetOwnPrevious(S, first, pre);
    SnapshotKeys(S);
    SnapshotAt(S, last);
    SetOwnNext(S, last, ref);
    SnapshotKeys(S);
    SetNext(S, p, pre, first);
    SnapshotKeys(S);
    SetPrevious(S, p, ref, last);
  }

  /** The pointer assignments of `_insertBefore` for a block that is ready. */
  method SpliceIn(ghost S: set<Node>, p: Node, ghost block: seq<Node>, newFirst: Node, newLast: Node, ref: Node?, ghost source: Node?)
    requires Ready(Snapshot(S), p, block, ref, source) && newFirst == block[0] && newLast == block[|block| - 1]
    modifies S, p.owner
    ensures var m := old(Snapshot(S));
            && p in m && (if ref != null then ref in m && Inside(m, m[ref].previousSibling) else Inside(m, m[p].lastChild))
            && (forall b :: b in block ==> b in m)
            && Snapshot(S) == Spliced(m, p, block, ref)
  {
    hide Snapshot, Ready, Inserted, Adopted, Coherent, Describes, Place, Hooked;
    ghost var m := Snapshot(S);
    SplicedWorld(m, p, block, ref, source);
    SnapshotKeys(S);
    SnapshotAt(S, p);
    if ref != null {
      SnapshotAt(S, ref);
    }
    BlockOutside(m, p, block, ref, source);
    var pre := if ref != null then ref.previousSibling else p.lastChild;
    Hook(S, p, newFirst, newLast, pre, ref);
    BlockChain(m, p, block, ref, source, pre);
    Adopt(S, block, newFirst, newLast, p);
    HookedKids(m, p, newFirst, newLast, pre, ref, block);
    SnapshotAt(S, p);
    SetKids(S, p, Inserted(m[p].kids, block, ref));
    SnapshotAt(S, p);
    ghost var r, before := Spliced(m, p, block, ref), Snapshot(S);
    SplicedButList(m, p, block, newFirst, newLast, pre, ref, before);
    KidsCoherent(r, p);
    DescribesSame(r, before, p);
    Rebuild(S, p);
  }

  lemma SplicedButList(m: Forest, p: Node, block: seq<Node>, first: Node, last: Node, pre: Node?, ref: Node?, before: Forest)
    requires p in m && block != [] && first == block[0] && last == block[|block| - 1] && (forall b :: b in block ==> b in m)
    requires Inside(m, pre) && Inside(m, ref) && pre == if ref != null then m[ref].previousSibling else m[p].lastChild
    requires var a := Adopted(Hooked(m, p, first, last, pre, ref), block, p);
             p in a && before == a[p := a[p].(kids := Inserted(m[p].kids, block, ref))]
    ensures var r := Spliced(m, p, block, ref);
            && p in r && p in before
            && r == before[p := before[p].(childNodes := r[p].childNodes)]
            && before[p].kids == r[p].kids == r[p].childNodes
  {
    hide Hooked, Adopted, Inserted;
  }

  lemma BlockOutside(m: Forest, p: Node, block: seq<Node>, ref: Node?, source: Node?)
    requires Ready(m, p, block, ref, source)
    ensures block != [] && p in m && block[0] in block && block[|block| - 1] in block && Distinct(block)
    ensures forall i :: 0 <= i < |block| ==> block[i] in m
    ensures ref == null || (ref !in block && ref in m)
    ensures var pre := if ref != null && ref in m then m[ref].previousSibling else m[p].lastChild;
            pre == null || pre !in block
    ensures Coherent(m, p) && p != source
  {
    hide Coherent, Distinct, InnerChained, Place;
    Gap(m, p, block, ref, source);
    RefOutside(m, p, block, ref, source);
  }

  lemma HookedKids(m: Forest, p: Node, first: Node, last: Node, pre: Node?, ref: Node?, block: seq<Node>)
    requires p in m && first in m && last in m && Inside(m, pre) && Inside(m, ref)
    ensures var r := Adopted(Hooked(m, p, first, last, pre, ref), block, p);
            p in r && r[p].kids == m[p].kids
  {
    hide Hooked;
    HookedRest(m, p, first, last, pre, ref, p);
  }

  lemma KidsCoherent(m: Forest, n: Node)
    requires n in m && Coherent(m, n)
    ensures Describes(m, n, m[n].kids)
  {
  }

  /** The block's own links survive the four assignments around it. */
  lemma BlockChain(m: Forest, p: Node, block: seq<Node>, ref: Node?, source: Node?, pre: Node?)
    requires Ready(m, p, block, ref, source) && p in m && block != []
    requires (forall b :: b in block ==> b in m) && Inside(m, pre) && Inside(m, ref)
    requires (ref == null || ref !in block) && (pre == null || pre !in block)
    ensures Distinct(block)
    ensures var r := Hooked(m, p, block[0], block[|block| - 1], pre, ref);
            forall i :: 0 <= i < |block| - 1 ==> block[i] in r && r[block[i]].nextSibling == block[i + 1]
  {
    hide Coherent, Distinct, Hooked, Ready;
    InnerLinks(m, p, block, ref, source, 0);
    var r := Hooked(m, p, block[0], block[|block| - 1], pre, ref);
    forall i | 0 <= i < |block| - 1
      ensures block[i] in r && r[block[i]].nextSibling == block[i + 1]
    {
      InnerLinks(m, p, block, ref, source, i);
      HookedSiblings(m, p, block[0], block[|block| - 1], pre, ref, block[i]);
      DistinctAt(block, i, |block| - 1);
    }
  }

  method SetEnds(ghost S: set<Node>, f: Node)
    requires f in S
    modifies S
    ensures Snapshot(S) == old(Snapshot(S))[f := old(Look(f)).(firstChild := null, lastChild := null, kids := [])]
  {
    f.firstChild, f.lastChild := null, null;
    f.kids := [];
  }

  /**
   `_insertBefore`: the node, or the children of a fragment in order, leave the list
   they are in and come to stand in front of the reference child.
   */
  method InsertBefore(ghost S: set<Node>, p: Node, newChild: Node, ref: Node?)
    requires CanInsert(Snapshot(S), p, newChild, ref)
    modifies S, set n | n in S :: n.owner
    ensures Snapshot(S) == AfterInsert(old(Snapshot(S)), p, newChild, ref)
    ensures World(Snapshot(S))
    ensures var block := if newChild.nodeType == 11 then Without(old(newChild.kids), newChild) else [newChild];
            p.kids == Inserted(Without(old(p.kids), newChild), block, ref)
    ensures forall n :: n in S && n != p && n != newChild ==> n.kids == Without(old(n.kids), newChild)
    ensures newChild != p ==>
              newChild.kids == if newChild.nodeType == 11 then [] else Without(old(newChild.kids), newChild)
    ensures forall n :: n in S && n != newChild && n !in old(newChild.kids) ==> n.parentNode == old(n.parentNode)
  {
    hide World, Detached, Snapshot, Inserted, Without, Insertable, TakenOut, Entered, Enterable;
    ghost var m := Snapshot(S);
    KidsOf(S);
    InsertableIn(m, newChild);
    EnterableAfter(m, p, newChild, ref);
    AfterInsertWorld(m, p, newChild, ref);
    WithoutPart(m[newChild].kids, newChild);
    Leave(S, newChild);
    Enter(S, p, newChild, ref);
    KidsOf(S);
  }

  /** `_insertBefore` of a node that left its list. */
  method Enter(ghost S: set<Node>, p: Node, newChild: Node, ref: Node?)
    requires Enterable(Snapshot(S), p, newChild, ref)
    modifies S, p.owner
    ensures Snapshot(S) == Entered(old(Snapshot(S)), p, newChild, ref)
  {
    hide World, Detached, Ready, Snapshot, Inserted, Spliced, Coherent, Inside;
    ghost var m := Snapshot(S);
    KidsOf(S);
    SnapshotAt(S, newChild);
    if newChild.nodeType == FRAGMENT_NODE {
      var newFirst := newChild.firstChild;
      CoherentAt(m, newChild);
      CoherentMeans(m, newChild);
      if newFirst == null {
        return;
      }
      var newLast := newChild.lastChild;
      ghost var block := newChild.kids;
      FragmentReady(m, p, newChild, ref);
      SplicedFields(m, p, block, ref, newChild, newChild);
      SpliceIn(S, p, block, newFirst, newLast, ref, newChild);
      SnapshotAt(S, newChild);
      SetEnds(S, newChild);
    } else {
      SingleReady(m, p, newChild, ref);
      SpliceIn(S, p, [newChild], newChild, newChild, ref, null);
    }
  }

  lemma KidsOf(S: set<Node>)
    ensures Snapshot(S).Keys == S
    ensures forall n :: n in S ==>
              Snapshot(S)[n].kids == n.kids && Snapshot(S)[n].nodeType == n.nodeType && Snapshot(S)[n].parentNode == n.parentNode
  {
  }

  /** `_appendSingleChild`: the node leaves its list and becomes the last child; the child list grows by it. */
  method AppendSingleChild(ghost S: set<Node>, p: Node, newChild: Node)
    requires World(Snapshot(S)) && p in S && Insertable(Snapshot(S), newChild)
    modifies S, set n | n in S :: n.owner
    ensures World(Snapshot(S))
    ensures p.nodeType != 11 && newChild.nodeType != 11 ==>
              CanInsert(old(Snapshot(S)), p, newChild, null) && Snapshot(S) == AfterInsert(old(Snapshot(S)), p, newChild, null)
    ensures p.kids == Without(old(p.kids), newChild) + [newChild]
    ensures forall n :: n in S && n != p ==> n.kids == Without(old(n.kids), newChild)
    ensures forall n :: n in S ==> n.parentNode == if n == newChild then p else old(n.parentNode)
  {
    hide World, Detached, Snapshot, Without, Insertable, TakenOut, Pushed;
    KidsOf(S);
    InsertableIn(Snapshot(S), newChild);
    TakenOutWorld(Snapshot(S), newChild);
    Leave(S, newChild);
    PushedWorld(Snapshot(S), p, newChild);
    KidsOf(S);
    Push(S, p, newChild);
    KidsOf(S);
  }

  method Push(ghost S: set<Node>, p: Node, newChild: Node)
    requires World(Snapshot(S)) && p in S && newChild in S && Detached(Snapshot(S), newChild)
    modifies S, p.owner
    ensures p in old(Snapshot(S)) && newChild in old(Snapshot(S))
    ensures Snapshot(S) == Pushed(old(Snapshot(S)), p, newChild)
  {
    hide World, Detached, Ready, Snapshot, Spliced, Coherent, Place;
    ghost var m := Snapshot(S);
    KidsOf(S);
    SnapshotAt(S, p);
    SingleReady(m, p, newChild, null);
    SplicedWorld(m, p, [newChild], null, null);
    BlockOutside(m, p, [newChild], null, null);
    var pre := p.lastChild;
    AppendLinks(S, p, newChild, pre);
    SnapshotAt(S, p);
    AppendIsSplice(m, p, newChild, pre);
    AppendList(S, p, newChild);
  }

  /** The fields after the pointer assignments of `_appendSingleChild`. */
  function Appended(m: Forest, p: Node, c: Node, pre: Node?): Forest
    requires p in m && c in m && Inside(m, pre)
  {
    var m1 := m[c := m[c].(parentNode := p, previousSibling := pre, nextSibling := null)];
    LinkPrevious(LinkNext(m1, p, pre, c), p, null, c)
  }

  method AppendLinks(ghost S: set<Node>, p: Node, newChild: Node, pre: Node?)
    requires p in S && newChild in S && Inside(Snapshot(S), pre)
    modifies S
    ensures Snapshot(S) == Appended(old(Snapshot(S)), p, newChild, pre)
  {
    hide Snapshot;
    SnapshotKeys(S);
    SnapshotAt(S, newChild);
    SetOwnLinks(S, newChild, p, pre);
    SnapshotKeys(S);
    SetNext(S, p, pre, newChild);
    SnapshotKeys(S);
    SetPrevious(S, p, null, newChild);
  }

  method SetOwnLinks(ghost S: set<Node>, n: Node, parent: Node, previous: Node?)
    requires n in S
    modifies S
    ensures Snapshot(S) == old(Snapshot(S))[n := old(Look(n)).(parentNode := parent, previousSibling := previous, nextSibling := null)]
  {
    n.parentNode := parent;
    n.previousSibling := previous;
    n.nextSibling := null;
  }

  method AppendList(ghost S: set<Node>, p: Node, newChild: Node)
    requires p in S
    modifies S, p.owner
    ensures var m := old(Snapshot(S));
            Snapshot(S) == m[p := old(Look(p)).(kids := old(p.kids) + [newChild], childNodes := old(p.childNodes) + [newChild])]
  {
    p.kids := p.kids + [newChild];
    p.owner.inc := p.owner.inc + 1;
    p.childNodes := p.childNodes + [newChild];
  }

  /** Appending one node is splicing it in at the end, but for the child list, which it is pushed to. */
  lemma AppendIsSplice(m: Forest, p: Node, c: Node, pre: Node?)
    requires p in m && c in m && Inside(m, pre) && pre == m[p].lastChild && pre != c
    ensures (forall b :: b in [c] ==> b in m)
    ensures var r, spliced := Appended(m, p, c, pre), Spliced(m, p, [c], null);
            && p in r && r[p].kids == m[p].kids && r[p].childNodes == m[p].childNodes
            && p in spliced && spliced[p].kids == spliced[p].childNodes == m[p].kids + [c]
            && r[p := r[p].(kids := m[p].kids + [c], childNodes := m[p].childNodes + [c])]
               == spliced[p := spliced[p].(childNodes := m[p].childNodes + [c])]
  {
    hide Appended, Hooked, Adopted, Inserted, Place;
    AppendedEnd(m[p].kids, c);
    AppendIsHook(m, p, c, pre);
    HookedRest(m, p, c, c, pre, null, p);
    AdoptedList(Hooked(m, p, c, c, pre, null), [c], p);
  }

  lemma AdoptedList(m: Forest, block: seq<Node>, p: Node)
    requires p in m
    ensures var r := Adopted(m, block, p);
            p in r && r[p].kids == m[p].kids && r[p].childNodes == m[p].childNodes
  {
  }

  lemma AppendIsHook(m: Forest, p: Node, c: Node, pre: Node?)
    requires p in m && c in m && Inside(m, pre) && pre != c
    ensures Appended(m, p, c, pre) == Adopted(Hooked(m, p, c, c, pre, null), [c], p)
  {
    hide Adopted, LinkNext, LinkPrevious;
    var own := m[c := m[c].(previousSibling := pre, nextSibling := null)];
    OwnLinks(m, c, pre, p);
    LinkKeys(own, p, pre, c);
    var next := LinkNext(own, p, pre, c);
    var h := LinkPrevious(next, p, null, c);
    LinkKeys(next, p, null, c);
    ParentCommutes(own, p, pre, c, p, c);
    ParentCommutesBack(next, p, null, c, p, c);
    AdoptedOne(h, c, p);
  }

  lemma OwnLinks(m: Forest, c: Node, pre: Node?, p: Node)
    requires c in m
    ensures var own := m[c := m[c].(previousSibling := pre, nextSibling := null)];
            var first := m[c := m[c].(previousSibling := pre)];
            && first[c := first[c].(nextSibling := null)] == own
            && m[c := m[c].(parentNode := p, previousSibling := pre, nextSibling := null)] == own[c := own[c].(parentNode := p)]
  {
  }

  lemma AdoptedOne(m: Forest, c: Node, p: Node)
    requires c in m
    ensures Adopted(m, [c], p) == m[c := m[c].(parentNode := p)]
  {
  }

  lemma LinkKeys(m: Forest, p: Node, x: Node?, y: Node?)
    requires p in m && Inside(m, x)
    ensures LinkNext(m, p, x, y).Keys == m.Keys && LinkPrevious(m, p, x, y).Keys == m.Keys
  {
  }

  lemma ParentCommutes(m: Forest, p: Node, x: Node?, y: Node?, q: Node, c: Node)
    requires p in m && Inside(m, x) && c in m
    ensures var r := LinkNext(m, p, x, y);
            c in r && LinkNext(m[c := m[c].(parentNode := q)], p, x, y) == r[c := r[c].(parentNode := q)]
  {
  }

  lemma ParentCommutesBack(m: Forest, p: Node, x: Node?, y: Node?, q: Node, c: Node)
    requires p in m && Inside(m, x) && c in m
    ensures var r := LinkPrevious(m, p, x, y);
            c in r && LinkPrevious(m[c := m[c].(parentNode := q)], p, x, y) == r[c := r[c].(parentNode := q)]
  {
  }

  /** `replaceChild`, which appends the new child when there is no old one. */
  method ReplaceChild(ghost S: set<Node>, p: Node, newChild: Node, oldChild: Node?)
    requires CanInsert(Snapshot(S), p, newChild, oldChild)
    modifies S, set n | n in S :: n.owner
    ensures Snapshot(S) == AfterReplace(old(Snapshot(S)), p, newChild, oldChild)
    ensures World(Snapshot(S))
    ensures var block := if newChild.nodeType == 11 then Without(old(newChild.kids), newChild) else [newChild];
            var placed := Inserted(Without(old(p.kids), newChild), block, oldChild);
            p.kids == if oldChild == null then placed else Without(placed, oldChild)
  {
    hide World, Snapshot, Inserted, Without, Insertable, AfterRemove, AfterInsert, Removable;
    ghost var m := Snapshot(S);
    KidsOf(S);
    InsertBefore(S, p, newChild, oldChild);
    KidsOf(S);
    if oldChild != null {
      OldStays(m, p, newChild, oldChild);
      RemoveChild(S, p, oldChild);
    }
  }
}
