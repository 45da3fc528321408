/**
 The sibling lists of an XML document tree: doubly linked nodes with parent pointers
 and a cached list of child nodes, edited in place.

 The links of a collection of nodes are looked at through a `Forest`, a map from each
 node to the values of its fields.  The methods change the fields; the lemmas say what
 that does to the forest.
 */
module Dom {

  /** The node types of the DOM; contracts name them by number. */
  const TEXT_NODE := 3
  const FRAGMENT_NODE := 11

  /** The owner of nodes; live lists compare `inc` to see whether they are stale. */
  class Owner {
    var inc: nat

    constructor ()
      ensures inc == 1
    {
      inc := 1;
    }
  }

  class Node {
    const nodeType: int
    const owner: Owner
    var parentNode: Node?
    var previousSibling: Node?
    var nextSibling: Node?
    var firstChild: Node?
    var lastChild: Node?
    var childNodes: seq<Node>
    /** The characters of a text node. */
    var data: string
    /** The children the links describe. */
    ghost var kids: seq<Node>

    constructor (nodeType: int, owner: Owner, data: string)
      ensures Look(this) == Links(nodeType, [], [], null, null, null, null, null, data) && this.owner == owner
    {
      this.nodeType, this.owner := nodeType, owner;
      parentNode, previousSibling, nextSibling, firstChild, lastChild := null, null, null, null, null;
      childNodes, kids, this.data := [], [], data;
    }
  }

  /** The fields of one node. */
  datatype Links = Links(nodeType: int, kids: seq<Node>, childNodes: seq<Node>,
                         firstChild: Node?, lastChild: Node?,
                         parentNode: Node?, previousSibling: Node?, nextSibling: Node?, data: string)

  type Forest = map<Node, Links>

  ghost function Look(n: Node): Links
    reads n
  {
    Links(n.nodeType, n.kids, n.childNodes, n.firstChild, n.lastChild, n.parentNode, n.previousSibling, n.nextSibling, n.data)
  }

  ghost function Snapshot(S: set<Node>): Forest
    reads S
  {
    map n | n in S :: Look(n)
  }

  // ------------------------------------------------------------ the invariant

  predicate Distinct(s: seq<Node>) {
    forall i, j :: 0 <= i < j < |s| ==> s[i] != s[j]
  }

  /** The nodes of `s` are linked to their neighbours, and at the ends to `before` and `after`. */
  predicate Chained(m: Forest, s: seq<Node>, before: Node?, after: Node?)
    requires forall i :: 0 <= i < |s| ==> s[i] in m
  {
    && (forall i {:trigger m[s[i]].previousSibling} :: 0 <= i < |s| ==>
          m[s[i]].previousSibling == if i == 0 then before else s[i - 1])
    && (forall i {:trigger m[s[i]].nextSibling} :: 0 <= i < |s| ==>
          m[s[i]].nextSibling == if i == |s| - 1 then after else s[i + 1])
  }

  /** The links of a parent describe the child sequence `kids`. */
  predicate Describes(m: Forest, n: Node, kids: seq<Node>)
    requires n in m
  {
    && Distinct(kids)
    && m[n].firstChild == (if kids == [] then null else kids[0])
    && m[n].lastChild == (if kids == [] then null else kids[|kids| - 1])
    && (forall i :: 0 <= i < |kids| ==> kids[i] in m && m[kids[i]].parentNode == n)
    && Chained(m, kids, null, null)
  }

  /** First and last child, sibling links, parent pointers and child list all describe one sequence. */
  predicate Coherent(m: Forest, n: Node)
    requires n in m
  {
    && Describes(m, n, m[n].kids)
    && (m[n].nodeType != FRAGMENT_NODE ==> m[n].childNodes == m[n].kids)
  }

  predicate World(m: Forest) {
    forall n :: n in m ==> Coherent(m, n)
  }

  /** The node is in no child list. */
  predicate Detached(m: Forest, n: Node) {
    forall q :: q in m ==> n !in m[q].kids
  }

  /**
   The sibling links of a node that is no child of `p`, as a removed node keeps them, say
   nothing that the lists do not say: what removing it would assign is there already.
   */
  predicate Fits(m: Forest, p: Node, c: Node)
    requires p in m && c in m
  {
    var previous, next := m[c].previousSibling, m[c].nextSibling;
    && Inside(m, previous) && Inside(m, next)
    && (if previous == null then m[p].firstChild == next else Detached(m, previous) || m[previous].nextSibling == next)
    && (if next == null then m[p].lastChild == previous else Detached(m, next) || m[next].previousSibling == previous)
  }

  /** A node that may be removed from `p`: it is a child, or its links do no harm. */
  predicate Removable(m: Forest, p: Node, c: Node) {
    p in m && c in m && (c in m[p].kids || Fits(m, p, c))
  }

  /** A node that may be inserted: it has no parent, or may be removed from it. */
  predicate Insertable(m: Forest, n: Node) {
    n in m && (m[n].parentNode != null ==> Removable(m, m[n].parentNode, n))
  }

  // ----------------------------------------------------------- sequences of nodes

  function Without(s: seq<Node>, n: Node): seq<Node> {
    if s == [] then []
    else if s[0] == n then s[1..]
    else [s[0]] + Without(s[1..], n)
  }

  lemma {:induction false} WithoutAt(s: seq<Node>, k: nat)
    requires k < |s| && Distinct(s)
    ensures Without(s, s[k]) == s[..k] + s[k + 1..]
  {
    if k == 0 {
      assert s[..0] + s[1..] == s[1..];
    } else {
      var t := s[1..];
      assert s[0] != s[k] && t[k - 1] == s[k];
      DistinctTail(s);
      WithoutAt(t, k - 1);
      assert t[..k - 1] == s[1..k] && t[k..] == s[k + 1..];
      ConsParts(s, k);
    }
  }

  lemma DistinctTail(s: seq<Node>)
    requires s != [] && Distinct(s)
    ensures Distinct(s[1..])
  {
  }

  lemma ConsParts(s: seq<Node>, k: nat)
    requires 1 <= k < |s|
    ensures [s[0]] + (s[1..k] + s[k + 1..]) == s[..k] + s[k + 1..]
  {
  }

  lemma {:induction false} WithoutAbsent(s: seq<Node>, n: Node)
    requires n !in s
    ensures Without(s, n) == s
  {
    if s == [] {
    } else {
      WithoutAbsent(s[1..], n);
    }
  }

  /** Where the reference child stands; at the end when there is none. */
  function Place(s: seq<Node>, ref: Node?): (j: nat)
    ensures j <= |s|
    ensures j < |s| ==> s[j] == ref
    ensures forall i :: 0 <= i < j ==> s[i] != ref
  {
    if s == [] || s[0] == ref then 0 else 1 + Place(s[1..], ref)
  }

  /** A child list with a block of nodes inserted in front of the reference child. */
  function Inserted(s: seq<Node>, block: seq<Node>, ref: Node?): seq<Node> {
    s[..Place(s, ref)] + block + s[Place(s, ref)..]
  }

  // ------------------------------------------------------------------- removal

  predicate Inside(m: Forest, n: Node?) {
    n == null || n in m
  }

  /** What follows `x`, or what comes first under `p`, becomes `y`. */
  function LinkNext(m: Forest, p: Node, x: Node?, y: Node?): Forest
    requires p in m && Inside(m, x)
  {
    if x != null then m[x := m[x].(nextSibling := y)] else m[p := m[p].(firstChild := y)]
  }

  /** What precedes `x`, or what comes last under `p`, becomes `y`. */
  function LinkPrevious(m: Forest, p: Node, x: Node?, y: Node?): Forest
    requires p in m && Inside(m, x)
  {
    if x != null then m[x := m[x].(previousSibling := y)] else m[p := m[p].(lastChild := y)]
  }

  /** The fields after `_removeChild(p, child)`. */
  function Removed(m: Forest, p: Node, child: Node): Forest
    requires p in m && child in m && Inside(m, m[child].previousSibling) && Inside(m, m[child].nextSibling)
  {
    var previous, next := m[child].previousSibling, m[child].nextSibling;
    var m1 := LinkNext(m, p, previous, next);
    var m2 := LinkPrevious(m1, p, next, previous);
    var kids := Without(m[p].kids, child);
    m2[p := m2[p].(kids := kids, childNodes := kids)]
  }

  /** A child knows its neighbours. */
  lemma Neighbours(m: Forest, p: Node, child: Node) returns (k: nat)
    requires World(m) && p in m && child in m[p].kids
    ensures k < |m[p].kids| && m[p].kids[k] == child
    ensures child in m && m[child].parentNode == p
    ensures m[child].previousSibling == if k == 0 then null else m[p].kids[k - 1]
    ensures m[child].nextSibling == if k == |m[p].kids| - 1 then null else m[p].kids[k + 1]
    ensures Inside(m, m[child].previousSibling) && Inside(m, m[child].nextSibling)
  {
    assert Coherent(m, p);
    k :| 0 <= k < |m[p].kids| && m[p].kids[k] == child;
    assert m[m[p].kids[k]].previousSibling == m[child].previousSibling;
    assert m[m[p].kids[k]].nextSibling == m[child].nextSibling;
  }

  predicate SameList(a: Links, b: Links) {
    a.kids == b.kids && a.childNodes == b.childNodes && a.firstChild == b.firstChild && a.lastChild == b.lastChild
  }

  /** What removal changes, node by node. */
  lemma RemovedFields(m: Forest, p: Node, child: Node, n: Node)
    requires p in m && child in m && Inside(m, m[child].previousSibling) && Inside(m, m[child].nextSibling) && n in m
    ensures var r := Removed(m, p, child);
            && r.Keys == m.Keys
            && r[n].previousSibling == (if n == m[child].nextSibling then m[child].previousSibling else m[n].previousSibling)
            && r[n].nextSibling == (if n == m[child].previousSibling then m[child].nextSibling else m[n].nextSibling)
            && r[n].parentNode == m[n].parentNode && r[n].nodeType == m[n].nodeType
            && (n != p ==> SameList(r[n], m[n]))
            && r[p].kids == r[p].childNodes == Without(m[p].kids, child)
            && r[p].firstChild == (if m[child].previousSibling == null then m[child].nextSibling else m[p].firstChild)
            && r[p].lastChild == (if m[child].nextSibling == null then m[child].previousSibling else m[p].lastChild)
  {
    hide Without, LinkNext, LinkPrevious;
    var previous, next := m[child].previousSibling, m[child].nextSibling;
    var m1 := LinkNext(m, p, previous, next);
    NextLinked(m, p, previous, next, n);
    NextLinked(m, p, previous, next, p);
    PreviousLinked(m1, p, next, previous, n);
    PreviousLinked(m1, p, next, previous, p);
  }

  lemma NextLinked(m: Forest, p: Node, x: Node?, y: Node?, n: Node)
    requires p in m && Inside(m, x) && n in m
    ensures var r := LinkNext(m, p, x, y);
            && r.Keys == m.Keys && RestSame(r[n], m[n])
            && r[n].nextSibling == (if n == x then y else m[n].nextSibling) && r[n].previousSibling == m[n].previousSibling
            && r[n].firstChild == (if x == null && n == p then y else m[n].firstChild) && r[n].lastChild == m[n].lastChild
  {
  }

  lemma PreviousLinked(m: Forest, p: Node, x: Node?, y: Node?, n: Node)
    requires p in m && Inside(m, x) && n in m
    ensures var r := LinkPrevious(m, p, x, y);
            && r.Keys == m.Keys && RestSame(r[n], m[n])
            && r[n].previousSibling == (if n == x then y else m[n].previousSibling) && r[n].nextSibling == m[n].nextSibling
            && r[n].lastChild == (if x == null && n == p then y else m[n].lastChild) && r[n].firstChild == m[n].firstChild
  {
  }

  /** Nodes that are children of different parents are different. */
  lemma OneParent(m: Forest, p: Node, q: Node, c: Node)
    requires World(m) && p in m && q in m && c in m[p].kids && c in m[q].kids
    ensures p == q
  {
    hide World;
    var k := Neighbours(m, p, c);
    var l := Neighbours(m, q, c);
  }

  /** Removing a child keeps the invariant and takes that child out of its parent's sequence. */
  lemma ChildRemoved(m: Forest, p: Node, child: Node)
    requires World(m) && p in m && child in m[p].kids
    ensures child in m && Inside(m, m[child].previousSibling) && Inside(m, m[child].nextSibling)
    ensures World(Removed(m, p, child))
    ensures Detached(Removed(m, p, child), child)
  {
    hide World, Coherent, Removed, Detached, Without;
    var k := Neighbours(m, p, child);
    RemovedFields(m, p, child, p);
    var r := Removed(m, p, child);
    forall n | n in r
      ensures Coherent(r, n)
    {
      if n == p {
        RemovedParent(m, p, child);
      } else {
        RemovedOther(m, p, child, n);
      }
    }
    WorldIntro(r);
    forall q | q in r
      ensures child !in r[q].kids
    {
      RemovedFields(m, p, child, q);
      ChildGone(m, p, child, q);
    }
    DetachedIntro(r, child);
  }

  lemma RemovableInside(m: Forest, p: Node, c: Node)
    requires World(m) && Removable(m, p, c)
    ensures p in m && c in m && Inside(m, m[c].previousSibling) && Inside(m, m[c].nextSibling)
  {
    hide World;
    if c in m[p].kids {
      var k := Neighbours(m, p, c);
    }
  }

  /**
   The pointer updates of `_removeChild` keep the invariant exactly when the node is a
   child, or its links do no harm; then exactly that node is taken out.
   */
  lemma RemovedWorld(m: Forest, p: Node, c: Node)
    requires World(m) && p in m && c in m && Inside(m, m[c].previousSibling) && Inside(m, m[c].nextSibling)
    ensures Removed(m, p, c).Keys == m.Keys && Removed(m, p, c)[p].kids == Without(m[p].kids, c)
    ensures World(Removed(m, p, c)) <==> Removable(m, p, c)
    ensures c in m[p].kids || Detached(m, c) ==> Detached(Removed(m, p, c), c)
  {
    hide World, Coherent, Removed, Detached, Fits;
    RemovedFields(m, p, c, p);
    if c in m[p].kids {
      ChildRemoved(m, p, c);
    } else {
      WithoutAbsent(m[p].kids, c);
      if Fits(m, p, c) {
        FitRemoved(m, p, c);
      }
      if World(Removed(m, p, c)) {
        FitNeeded(m, p, c);
      }
      if Detached(m, c) {
        StaysDetached(m, p, c);
      }
    }
  }

  lemma StaysDetached(m: Forest, p: Node, c: Node)
    requires p in m && c in m && Inside(m, m[c].previousSibling) && Inside(m, m[c].nextSibling)
    requires c !in m[p].kids && Detached(m, c)
    ensures Detached(Removed(m, p, c), c)
  {
    hide Removed, Inside;
    WithoutAbsent(m[p].kids, c);
    RemovedFields(m, p, c, p);
    forall q | q in m
      ensures c !in Removed(m, p, c)[q].kids
    {
      RemovedFields(m, p, c, q);
    }
  }

  lemma FitRemoved(m: Forest, p: Node, c: Node)
    requires World(m) && p in m && c in m && c !in m[p].kids && Fits(m, p, c)
    ensures World(Removed(m, p, c))
  {
    hide World, Coherent, Removed, Without, Describes, Distinct, LinkedAt, Fits;
    FitsInside(m, p, c);
    var r := Removed(m, p, c);
    RemovedFields(m, p, c, p);
    WithoutAbsent(m[p].kids, c);
    forall n | n in r
      ensures Coherent(r, n)
    {
      RemovedFields(m, p, c, n);
      CoherentAt(m, n);
      CoherentMeans(m, n);
      FitEnds(m, p, c);
      forall i | 0 <= i < |m[n].kids|
        ensures LinkedAt(r, n, m[n].kids, i)
      {
        FitLink(m, p, c, n, i);
      }
      DescribesIntro(r, n, m[n].kids);
      if n == p {
        CoherentIntro(r, p);
      } else {
        CoherentKept(m, r, n);
      }
    }
    WorldIntro(r);
  }

  lemma FitsInside(m: Forest, p: Node, c: Node)
    requires p in m && c in m && Fits(m, p, c)
    ensures Inside(m, m[c].previousSibling) && Inside(m, m[c].nextSibling)
  {
  }

  lemma FitEnds(m: Forest, p: Node, c: Node)
    requires p in m && c in m && Fits(m, p, c)
    ensures m[c].previousSibling == null ==> m[p].firstChild == m[c].nextSibling
    ensures m[c].nextSibling == null ==> m[p].lastChild == m[c].previousSibling
  {
  }

  lemma FitLink(m: Forest, p: Node, c: Node, n: Node, i: nat)
    requires World(m) && p in m && c in m && Fits(m, p, c) && n in m && i < |m[n].kids|
    requires Inside(m, m[c].previousSibling) && Inside(m, m[c].nextSibling)
    ensures LinkedAt(Removed(m, p, c), n, m[n].kids, i)
  {
    hide World, Removed;
    LinkedIn(m, n, i);
    var x := m[n].kids[i];
    assert x in m[n].kids && !Detached(m, x);
    RemovedFields(m, p, c, x);
  }

  lemma FitNeeded(m: Forest, p: Node, c: Node)
    requires World(m) && p in m && c in m && Inside(m, m[c].previousSibling) && Inside(m, m[c].nextSibling)
    requires c !in m[p].kids && World(Removed(m, p, c))
    ensures Fits(m, p, c)
  {
    hide World, Removed, Coherent, Without, Detached;
    var r := Removed(m, p, c);
    RemovedFields(m, p, c, p);
    WithoutAbsent(m[p].kids, c);
    CoherentAt(m, p);
    CoherentMeans(m, p);
    CoherentAt(r, p);
    CoherentMeans(r, p);
    var previous, next := m[c].previousSibling, m[c].nextSibling;
    if previous != null && !Detached(m, previous) {
      SameNeighbours(m, p, c, previous);
      RemovedFields(m, p, c, previous);
    }
    if next != null && !Detached(m, next) {
      SameNeighbours(m, p, c, next);
      RemovedFields(m, p, c, next);
    }
  }

  /** A listed node has the same neighbours in two forests with the same lists. */
  lemma SameNeighbours(m: Forest, p: Node, c: Node, x: Node)
    requires World(m) && p in m && c in m && Inside(m, m[c].previousSibling) && Inside(m, m[c].nextSibling)
    requires c !in m[p].kids && World(Removed(m, p, c)) && x in m && !Detached(m, x)
    ensures x in Removed(m, p, c)
    ensures Removed(m, p, c)[x].previousSibling == m[x].previousSibling
    ensures Removed(m, p, c)[x].nextSibling == m[x].nextSibling
  {
    hide World, Removed, Coherent, Without;
    var q :| q in m && x in m[q].kids;
    var i :| 0 <= i < |m[q].kids| && m[q].kids[i] == x;
    WithoutAbsent(m[p].kids, c);
    RemovedFields(m, p, c, q);
    LinkedIn(m, q, i);
    LinkedIn(Removed(m, p, c), q, i);
  }

  lemma WorldIntro(m: Forest)
    requires forall n :: n in m ==> Coherent(m, n)
    ensures World(m)
  {
  }

  lemma DetachedIntro(m: Forest, n: Node)
    requires forall q :: q in m ==> n !in m[q].kids
    ensures Detached(m, n)
  {
  }

  lemma ChildGone(m: Forest, p: Node, child: Node, q: Node)
    requires World(m) && p in m && child in m[p].kids && q in m
    ensures q != p ==> child !in m[q].kids
    ensures child !in Without(m[p].kids, child)
  {
    hide World, Coherent, Distinct, Without;
    if q != p && child in m[q].kids {
      OneParent(m, p, q, child);
    }
    var k := Neighbours(m, p, child);
    CoherentAt(m, p);
    CoherentMeans(m, p);
    DistinctGone(m[p].kids, k);
  }

  lemma DistinctGone(s: seq<Node>, k: nat)
    requires Distinct(s) && k < |s|
    ensures s[k] !in Without(s, s[k])
  {
    WithoutAt(s, k);
  }

  lemma RemovedOther(m: Forest, p: Node, child: Node, n: Node)
    requires World(m) && p in m && child in m[p].kids && n in m && n != p
    requires child in m && Inside(m, m[child].previousSibling) && Inside(m, m[child].nextSibling)
    requires n in Removed(m, p, child)
    ensures Coherent(Removed(m, p, child), n)
  {
    hide World, Removed;
    var r := Removed(m, p, child);
    RemovedFields(m, p, child, n);
    var kids := m[n].kids;
    CoherentAt(m, n);
    forall i | 0 <= i < |kids|
      ensures kids[i] in r && r[kids[i]].parentNode == n
      ensures r[kids[i]].previousSibling == m[kids[i]].previousSibling
      ensures r[kids[i]].nextSibling == m[kids[i]].nextSibling
    {
      RemovedFields(m, p, child, kids[i]);
      var k := Neighbours(m, p, child);
      if kids[i] in m[p].kids {
        OneParent(m, p, n, kids[i]);
      }
    }
  }

  lemma CoherentAt(m: Forest, n: Node)
    requires World(m) && n in m
    ensures Coherent(m, n)
  {
  }

  lemma RemovedParent(m: Forest, p: Node, child: Node)
    requires World(m) && p in m && child in m[p].kids
    requires child in m && Inside(m, m[child].previousSibling) && Inside(m, m[child].nextSibling)
    requires p in Removed(m, p, child)
    ensures Coherent(Removed(m, p, child), p)
  {
    hide World, Removed, Without, Coherent, Describes, Distinct;
    var r, s := Removed(m, p, child), m[p].kids;
    CoherentAt(m, p);
    CoherentMeans(m, p);
    var k := Neighbours(m, p, child);
    RemovedFields(m, p, child, p);
    WithoutAt(s, k);
    var t := s[..k] + s[k + 1..];
    DistinctWithout(s, k);
    forall i | 0 <= i < |t|
      ensures LinkedAt(r, p, t, i)
    {
      RemovedLink(m, p, child, k, i);
    }
    DescribesIntro(r, p, t);
    assert r[p].kids == t;
    CoherentIntro(r, p);
  }

  lemma CoherentMeans(m: Forest, n: Node)
    requires n in m && Coherent(m, n)
    ensures Distinct(m[n].kids)
    ensures m[n].firstChild == (if m[n].kids == [] then null else m[n].kids[0])
    ensures m[n].lastChild == (if m[n].kids == [] then null else m[n].kids[|m[n].kids| - 1])
  {
  }

  lemma CoherentIntro(m: Forest, n: Node)
    requires n in m && Describes(m, n, m[n].kids) && m[n].childNodes == m[n].kids
    ensures Coherent(m, n)
  {
  }

  /** The links of the `i`-th node of a child sequence. */
  predicate LinkedAt(m: Forest, p: Node, t: seq<Node>, i: nat)
    requires i < |t|
  {
    && t[i] in m && m[t[i]].parentNode == p
    && m[t[i]].previousSibling == (if i == 0 then null else t[i - 1])
    && m[t[i]].nextSibling == (if i == |t| - 1 then null else t[i + 1])
  }

  lemma DescribesIntro(m: Forest, p: Node, t: seq<Node>)
    requires p in m && Distinct(t) && forall i :: 0 <= i < |t| ==> LinkedAt(m, p, t, i)
    requires m[p].firstChild == (if t == [] then null else t[0])
    requires m[p].lastChild == (if t == [] then null else t[|t| - 1])
    ensures Describes(m, p, t)
  {
    hide Distinct;
    forall i | 0 <= i < |t|
      ensures t[i] in m && m[t[i]].parentNode == p
    {
      assert LinkedAt(m, p, t, i);
    }
    ChainedIntro(m, p, t);
  }

  lemma ChainedIntro(m: Forest, p: Node, t: seq<Node>)
    requires (forall i :: 0 <= i < |t| ==> t[i] in m) && forall i :: 0 <= i < |t| ==> LinkedAt(m, p, t, i)
    ensures Chained(m, t, null, null)
  {
    forall i | 0 <= i < |t|
      ensures m[t[i]].previousSibling == if i == 0 then null else t[i - 1]
    {
      assert LinkedAt(m, p, t, i);
    }
    forall i | 0 <= i < |t|
      ensures m[t[i]].nextSibling == if i == |t| - 1 then null else t[i + 1]
    {
      assert LinkedAt(m, p, t, i);
    }
  }

  lemma LinkedIn(m: Forest, p: Node, i: nat)
    requires World(m) && p in m && i < |m[p].kids|
    ensures LinkedAt(m, p, m[p].kids, i)
  {
    hide World;
    CoherentAt(m, p);
    CoherentLinked(m, p, i);
  }

  lemma CoherentLinked(m: Forest, n: Node, i: nat)
    requires n in m && Coherent(m, n) && i < |m[n].kids|
    ensures m[n].kids[i] in m && LinkedAt(m, n, m[n].kids, i)
  {
    var s := m[n].kids;
    hide Distinct;
    assert Describes(m, n, s);
    ChainedAt(m, s, i);
  }

  lemma ChainedAt(m: Forest, s: seq<Node>, i: nat)
    requires (forall k :: 0 <= k < |s| ==> s[k] in m) && Chained(m, s, null, null) && i < |s|
    ensures m[s[i]].previousSibling == if i == 0 then null else s[i - 1]
    ensures m[s[i]].nextSibling == if i == |s| - 1 then null else s[i + 1]
  {
  }

  lemma DistinctWithout(s: seq<Node>, k: nat)
    requires Distinct(s) && k < |s|
    ensures Distinct(s[..k] + s[k + 1..])
  {
  }

  lemma DistinctAt(s: seq<Node>, i: nat, j: nat)
    requires Distinct(s) && i < |s| && j < |s|
    ensures s[i] == s[j] <==> i == j
  {
  }

  lemma RemovedLink(m: Forest, p: Node, child: Node, k: nat, i: nat)
    requires World(m) && p in m && k < |m[p].kids| && child == m[p].kids[k] && i < |m[p].kids| - 1
    requires child in m && Inside(m, m[child].previousSibling) && Inside(m, m[child].nextSibling)
    ensures LinkedAt(Removed(m, p, child), p, m[p].kids[..k] + m[p].kids[k + 1..], i)
  {
    hide World, Removed, Without, Distinct, Coherent, Describes, Inside;
    var s := m[p].kids;
    CoherentAt(m, p);
    CoherentMeans(m, p);
    LinkedIn(m, p, k);
    var j := if i < k then i else i + 1;
    LinkedIn(m, p, j);
    if k > 0 {
      DistinctAt(s, j, k - 1);
    }
    if k + 1 < |s| {
      DistinctAt(s, j, k + 1);
    }
    RemovedFields(m, p, child, s[j]);
  }

  // ------------------------------------------------------------------ insertion

  /** The fields after a block of linked nodes is spliced in front of `ref` in the children of `p`. */
  function Spliced(m: Forest, p: Node, block: seq<Node>, ref: Node?): Forest
    requires p in m && block != [] && (forall b :: b in block ==> b in m)
    requires if ref != null then ref in m && Inside(m, m[ref].previousSibling) else Inside(m, m[p].lastChild)
  {
    var first, last := block[0], block[|block| - 1];
    var pre := if ref != null then m[ref].previousSibling else m[p].lastChild;
    var m5 := Adopted(Hooked(m, p, first, last, pre, ref), block, p);
    var kids := Inserted(m[p].kids, block, ref);
    m5[p := m5[p].(kids := kids, childNodes := kids)]
  }

  function Adopted(m: Forest, block: seq<Node>, p: Node): Forest {
    map n | n in m :: if n in block then m[n].(parentNode := p) else m[n]
  }

  /** The nodes of a block are linked to each other. */
  predicate InnerChained(m: Forest, block: seq<Node>)
    requires forall i :: 0 <= i < |block| ==> block[i] in m
  {
    && (forall i {:trigger m[block[i]].previousSibling} :: 0 < i < |block| ==> m[block[i]].previousSibling == block[i - 1])
    && (forall i {:trigger m[block[i]].nextSibling} :: 0 <= i < |block| - 1 ==> m[block[i]].nextSibling == block[i + 1])
  }

  /**
   A block that may be spliced into the children of `p`: its nodes are linked to each
   other and are children of no node but possibly `source`, the fragment they come from.
   Every node but `source` is coherent.
   */
  predicate Ready(m: Forest, p: Node, block: seq<Node>, ref: Node?, source: Node?) {
    && p in m && p != source && block != [] && Distinct(block)
    && (forall i :: 0 <= i < |block| ==> block[i] in m)
    && InnerChained(m, block)
    && (forall n :: n in m && n != source ==> Coherent(m, n))
    && (forall n, i :: n in m && n != source && 0 <= i < |block| ==> block[i] !in m[n].kids)
    && (ref != null ==> ref in m[p].kids)
  }

  /** Where the new block goes, and what stands in front of it. */
  lemma Gap(m: Forest, p: Node, block: seq<Node>, ref: Node?, source: Node?)
    requires Ready(m, p, block, ref, source)
    ensures var s, j := m[p].kids, Place(m[p].kids, ref);
            && (ref == null ==> j == |s|) && (ref != null ==> j < |s| && s[j] == ref && ref in m)
            && (if ref != null then m[ref].previousSibling else m[p].lastChild) == (if j == 0 then null else s[j - 1])
            && (if ref != null then Inside(m, m[ref].previousSibling) else Inside(m, m[p].lastChild))
            && (forall b :: b in block ==> b in m)
            && Coherent(m, p)
  {
    hide Distinct, InnerChained, Coherent, Place;
    var s, j := m[p].kids, Place(m[p].kids, ref);
    CoherentMeans(m, p);
    if j < |s| {
      CoherentLinked(m, p, j);
    }
    if j > 0 {
      CoherentLinked(m, p, j - 1);
    }
  }

  /** The four pointer assignments of a splice. */
  function Hooked(m: Forest, p: Node, first: Node, last: Node, pre: Node?, ref: Node?): Forest
    requires p in m && first in m && last in m && Inside(m, pre) && Inside(m, ref)
  {
    var m1 := m[first := m[first].(previousSibling := pre)];
    var m2 := m1[last := m1[last].(nextSibling := ref)];
    var m3 := LinkNext(m2, p, pre, first);
    LinkPrevious(m3, p, ref, last)
  }

  lemma HookedSiblings(m: Forest, p: Node, first: Node, last: Node, pre: Node?, ref: Node?, n: Node)
    requires p in m && first in m && last in m && Inside(m, pre) && Inside(m, ref) && n in m
    requires ref != first && pre != last
    ensures var r := Hooked(m, p, first, last, pre, ref);
            && n in r
            && r[n].previousSibling == (if n == ref then last else if n == first then pre else m[n].previousSibling)
            && r[n].nextSibling == (if n == pre then first else if n == last then ref else m[n].nextSibling)
  {
  }

  lemma HookedRest(m: Forest, p: Node, first: Node, last: Node, pre: Node?, ref: Node?, n: Node)
    requires p in m && first in m && last in m && Inside(m, pre) && Inside(m, ref) && n in m
    ensures var r := Hooked(m, p, first, last, pre, ref);
            && r.Keys == m.Keys
            && r[n].parentNode == m[n].parentNode && r[n].nodeType == m[n].nodeType
            && r[n].kids == m[n].kids && r[n].childNodes == m[n].childNodes
  {
    hide LinkNext, LinkPrevious;
    var m1 := m[first := m[first].(previousSibling := pre)];
    var m2 := m1[last := m1[last].(nextSibling := ref)];
    NextLinked(m2, p, pre, first, n);
    PreviousLinked(LinkNext(m2, p, pre, first), p, ref, last, n);
  }

  predicate RestSame(a: Links, b: Links) {
    a.parentNode == b.parentNode && a.nodeType == b.nodeType && a.kids == b.kids && a.childNodes == b.childNodes
  }

  lemma HookedEnds(m: Forest, p: Node, first: Node, last: Node, pre: Node?, ref: Node?, n: Node)
    requires p in m && first in m && last in m && Inside(m, pre) && Inside(m, ref) && n in m
    ensures var r := Hooked(m, p, first, last, pre, ref);
            && n in r
            && r[n].firstChild == (if n == p && pre == null then first else m[n].firstChild)
            && r[n].lastChild == (if n == p && ref == null then last else m[n].lastChild)
  {
  }

  /** What splicing changes, node by node. */
  lemma SplicedFields(m: Forest, p: Node, block: seq<Node>, ref: Node?, source: Node?, n: Node)
    requires Ready(m, p, block, ref, source) && n in m
    ensures (if ref != null then ref in m && Inside(m, m[ref].previousSibling) else Inside(m, m[p].lastChild))
    ensures (forall b :: b in block ==> b in m)
    ensures var r, first, last := Spliced(m, p, block, ref), block[0], block[|block| - 1];
            var pre := if ref != null then m[ref].previousSibling else m[p].lastChild;
            && r.Keys == m.Keys
            && r[n].previousSibling == (if n == ref then last else if n == first then pre else m[n].previousSibling)
            && r[n].nextSibling == (if n == pre then first else if n == last then ref else m[n].nextSibling)
            && r[n].parentNode == (if n in block then p else m[n].parentNode)
            && r[n].nodeType == m[n].nodeType
            && (n != p ==> SameList(r[n], m[n]))
            && r[p].kids == r[p].childNodes == Inserted(m[p].kids, block, ref)
            && r[p].firstChild == (if pre == null then first else m[p].firstChild)
            && r[p].lastChild == (if ref == null then last else m[p].lastChild)
  {
    hide Ready, Coherent, Inserted, Place, Hooked;
    Gap(m, p, block, ref, source);
    RefOutside(m, p, block, ref, source);
    var first, last := block[0], block[|block| - 1];
    var pre := if ref != null then m[ref].previousSibling else m[p].lastChild;
    assert first in block && last in block;
    HookedSiblings(m, p, first, last, pre, ref, n);
    HookedRest(m, p, first, last, pre, ref, n);
    HookedEnds(m, p, first, last, pre, ref, n);
    HookedEnds(m, p, first, last, pre, ref, p);
  }

  lemma RefOutside(m: Forest, p: Node, block: seq<Node>, ref: Node?, source: Node?)
    requires Ready(m, p, block, ref, source)
    ensures block != [] && p in m
    ensures ref == null || ref !in block
    ensures var s, j := m[p].kids, Place(m[p].kids, ref);
            j > 0 ==> s[j - 1] !in block
  {
    hide Coherent, Distinct, InnerChained;
    var s := m[p].kids;
    forall b | b in block
      ensures b !in s
    {
      var i :| 0 <= i < |block| && block[i] == b;
      assert block[i] !in m[p].kids;
    }
    var j := Place(s, ref);
    assert j > 0 ==> s[j - 1] in s;
  }

  lemma ReadyMeans(m: Forest, p: Node, block: seq<Node>, ref: Node?, source: Node?, n: Node)
    requires Ready(m, p, block, ref, source) && n in m && n != source
    ensures Coherent(m, n) && forall i :: 0 <= i < |m[n].kids| ==> m[n].kids[i] !in block
  {
    hide Coherent, Distinct, InnerChained;
    forall b | b in block
      ensures b !in m[n].kids
    {
      var i :| 0 <= i < |block| && block[i] == b;
      assert block[i] !in m[n].kids;
    }
    assert forall i :: 0 <= i < |m[n].kids| ==> m[n].kids[i] in m[n].kids;
  }

  /** A node other than the parent keeps its child sequence and its links. */
  lemma SplicedOther(m: Forest, p: Node, block: seq<Node>, ref: Node?, source: Node?, n: Node)
    requires Ready(m, p, block, ref, source) && n in m && n != source && n != p && p in m && block != []
    requires (if ref != null then ref in m && Inside(m, m[ref].previousSibling) else Inside(m, m[p].lastChild))
    requires (forall b :: b in block ==> b in m)
    requires n in Spliced(m, p, block, ref)
    ensures Coherent(Spliced(m, p, block, ref), n)
  {
    hide Ready, Spliced, Coherent, Describes, Distinct, Place, Inserted, Inside;
    var r, s := Spliced(m, p, block, ref), m[n].kids;
    SplicedFields(m, p, block, ref, source, n);
    ReadyMeans(m, p, block, ref, source, n);
    CoherentMeans(m, n);
    forall i | 0 <= i < |s|
      ensures LinkedAt(r, n, s, i)
    {
      CoherentLinked(m, n, i);
      SplicedFields(m, p, block, ref, source, s[i]);
      RefNotHere(m, p, block, ref, source, n, i);
      assert block[0] in block && block[|block| - 1] in block;
    }
    DescribesIntro(r, n, s);
    CoherentKept(m, r, n);
  }

  lemma RefNotHere(m: Forest, p: Node, block: seq<Node>, ref: Node?, source: Node?, n: Node, i: nat)
    requires Ready(m, p, block, ref, source) && n in m && n != source && n != p && i < |m[n].kids|
    ensures block != []
    ensures m[n].kids[i] != ref
    ensures m[n].kids[i] != if ref != null && ref in m then m[ref].previousSibling else m[p].lastChild
  {
    hide Ready, Coherent, Place, Distinct;
    Gap(m, p, block, ref, source);
    ReadyMeans(m, p, block, ref, source, n);
    RefOutside(m, p, block, ref, source);
    CoherentLinked(m, n, i);
    var s, j := m[p].kids, Place(m[p].kids, ref);
    if j < |s| {
      CoherentLinked(m, p, j);
    }
    if j > 0 {
      CoherentLinked(m, p, j - 1);
    }
  }

  lemma CoherentKept(m: Forest, r: Forest, n: Node)
    requires n in m && n in r && Coherent(m, n)
    requires r[n].nodeType == m[n].nodeType && SameList(r[n], m[n]) && Describes(r, n, m[n].kids)
    ensures Coherent(r, n)
  {
  }

  /** The parent's new sequence is the old one with the block in front of the reference child. */
  lemma SplicedParent(m: Forest, p: Node, block: seq<Node>, ref: Node?, source: Node?)
    requires Ready(m, p, block, ref, source)
    requires p in m && block != [] && (if ref != null then ref in m && Inside(m, m[ref].previousSibling) else Inside(m, m[p].lastChild))
    requires (forall b :: b in block ==> b in m)
    requires p in Spliced(m, p, block, ref)
    ensures Coherent(Spliced(m, p, block, ref), p)
  {
    hide Ready, Spliced, Coherent, Describes, Distinct, Inside, LinkedAt;
    var r, s := Spliced(m, p, block, ref), m[p].kids;
    var j := Place(s, ref);
    var t := s[..j] + block + s[j..];
    SplicedFields(m, p, block, ref, source, p);
    Gap(m, p, block, ref, source);
    CoherentMeans(m, p);
    SplicedDistinct(m, p, block, ref, source);
    forall i | 0 <= i < |t|
      ensures LinkedAt(r, p, t, i)
    {
      if i < j || i >= j + |block| {
        SplicedOldLink(m, p, block, ref, source, i);
      } else {
        SplicedNewLink(m, p, block, ref, source, i - j);
      }
    }
    DescribesIntro(r, p, t);
    CoherentIntro(r, p);
  }

  lemma SplicedDistinct(m: Forest, p: Node, block: seq<Node>, ref: Node?, source: Node?)
    requires Ready(m, p, block, ref, source)
    ensures p in m && block != [] && p != source
    ensures var s, j := m[p].kids, Place(m[p].kids, ref);
            Distinct(s[..j] + block + s[j..])
  {
    hide Coherent, InnerChained, Place;
    ReadyMeans(m, p, block, ref, source, p);
    CoherentMeans(m, p);
    var s, j := m[p].kids, Place(m[p].kids, ref);
    var t := s[..j] + block + s[j..];
    forall x, y | 0 <= x < y < |t|
      ensures t[x] != t[y]
    {
      var a := if x < j then x else if x < j + |block| then x - j else x - |block|;
      var b := if y < j then y else if y < j + |block| then y - j else y - |block|;
      assert t[x] == if j <= x < j + |block| then block[a] else s[a];
      assert t[y] == if j <= y < j + |block| then block[b] else s[b];
    }
  }

  lemma SplicedOldLink(m: Forest, p: Node, block: seq<Node>, ref: Node?, source: Node?, i: nat)
    requires Ready(m, p, block, ref, source)
    requires p in m && block != [] && (if ref != null then ref in m && Inside(m, m[ref].previousSibling) else Inside(m, m[p].lastChild))
    requires (forall b :: b in block ==> b in m)
    requires var s, j := m[p].kids, Place(m[p].kids, ref);
             i < |s| + |block| && (i < j || i >= j + |block|)
    ensures var s, j := m[p].kids, Place(m[p].kids, ref);
            LinkedAt(Spliced(m, p, block, ref), p, s[..j] + block + s[j..], i)
  {
    hide *;
    var r, s := Spliced(m, p, block, ref), m[p].kids;
    var j := Place(s, ref);
    var t := s[..j] + block + s[j..];
    var k := if i < j then i else i - |block|;
    Around(s, block, j, k);
    ReadyParent(m, p, block, ref, source);
    ReadyMeans(m, p, block, ref, source, p);
    Gap(m, p, block, ref, source);
    CoherentMeans(m, p);
    CoherentLinked(m, p, k);
    SplicedFields(m, p, block, ref, source, s[k]);
    OldLink(m, r, p, block, ref, s, j, k);
  }

  /** The neighbours of an old child in the new sequence. */
  lemma Around(s: seq<Node>, block: seq<Node>, j: nat, k: nat)
    requires j <= |s| && k < |s| && block != []
    ensures var t, i := s[..j] + block + s[j..], if k < j then k else k + |block|;
            && i < |t| && t[i] == s[k]
            && (i == 0 <==> k == 0 && j > 0)
            && (i > 0 ==> t[i - 1] == if k == j then block[|block| - 1] else s[k - 1])
            && (i == |t| - 1 <==> k == |s| - 1 && j < |s|)
            && (i < |t| - 1 ==> t[i + 1] == if k + 1 == j then block[0] else s[k + 1])
  {
  }

  lemma OldLink(m: Forest, r: Forest, p: Node, block: seq<Node>, ref: Node?, s: seq<Node>, j: nat, k: nat)
    requires j <= |s| && k < |s| && block != [] && s[k] in r && s[k] in m && Distinct(s) && LinkedAt(m, p, s, k)
    requires s[k] !in block
    requires ref == if j < |s| then s[j] else null
    requires var pre := if j == 0 then null else s[j - 1];
             && r[s[k]].previousSibling == (if s[k] == ref then block[|block| - 1] else m[s[k]].previousSibling)
             && r[s[k]].nextSibling == (if s[k] == pre then block[0] else m[s[k]].nextSibling)
             && r[s[k]].parentNode == m[s[k]].parentNode
    ensures LinkedAt(r, p, s[..j] + block + s[j..], if k < j then k else k + |block|)
  {
    hide Distinct;
    Around(s, block, j, k);
    if j < |s| {
      DistinctAt(s, k, j);
    }
    if j > 0 {
      DistinctAt(s, k, j - 1);
    }
  }

  lemma SplicedNewLink(m: Forest, p: Node, block: seq<Node>, ref: Node?, source: Node?, i: nat)
    requires Ready(m, p, block, ref, source) && i < |block|
    requires p in m && block != [] && (if ref != null then ref in m && Inside(m, m[ref].previousSibling) else Inside(m, m[p].lastChild))
    requires (forall b :: b in block ==> b in m)
    ensures var s, j := m[p].kids, Place(m[p].kids, ref);
            LinkedAt(Spliced(m, p, block, ref), p, s[..j] + block + s[j..], j + i)
  {
    hide Ready, Spliced, Coherent, Distinct, Inside, Place;
    var r, s := Spliced(m, p, block, ref), m[p].kids;
    var j := Place(s, ref);
    var t := s[..j] + block + s[j..];
    assert t[j + i] == block[i];
    InnerLinks(m, p, block, ref, source, i);
    Gap(m, p, block, ref, source);
    RefOutside(m, p, block, ref, source);
    SplicedFields(m, p, block, ref, source, block[i]);
    assert block[i] in block;
    DistinctAt(block, i, 0);
    DistinctAt(block, i, |block| - 1);
  }

  lemma InnerLinks(m: Forest, p: Node, block: seq<Node>, ref: Node?, source: Node?, i: nat)
    requires Ready(m, p, block, ref, source) && i < |block|
    ensures Distinct(block) && block[i] in m
    ensures i > 0 ==> m[block[i]].previousSibling == block[i - 1]
    ensures i < |block| - 1 ==> m[block[i]].nextSibling == block[i + 1]
  {
    hide Coherent, Distinct;
    assert InnerChained(m, block);
    assert i > 0 ==> m[block[i]].previousSibling == block[i - 1];
    assert i < |block| - 1 ==> m[block[i]].nextSibling == block[i + 1];
  }

  /**
   Splicing keeps every node but `source` coherent and puts the block, in order, in
   front of the reference child, or at the end when there is none.
   */
  lemma SplicedWorld(m: Forest, p: Node, block: seq<Node>, ref: Node?, source: Node?)
    requires Ready(m, p, block, ref, source)
    ensures p in m && block != [] && (if ref != null then ref in m && Inside(m, m[ref].previousSibling) else Inside(m, m[p].lastChild))
    ensures (forall b :: b in block ==> b in m)
    ensures var r := Spliced(m, p, block, ref);
            && r.Keys == m.Keys
            && (forall n :: n in r && n != source ==> Coherent(r, n))
            && r[p].kids == Inserted(m[p].kids, block, ref)
            && (forall n :: n in m && n != p ==> SameList(r[n], m[n]))
  {
    hide Spliced, Coherent, Inserted, Ready, Inside, SameList;
    ReadyParent(m, p, block, ref, source);
    SplicedFields(m, p, block, ref, source, p);
    var r := Spliced(m, p, block, ref);
    forall n | n in r && n != source
      ensures Coherent(r, n)
    {
      SplicedFields(m, p, block, ref, source, n);
      if n == p {
        SplicedParent(m, p, block, ref, source);
      } else {
        SplicedOther(m, p, block, ref, source, n);
      }
    }
    forall n | n in m && n != p
      ensures SameList(r[n], m[n])
    {
      SplicedFields(m, p, block, ref, source, n);
    }
  }

  lemma ReadyParent(m: Forest, p: Node, block: seq<Node>, ref: Node?, source: Node?)
    requires Ready(m, p, block, ref, source)
    ensures p in m && block != [] && p != source
  {
  }
}
