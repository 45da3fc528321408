/** `normalize` as the source performs it, by removing text nodes and growing the one before them. */
module DomNormalize {
  import opened Dom
  import opened DomSteps
  import opened DomEdit
  import opened DomTrees

  // --------------------------------------------------------- what the links show

  /** The links below a node are this tree; text nodes have no children. */
  predicate Shows(m: Forest, t: Tree) {
    && t.node in m && (t.text <==> m[t.node].nodeType == 3) && t.data == m[t.node].data
    && (t.text ==> t.kids == [])
    && |m[t.node].kids| == |t.kids|
    && forall i :: 0 <= i < |t.kids| ==> m[t.node].kids[i] == t.kids[i].node && Shows(m, t.kids[i])
  }

  function Nodes(t: Tree): set<Node> {
    {t.node} + AllNodes(t.kids)
  }

  function AllNodes(ks: seq<Tree>): set<Node> {
    if ks == [] then {} else Nodes(ks[0]) + AllNodes(ks[1..])
  }

  /** No node occurs twice. */
  predicate Proper(t: Tree) {
    t.node !in AllNodes(t.kids) && AllProper(t.kids)
  }

  predicate AllProper(ks: seq<Tree>) {
    ks != [] ==> Proper(ks[0]) && Nodes(ks[0]) !! AllNodes(ks[1..]) && AllProper(ks[1..])
  }

  /** The nodes of `N` have the children and the data they had. */
  predicate SameBelow(m: Forest, r: Forest, N: set<Node>) {
    forall n :: n in N && n in m ==> n in r && r[n].kids == m[n].kids && r[n].data == m[n].data && r[n].nodeType == m[n].nodeType
  }

  lemma NodesKid(ks: seq<Tree>, i: nat)
    requires i < |ks|
    ensures Nodes(ks[i]) <= AllNodes(ks)
  {
    if i > 0 {
      NodesKid(ks[1..], i - 1);
    }
  }

  lemma {:induction false} ShowsSame(m: Forest, r: Forest, t: Tree)
    requires Shows(m, t) && SameBelow(m, r, Nodes(t))
    ensures Shows(r, t)
  {
    hide Nodes;
    NodesIs(t);
    forall i | 0 <= i < |t.kids|
      ensures m[t.node].kids[i] == t.kids[i].node && Shows(r, t.kids[i])
    {
      NodesKid(t.kids, i);
      ShowsSame(m, r, t.kids[i]);
    }
  }

  lemma NodesIs(t: Tree)
    ensures Nodes(t) == {t.node} + AllNodes(t.kids) && t.node in Nodes(t)
  {
  }

  /** Normalizing adds no nodes. */
  lemma {:induction false} NormalNodes(ks: seq<Tree>)
    ensures AllNodes(NormalKids(ks)) <= AllNodes(ks)
    decreases Counts(ks)
  {
    if ks == [] {
    } else if MergeNext(ks) {
      CountsMerged(ks);
      var t := [Merged(ks[0], ks[1])] + ks[2..];
      assert t[1..] == ks[2..] && ks[1..][1..] == ks[2..];
      NormalNodes(t);
    } else {
      CountsSplit(ks);
      NormalNodes(ks[0].kids);
      NormalNodes(ks[1..]);
      var r := NormalKids(ks);
      assert r[1..] == NormalKids(ks[1..]) && r[0] == Normal(ks[0]);
    }
  }

  // ------------------------------------------------------------------- single steps

  function Heads(ks: seq<Tree>): (r: seq<Node>)
    ensures |r| == |ks| && forall i :: 0 <= i < |ks| ==> r[i] == ks[i].node
  {
    seq(|ks|, i requires 0 <= i < |ks| => ks[i].node)
  }

  lemma KidsAreHeads(m: Forest, t: Tree)
    requires Shows(m, t)
    ensures t.node in m && m[t.node].kids == Heads(t.kids)
    ensures forall i :: 0 <= i < |t.kids| ==> Shows(m, t.kids[i]) && t.kids[i].node in m
    ensures t.text ==> t.kids == []
  {
  }

  /** Where the walk is: `done` children are normal, `rest` are still to be looked at. */
  predicate Walk(m: Forest, t: Tree, done: seq<Tree>, rest: seq<Tree>) {
    && Shows(m, t.(kids := done + rest)) && Proper(t.(kids := done + rest))
    && AllNodes(done + rest) <= AllNodes(t.kids) && Counts(rest) <= Counts(t.kids)
    && done + NormalKids(rest) == NormalKids(t.kids)
  }

  lemma WalkStart(m: Forest, t: Tree)
    requires World(m) && Shows(m, t) && Proper(t)
    ensures Walk(m, t, [], t.kids)
    ensures t.node in m && m[t.node].firstChild == if t.kids == [] then null else t.kids[0].node
  {
    hide World, Shows, Proper, NormalKids, AllNodes, Coherent, Counts;
    assert [] + t.kids == t.kids && t.(kids := t.kids) == t;
    assert [] + NormalKids(t.kids) == NormalKids(t.kids);
    KidsAreHeads(m, t);
    CoherentAt(m, t.node);
    CoherentMeans(m, t.node);
  }

  lemma WalkDone(m: Forest, t: Tree, done: seq<Tree>)
    requires Walk(m, t, done, [])
    ensures Shows(m, Normal(t))
  {
    hide Shows, Proper;
    assert done + [] == done;
  }

  /** The current child and the one after it. */
  lemma WalkNext(m: Forest, t: Tree, done: seq<Tree>, rest: seq<Tree>)
    requires World(m) && Walk(m, t, done, rest) && rest != []
    ensures rest[0].node in m && m[rest[0].node].nextSibling == if |rest| > 1 then rest[1].node else null
    ensures Shows(m, rest[0]) && Proper(rest[0]) && Count(rest[0]) < Count(t)
    ensures t.node in m && rest[0].node in m[t.node].kids
    ensures |rest| > 1 ==> rest[1].node in m && rest[1].node in m[t.node].kids && Shows(m, rest[1])
    ensures MergeNext(rest) <==> |rest| > 1 && m[rest[0].node].nodeType == TEXT_NODE && m[rest[1].node].nodeType == TEXT_NODE
  {
    hide World, NormalKids, Nodes;
    var ks, k := done + rest, |done|;
    KidsAreHeads(m, t.(kids := ks));
    assert ks[k] == rest[0] && (|rest| > 1 ==> ks[k + 1] == rest[1]);
    LinkedIn(m, t.node, k);
    ProperAt(ks, k);
    assert |rest| > 1 ==> Shows(m, ks[k + 1]);
  }

  lemma {:induction false} ProperAt(ks: seq<Tree>, i: nat)
    requires AllProper(ks) && i < |ks|
    ensures Proper(ks[i])
  {
    if i == 0 {
    } else {
      ProperAt(ks[1..], i - 1);
    }
  }

  // ------------------------------------------------------- trees with no node twice

  lemma {:induction false} ReplacedProper(ks: seq<Tree>, k: nat, x: Tree)
    requires AllProper(ks) && k < |ks| && Proper(x) && Nodes(x) <= Nodes(ks[k])
    ensures var r := ks[..k] + [x] + ks[k + 1..];
            AllProper(r) && AllNodes(r) <= AllNodes(ks)
  {
    hide Nodes, Proper;
    var r := ks[..k] + [x] + ks[k + 1..];
    if k == 0 {
      assert r[1..] == ks[1..];
    } else {
      ReplacedProper(ks[1..], k - 1, x);
      assert r[1..] == ks[1..][..k - 1] + [x] + ks[1..][k..];
      assert r[0] == ks[0];
    }
  }

  lemma {:induction false} DroppedProper(ks: seq<Tree>, k: nat)
    requires AllProper(ks) && k < |ks|
    ensures var r := ks[..k] + ks[k + 1..];
            AllProper(r) && AllNodes(r) <= AllNodes(ks)
  {
    hide Nodes, Proper;
    var r := ks[..k] + ks[k + 1..];
    if k == 0 {
      assert r == ks[1..];
    } else {
      DroppedProper(ks[1..], k - 1);
      assert r[1..] == ks[1..][..k - 1] + ks[1..][k..];
      assert r[0] == ks[0];
    }
  }

  lemma {:induction false} OthersApart(ks: seq<Tree>, k: nat, i: nat)
    requires AllProper(ks) && k < |ks| && i < |ks| && i != k
    ensures Nodes(ks[i]) !! Nodes(ks[k])
  {
    hide Nodes, Proper;
    if k == 0 {
      NodesKid(ks[1..], i - 1);
    } else if i == 0 {
      NodesKid(ks[1..], k - 1);
    } else {
      OthersApart(ks[1..], k - 1, i - 1);
    }
  }

  lemma {:induction false} NormalProper(ks: seq<Tree>)
    requires AllProper(ks)
    ensures AllProper(NormalKids(ks))
    decreases Counts(ks)
  {
    if ks == [] {
    } else if MergeNext(ks) {
      CountsMerged(ks);
      MergedProper(ks, 0);
      assert ks[..0] + [Merged(ks[0], ks[1])] + ks[2..] == [Merged(ks[0], ks[1])] + ks[2..];
      NormalProper([Merged(ks[0], ks[1])] + ks[2..]);
    } else {
      CountsSplit(ks);
      NormalProper(ks[0].kids);
      NormalProper(ks[1..]);
      NormalNodes(ks[0].kids);
      NormalNodes(ks[1..]);
      var r := NormalKids(ks);
      assert r[1..] == NormalKids(ks[1..]) && r[0] == Normal(ks[0]);
      assert Nodes(r[0]) <= Nodes(ks[0]);
      assert Proper(r[0]);
    }
  }

  lemma MergedProper(ks: seq<Tree>, k: nat)
    requires AllProper(ks) && k + 1 < |ks|
    ensures var r := ks[..k] + [Merged(ks[k], ks[k + 1])] + ks[k + 2..];
            AllProper(r) && AllNodes(r) <= AllNodes(ks)
  {
    hide AllProper, AllNodes;
    DroppedProper(ks, k + 1);
    var d := ks[..k + 1] + ks[k + 1 + 1..];
    assert d[k] == ks[k];
    ProperAt(d, k);
    MergedSame(ks[k], ks[k + 1]);
    ReplacedProper(d, k, Merged(ks[k], ks[k + 1]));
    assert d[..k] == ks[..k] && d[k + 1..] == ks[k + 2..];
  }

  lemma MergedSame(t: Tree, next: Tree)
    ensures Nodes(Merged(t, next)) == Nodes(t) && (Proper(Merged(t, next)) <==> Proper(t))
  {
  }

  /** The child at hand is normalized. */
  lemma WalkInto(m: Forest, r: Forest, t: Tree, done: seq<Tree>, rest: seq<Tree>)
    requires Walk(m, t, done, rest) && rest != [] && !MergeNext(rest)
    requires m.Keys == r.Keys && Shows(r, Normal(rest[0])) && SameBelow(m, r, m.Keys - Nodes(rest[0]))
    ensures Walk(r, t, done + [Normal(rest[0])], rest[1..])
  {
    hide Nodes, AllNodes, Shows, SameBelow, Proper, NormalKids, Normal, Counts, MergeNext;
    var ks, k, x := done + rest, |done|, Normal(rest[0]);
    var next := done + [x] + rest[1..];
    assert ks[..k] == done && ks[k + 1..] == rest[1..] && ks[k] == rest[0];
    NormalStep(done, rest);
    IntoProper(t.(kids := ks), k);
    IntoShows(m, r, t.(kids := ks), k, x);
    assert t.(kids := ks).(kids := next) == t.(kids := next);
  }

  lemma NormalStep(done: seq<Tree>, rest: seq<Tree>)
    requires rest != [] && !MergeNext(rest)
    ensures done + NormalKids(rest) == done + [Normal(rest[0])] + NormalKids(rest[1..]) && Counts(rest[1..]) <= Counts(rest)
    ensures Normal(rest[0]).node == rest[0].node
  {
    hide Normal, Count;
    NormalNode(rest[0]);
    Reassociate(done, Normal(rest[0]), NormalKids(rest[1..]));
    assert NormalKids(rest) == [Normal(rest[0])] + NormalKids(rest[1..]);
  }

  lemma NormalNode(t: Tree)
    ensures Normal(t).node == t.node
  {
  }

  lemma Reassociate(a: seq<Tree>, x: Tree, b: seq<Tree>)
    ensures a + ([x] + b) == a + [x] + b
  {
  }

  lemma IntoProper(t: Tree, k: nat)
    requires Proper(t) && k < |t.kids|
    ensures var next := t.kids[..k] + [Normal(t.kids[k])] + t.kids[k + 1..];
            Proper(t.(kids := next)) && AllNodes(next) <= AllNodes(t.kids)
  {
    hide Nodes, AllNodes, AllProper;
    ProperAt(t.kids, k);
    NormalProper(t.kids[k].kids);
    NormalNodes(t.kids[k].kids);
    NodesIs(t.kids[k]);
    NodesIs(Normal(t.kids[k]));
    ReplacedProper(t.kids, k, Normal(t.kids[k]));
  }

  lemma IntoShows(m: Forest, r: Forest, t: Tree, k: nat, x: Tree)
    requires Shows(m, t) && Proper(t) && k < |t.kids| && x.node == t.kids[k].node
    requires m.Keys == r.Keys && Shows(r, x) && SameBelow(m, r, m.Keys - Nodes(t.kids[k]))
    ensures Shows(r, t.(kids := t.kids[..k] + [x] + t.kids[k + 1..]))
  {
    hide Nodes, AllNodes, AllProper;
    var ks := t.kids;
    var q := ks[..k] + [x] + ks[k + 1..];
    NodesKid(ks, k);
    forall i | 0 <= i < |q|
      ensures m[t.node].kids[i] == q[i].node && Shows(r, q[i])
    {
      if i != k {
        OthersApart(ks, k, i);
        ShowsSame(m, r, ks[i]);
        assert q[i] == ks[i];
      }
    }
  }

  /** The text after the child at hand is gone, and the child has taken its data. */
  lemma WalkMerge(m: Forest, r: Forest, t: Tree, done: seq<Tree>, rest: seq<Tree>)
    requires World(m) && Walk(m, t, done, rest) && MergeNext(rest)
    requires m.Keys == r.Keys && t.node in m && rest[0].node in m
    requires r[t.node].kids == Without(m[t.node].kids, rest[1].node)
    requires r[t.node].data == m[t.node].data && r[t.node].nodeType == m[t.node].nodeType
    requires r[rest[0].node].data == m[rest[0].node].data + rest[1].data && r[rest[0].node].kids == m[rest[0].node].kids
    requires r[rest[0].node].nodeType == m[rest[0].node].nodeType
    requires SameBelow(m, r, m.Keys - {t.node, rest[0].node})
    ensures Walk(r, t, done, [Merged(rest[0], rest[1])] + rest[2..])
  {
    hide World, Nodes, AllNodes, Shows, SameBelow, Without;
    var ks, k := done + rest, |done|;
    var next := done + ([Merged(rest[0], rest[1])] + rest[2..]);
    assert ks[..k] == done && ks[k] == rest[0] && ks[k + 1] == rest[1] && ks[k + 2..] == rest[2..];
    assert next == ks[..k] + [Merged(ks[k], ks[k + 1])] + ks[k + 2..];
    MergedProper(ks, k);
    CountsMerged(rest);
    MergeShows(m, r, t.(kids := ks), k);
  }

  lemma MergeShows(m: Forest, r: Forest, t: Tree, k: nat)
    requires World(m) && Shows(m, t) && Proper(t) && k + 1 < |t.kids| && t.kids[k].text && t.kids[k + 1].text
    requires var child, next := t.kids[k], t.kids[k + 1];
             && m.Keys == r.Keys && t.node in m && child.node in m
             && r[t.node].kids == Without(m[t.node].kids, next.node)
             && r[t.node].data == m[t.node].data && r[t.node].nodeType == m[t.node].nodeType
             && r[child.node].data == m[child.node].data + next.data && r[child.node].kids == m[child.node].kids
             && r[child.node].nodeType == m[child.node].nodeType
             && SameBelow(m, r, m.Keys - {t.node, child.node})
    ensures Shows(r, t.(kids := t.kids[..k] + [Merged(t.kids[k], t.kids[k + 1])] + t.kids[k + 2..]))
  {
    hide World, Nodes, AllNodes, AllProper, Without, Merged, Shows, SameBelow;
    var ks := t.kids;
    var x := Merged(ks[k], ks[k + 1]);
    var q := ks[..k] + [x] + ks[k + 2..];
    KidsAreHeads(m, t);
    CoherentAt(m, t.node);
    MergedHeads(ks, m[t.node].kids, k, m, t.node);
    forall i | 0 <= i < |q|
      ensures Shows(r, q[i])
    {
      MergeShowsKid(m, r, t, k, i);
    }
    ShowsIntro(m, r, t, q);
  }

  lemma MergedHeads(ks: seq<Tree>, s: seq<Node>, k: nat, m: Forest, n: Node)
    requires n in m && Coherent(m, n) && s == m[n].kids && s == Heads(ks) && k + 1 < |ks|
    ensures Without(s, ks[k + 1].node) == Heads(ks[..k] + [Merged(ks[k], ks[k + 1])] + ks[k + 2..])
  {
    hide Coherent, Without;
    CoherentMeans(m, n);
    WithoutAt(s, k + 1);
    var q := ks[..k] + [Merged(ks[k], ks[k + 1])] + ks[k + 2..];
    assert s[..k + 1] + s[k + 2..] == Heads(q);
  }

  lemma ShowsIntro(m: Forest, r: Forest, t: Tree, q: seq<Tree>)
    requires Shows(m, t) && !t.text && t.node in r && r[t.node].kids == Heads(q) && forall i :: 0 <= i < |q| ==> Shows(r, q[i])
    requires r[t.node].data == m[t.node].data && r[t.node].nodeType == m[t.node].nodeType
    ensures Shows(r, t.(kids := q))
  {
  }

  lemma MergeShowsKid(m: Forest, r: Forest, t: Tree, k: nat, i: nat)
    requires Shows(m, t) && Proper(t) && k + 1 < |t.kids| && t.kids[k].text && i < |t.kids| - 1
    requires var child, next := t.kids[k], t.kids[k + 1];
             && m.Keys == r.Keys && t.node in m && child.node in m
             && r[child.node].data == m[child.node].data + next.data && r[child.node].kids == m[child.node].kids
             && r[child.node].nodeType == m[child.node].nodeType
             && SameBelow(m, r, m.Keys - {t.node, child.node})
    ensures Shows(r, (t.kids[..k] + [Merged(t.kids[k], t.kids[k + 1])] + t.kids[k + 2..])[i])
  {
    hide Nodes, AllNodes, AllProper, Merged, Shows;
    var ks := t.kids;
    KidsAreHeads(m, t);
    if i == k {
      MergedShown(m, r, ks[k], ks[k + 1]);
    } else {
      var j := if i < k then i else i + 1;
      OthersApart(ks, k, j);
      NodesKid(ks, j);
      NodesIs(ks[k]);
      ShowsSame(m, r, ks[j]);
    }
  }

  lemma MergedShown(m: Forest, r: Forest, child: Tree, next: Tree)
    requires Shows(m, child) && child.text && child.node in r
    requires r[child.node].data == m[child.node].data + next.data && r[child.node].kids == m[child.node].kids
    requires r[child.node].nodeType == m[child.node].nodeType
    ensures Shows(r, Merged(child, next))
  {
  }

  // --------------------------------------------------------------------- in place

  /** `appendData` */
  method AppendData(ghost S: set<Node>, n: Node, text: string)
    requires n in S
    modifies S
    ensures Snapshot(S) == old(Snapshot(S))[n := old(Look(n)).(data := old(n.data) + text)]
  {
    n.data := n.data + text;
  }

  lemma DataWorld(m: Forest, n: Node, data: string)
    requires World(m) && n in m
    ensures World(m[n := m[n].(data := data)])
  {
    hide World;
    var r := m[n := m[n].(data := data)];
    forall q | q in r
      ensures Coherent(r, q)
    {
      CoherentAt(m, q);
      SameLinks(m, r, q);
    }
    WorldIntro(r);
  }

  lemma SameLinks(m: Forest, r: Forest, q: Node)
    requires q in m && Coherent(m, q) && m.Keys == r.Keys
    requires forall x :: x in m ==> r[x] == m[x].(data := r[x].data)
    ensures Coherent(r, q)
  {
    hide Distinct, Coherent, Describes, Chained;
    CoherentMeans(m, q);
    forall i | 0 <= i < |m[q].kids|
      ensures LinkedAt(r, q, m[q].kids, i)
    {
      CoherentLinked(m, q, i);
    }
    DescribesIntro(r, q, m[q].kids);
    CoherentKept(m, r, q);
  }

  lemma RemovedBelow(m: Forest, p: Node, child: Node)
    requires World(m) && p in m && child in m[p].kids
    ensures child in m && Inside(m, m[child].previousSibling) && Inside(m, m[child].nextSibling)
    ensures var r := Removed(m, p, child);
            && SameBelow(m, r, m.Keys - {p}) && r.Keys == m.Keys && r[p].kids == Without(m[p].kids, child)
            && (forall n :: n in m ==> r[n].data == m[n].data && r[n].nodeType == m[n].nodeType)
  {
    hide World, Removed, Without;
    var k := Neighbours(m, p, child);
    RemovedFields(m, p, child, p);
    forall n | n in m
      ensures var r := Removed(m, p, child);
              n in r && (n != p ==> SameList(r[n], m[n])) && r[n].nodeType == m[n].nodeType && r[n].data == m[n].data
    {
      RemovedFields(m, p, child, n);
      RemovedData(m, p, child, n);
    }
  }

  lemma RemovedData(m: Forest, p: Node, child: Node, n: Node)
    requires p in m && child in m && Inside(m, m[child].previousSibling) && Inside(m, m[child].nextSibling) && n in m
    ensures n in Removed(m, p, child) && Removed(m, p, child)[n].data == m[n].data
  {
    hide Without;
  }

  /** The text after `child` is removed, and `child` takes its data. */
  method MergeText(ghost S: set<Node>, node: Node, child: Node, next: Node)
    requires World(Snapshot(S)) && node in S && child in S && next in node.kids && next != child && child != node
    modifies S, set n | n in S :: n.owner
    ensures World(Snapshot(S)) && Snapshot(S).Keys == S
    ensures next in old(Snapshot(S))
    ensures var m, r := old(Snapshot(S)), Snapshot(S);
            && node in r && child in r && r.Keys == m.Keys
            && r[node].kids == Without(m[node].kids, next)
            && r[node].data == m[node].data && r[node].nodeType == m[node].nodeType
            && r[child].data == m[child].data + m[next].data && r[child].kids == m[child].kids
            && r[child].nodeType == m[child].nodeType
            && SameBelow(m, r, m.Keys - {node, child})
  {
    hide World, Snapshot, Removed, Without, Inside, Fits;
    ghost var m := Snapshot(S);
    SnapshotKeys(S);
    SnapshotAt(S, node);
    RemovedBelow(m, node, next);
    SnapshotAt(S, next);
    RemoveChild(S, node, next);
    ghost var r := Snapshot(S);
    SnapshotKeys(S);
    SnapshotAt(S, child);
    SnapshotAt(S, next);
    DataWorld(r, child, child.data + next.data);
    AppendData(S, child, next.data);
  }

  /** `normalize` */
  method Normalize(ghost S: set<Node>, node: Node, ghost t: Tree)
    requires World(Snapshot(S)) && t.node == node && Shows(Snapshot(S), t) && Proper(t)
    modifies S, set n | n in S :: n.owner
    ensures World(Snapshot(S)) && Snapshot(S).Keys == S
    ensures Shows(Snapshot(S), Normal(t))
    ensures SameBelow(old(Snapshot(S)), Snapshot(S), S - Nodes(t))
    decreases Count(t)
  {
    hide World, Snapshot, Shows, Proper, Walk, Normal, Nodes, Without, SameBelow, Count, MergeNext;
    ghost var m0 := Snapshot(S);
    SnapshotKeys(S);
    WalkStart(m0, t);
    SnapshotAt(S, node);
    var child := node.firstChild;
    ghost var done: seq<Tree>, rest := [], t.kids;
    SameBelowSelf(m0, S - Nodes(t));
    while child != null
      invariant World(Snapshot(S)) && Snapshot(S).Keys == S && Walk(Snapshot(S), t, done, rest)
      invariant child == if rest == [] then null else rest[0].node
      invariant SameBelow(m0, Snapshot(S), S - Nodes(t))
      decreases |rest|
    {
      ghost var m := Snapshot(S);
      WalkNext(m, t, done, rest);
      SnapshotAt(S, child);
      var next := child.nextSibling;
      if next != null {
        SnapshotAt(S, next);
      }
      if next != null && next.nodeType == TEXT_NODE && child.nodeType == TEXT_NODE {
        SnapshotAt(S, node);
        WalkApart(m, t, done, rest);
        MergeText(S, node, child, next);
        WalkMerge(m, Snapshot(S), t, done, rest);
        SameBelowOutside(m0, m, Snapshot(S), t, {node, child}, S);
        rest := [Merged(rest[0], rest[1])] + rest[2..];
      } else {
        WalkInside(m, t, done, rest);
        Normalize(S, child, rest[0]);
        WalkInto(m, Snapshot(S), t, done, rest);
        SameBelowOutside(m0, m, Snapshot(S), t, Nodes(rest[0]), S);
        done, rest := done + [Normal(rest[0])], rest[1..];
        child := next;
      }
    }
    WalkDone(Snapshot(S), t, done);
  }

  lemma SameBelowSelf(m: Forest, N: set<Node>)
    ensures SameBelow(m, m, N)
  {
  }

  /** Changes inside the tree are no changes outside it. */
  lemma SameBelowOutside(m0: Forest, m: Forest, r: Forest, t: Tree, changed: set<Node>, S: set<Node>)
    requires m0.Keys == S && m.Keys == S && r.Keys == S && changed <= Nodes(t)
    requires SameBelow(m0, m, S - Nodes(t)) && SameBelow(m, r, S - changed)
    ensures SameBelow(m0, r, S - Nodes(t))
  {
    hide Nodes;
  }

  /** The nodes of the walk are nodes of the tree. */
  lemma WalkInside(m: Forest, t: Tree, done: seq<Tree>, rest: seq<Tree>)
    requires Walk(m, t, done, rest) && rest != []
    ensures Nodes(rest[0]) <= Nodes(t)
  {
    hide Nodes, Shows, Proper, NormalKids, AllNodes;
    var ks := done + rest;
    NodesKid(ks, |done|);
    NodesIs(t);
  }

  lemma WalkApart(m: Forest, t: Tree, done: seq<Tree>, rest: seq<Tree>)
    requires Walk(m, t, done, rest) && |rest| > 1
    ensures rest[0].node != t.node && rest[1].node != rest[0].node
    ensures {t.node, rest[0].node} <= Nodes(t)
    ensures Shows(m, rest[1]) && rest[1].data == m[rest[1].node].data
  {
    hide Nodes, NormalKids, AllNodes, AllProper;
    var ks, k := done + rest, |done|;
    WalkInside(m, t, done, rest);
    NodesKid(ks, k);
    NodesIs(t);
    NodesIs(rest[0]);
    NodesIs(rest[1]);
    OthersApart(ks, k, k + 1);
    assert Shows(m, ks[k + 1]);
  }
}
