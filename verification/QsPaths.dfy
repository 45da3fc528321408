/** The leaves of a tree with the paths to them, and how a path is written and read back as a name. */
module QsPaths {
  import opened CodeUnits
  import opened Options
  import opened Percent
  import opened Qs

  datatype Key = Named(name: Str) | Index(i: nat)

  datatype PathLeaf = PathLeaf(path: seq<Key>, text: Str)

  function KeyText(k: Key): Str {
    match k
    case Named(name) => name
    case Index(i) => Digits(i)
  }

  /** The keys after the first one, each in brackets. */
  function Tail(path: seq<Key>): Str {
    if path == [] then [] else Bracketed(KeyText(path[0])) + Tail(path[1..])
  }

  function PathName(path: seq<Key>): Str
    requires path != []
  {
    KeyText(path[0]) + Tail(path[1..])
  }

  function Under(k: Key, ls: seq<PathLeaf>): (r: seq<PathLeaf>)
    ensures |r| == |ls| && forall i :: 0 <= i < |ls| ==> r[i] == PathLeaf([k] + ls[i].path, ls[i].text)
  {
    if ls == [] then [] else [PathLeaf([k] + ls[0].path, ls[0].text)] + Under(k, ls[1..])
  }

  /** The leaves of a tree from left to right. */
  function Leaves(t: Tree): seq<PathLeaf>
    decreases t, 1, 0
  {
    match t
    case Leaf(s) => [PathLeaf([], s)]
    case Object(_) => LeavesFrom(t, 0)
    case List(_) => LeavesFrom(t, 0)
  }

  function Arity(t: Tree): nat {
    match t
    case Leaf(_) => 0
    case Object(fields) => |fields|
    case List(items) => |items|
  }

  function KidKey(t: Tree, i: nat): Key
    requires i < Arity(t)
  {
    if t.Object? then Named(t.fields[i].key) else Index(i)
  }

  function Kid(t: Tree, i: nat): (k: Tree)
    requires i < Arity(t)
    ensures k < t
  {
    if t.Object? then t.fields[i].tree else t.items[i]
  }

  function LeavesFrom(t: Tree, i: nat): seq<PathLeaf>
    requires i <= Arity(t)
    decreases t, 0, Arity(t) - i
  {
    if i == Arity(t) then [] else Under(KidKey(t, i), Leaves(Kid(t, i))) + LeavesFrom(t, i + 1)
  }

  // ------------------------------------------------------------- the parts written

  function PartsOf(prefix: Str, ls: seq<PathLeaf>): seq<Str> {
    if ls == [] then [] else [Part(prefix + Tail(ls[0].path), ls[0].text)] + PartsOf(prefix, ls[1..])
  }

  lemma {:induction false} PartsOfJoin(prefix: Str, a: seq<PathLeaf>, b: seq<PathLeaf>)
    ensures PartsOf(prefix, a + b) == PartsOf(prefix, a) + PartsOf(prefix, b)
  {
    if a == [] {
      assert a + b == b;
    } else {
      assert (a + b)[1..] == a[1..] + b;
      PartsOfJoin(prefix, a[1..], b);
    }
  }

  lemma {:induction false} PartsOfUnder(prefix: Str, k: Key, ls: seq<PathLeaf>)
    ensures PartsOf(prefix, Under(k, ls)) == PartsOf(prefix + Bracketed(KeyText(k)), ls)
  {
    if ls == [] {
    } else {
      var l := Under(k, ls)[0];
      assert l.path[1..] == ls[0].path && l.path[0] == k;
      assert prefix + (Bracketed(KeyText(k)) + Tail(ls[0].path)) == prefix + Bracketed(KeyText(k)) + Tail(ls[0].path);
      assert Under(k, ls)[1..] == Under(k, ls[1..]);
      PartsOfUnder(prefix, k, ls[1..]);
    }
  }

  /** `stringify` writes one part for each leaf. */
  lemma {:induction false} PartsAre(prefix: Str, t: Tree)
    ensures Parts(prefix, t) == PartsOf(prefix, Leaves(t))
    decreases t, 1, 0
  {
    match t
    case Leaf(s) =>
      assert prefix + Tail([]) == prefix;
    case Object(_) => PartsFrom(prefix, t, 0);
    case List(_) => PartsFrom(prefix, t, 0);
  }

  lemma {:induction false} PartsFrom(prefix: Str, t: Tree, i: nat)
    requires i <= Arity(t) && !t.Leaf?
    ensures (if t.Object? then PartsOfObject(prefix, t, i) else PartsOfList(prefix, t, i)) == PartsOf(prefix, LeavesFrom(t, i))
    decreases t, 0, Arity(t) - i
  {
    if i == Arity(t) {
    } else {
      var k := KidKey(t, i);
      PartsAre(prefix + Bracketed(KeyText(k)), Kid(t, i));
      PartsFrom(prefix, t, i + 1);
      PartsOfUnder(prefix, k, Leaves(Kid(t, i)));
      PartsOfJoin(prefix, Under(k, Leaves(Kid(t, i))), LeavesFrom(t, i + 1));
    }
  }

  predicate Rooted(ls: seq<PathLeaf>) {
    forall i :: 0 <= i < |ls| ==> ls[i].path != []
  }

  /** The part of a leaf whose path begins at the root. */
  function NamedParts(ls: seq<PathLeaf>): (r: seq<Str>)
    requires Rooted(ls)
    ensures |r| == |ls| && forall i :: 0 <= i < |ls| ==> r[i] == Part(PathName(ls[i].path), ls[i].text)
  {
    if ls == [] then [] else [Part(PathName(ls[0].path), ls[0].text)] + NamedParts(ls[1..])
  }

  lemma {:induction false} NamedPartsUnder(k: Key, ls: seq<PathLeaf>)
    ensures Rooted(Under(k, ls)) && NamedParts(Under(k, ls)) == PartsOf(KeyText(k), ls)
  {
    if ls == [] {
    } else {
      NamedPartsUnder(k, ls[1..]);
      assert Under(k, ls)[1..] == Under(k, ls[1..]);
      assert Under(k, ls)[0].path[1..] == ls[0].path;
    }
  }

  lemma RootedJoin(a: seq<PathLeaf>, b: seq<PathLeaf>)
    requires Rooted(a) && Rooted(b)
    ensures Rooted(a + b)
  {
  }

  lemma {:induction false} NamedPartsJoin(a: seq<PathLeaf>, b: seq<PathLeaf>)
    requires Rooted(a) && Rooted(b)
    ensures Rooted(a + b) && NamedParts(a + b) == NamedParts(a) + NamedParts(b)
  {
    hide Part, PathName, NamedParts, Rooted;
    RootedJoin(a, b);
    var all, joined := NamedParts(a + b), NamedParts(a) + NamedParts(b);
    forall i | 0 <= i < |a| + |b|
      ensures all[i] == joined[i]
    {
      if i < |a| {
        assert (a + b)[i] == a[i];
      } else {
        assert (a + b)[i] == b[i - |a|];
      }
    }
  }

  lemma {:induction false} AllPartsAre(t: Tree, i: nat)
    requires t.Object? && i <= |t.fields|
    ensures Rooted(LeavesFrom(t, i)) && AllParts(t.fields[i..]) == NamedParts(LeavesFrom(t, i))
    decreases |t.fields| - i
  {
    if i == |t.fields| {
    } else {
      var f := t.fields[i];
      assert t.fields[i..][1..] == t.fields[i + 1..];
      PartsAre(f.key, f.tree);
      NamedPartsUnder(Named(f.key), Leaves(f.tree));
      AllPartsAre(t, i + 1);
      NamedPartsJoin(Under(Named(f.key), Leaves(f.tree)), LeavesFrom(t, i + 1));
    }
  }

  // ----------------------------------------------------------------- good names

  predicate BracketFree(s: Str) {
    forall i :: 0 <= i < |s| ==> s[i] != OPEN && s[i] != CLOSE
  }

  /** A key that every position allows. */
  predicate GoodKey(k: Str) {
    k != [] && BracketFree(k) && WellFormed(k) && !IsPrototypeName(k)
  }

  /** A key below the root may not look like an array index either; an index is within the limit. */
  predicate GoodStep(k: Key) {
    match k
    case Named(name) => GoodKey(name) && ArrayIndex(name).None?
    case Index(i) => i <= ARRAY_LIMIT
  }

  predicate GoodPath(path: seq<Key>) {
    && path != [] && path[0].Named? && GoodKey(path[0].name) && |path| <= 1 + DEPTH
    && forall i :: 1 <= i < |path| ==> GoodStep(path[i])
  }

  lemma IndexText(i: nat)
    requires i <= ARRAY_LIMIT
    ensures ArrayIndex(Digits(i)) == Some(i) && Digits(i) != [] && BracketFree(Digits(i)) && !IsPrototypeName(Digits(i))
    ensures WellFormed(Digits(i))
  {
    if i >= 10 {
      assert Digits(i) == Digits(i / 10) + Digits(i % 10);
      assert Digits(i / 10) == [0x30 + i / 10];
      assert Digits(i)[1..] == [0x30 + i % 10] && Digits(i)[1..][1..] == [];
    }
    assert |Digits(i)| <= 2;
    ShortIsNoPrototypeName(Digits(i));
  }

  lemma ShortIsNoPrototypeName(k: Str)
    requires |k| <= 2
    ensures !IsPrototypeName(k)
  {
    forall i | 0 <= i < |PROTOTYPE_NAMES|
      ensures Ascii(PROTOTYPE_NAMES[i]) != k
    {
      AsciiLength(PROTOTYPE_NAMES[i]);
      assert |PROTOTYPE_NAMES[i]| > 2;
    }
  }

  lemma AsciiLength(s: string)
    ensures |Ascii(s)| == |s|
  {
  }

  lemma StepText(k: Key)
    requires GoodStep(k)
    ensures KeyText(k) != [] && BracketFree(KeyText(k)) && WellFormed(KeyText(k)) && !IsPrototypeName(KeyText(k))
    ensures ArrayIndex(KeyText(k)) == if k.Index? then Some(k.i) else None
  {
    if k.Index? {
      IndexText(k.i);
    }
  }

  lemma {:induction false} WellFormedJoin(a: Str, b: Str)
    requires WellFormed(a) && WellFormed(b)
    ensures WellFormed(a + b)
  {
    if a == [] {
      assert a + b == b;
    } else if IsHigh(a[0]) {
      assert (a + b)[2..] == a[2..] + b;
      WellFormedJoin(a[2..], b);
    } else {
      assert (a + b)[1..] == a[1..] + b;
      WellFormedJoin(a[1..], b);
    }
  }

  lemma {:induction false} TailWellFormed(path: seq<Key>)
    requires forall i :: 0 <= i < |path| ==> GoodStep(path[i])
    ensures WellFormed(Tail(path))
  {
    if path == [] {
    } else {
      StepText(path[0]);
      assert WellFormed([OPEN]) && WellFormed([CLOSE]);
      WellFormedJoin([OPEN], KeyText(path[0]));
      WellFormedJoin([OPEN] + KeyText(path[0]), [CLOSE]);
      TailWellFormed(path[1..]);
      WellFormedJoin(Bracketed(KeyText(path[0])), Tail(path[1..]));
    }
  }

  lemma NameWellFormed(path: seq<Key>)
    requires GoodPath(path)
    ensures WellFormed(PathName(path)) && PathName(path) != []
  {
    TailWellFormed(path[1..]);
    WellFormedJoin(path[0].name, Tail(path[1..]));
  }

  // ------------------------------------------------------------- reading the name

  lemma {:induction false} ClosingAfter(x: Str, t: Str)
    requires BracketFree(x)
    ensures Closing(x + [CLOSE] + t) == Some((x, t))
  {
    var s := x + [CLOSE] + t;
    if x == [] {
      assert s[1..] == t;
    } else {
      assert s[0] == x[0] && s[1..] == x[1..] + [CLOSE] + t;
      ClosingAfter(x[1..], t);
      assert [x[0]] + x[1..] == x;
    }
  }

  lemma NextGroupAt(x: Str, t: Str)
    requires BracketFree(x)
    ensures NextGroup(Bracketed(x) + t) == Some(Group([], x, t))
  {
    var s := Bracketed(x) + t;
    assert s[0] == OPEN && s[1..] == x + [CLOSE] + t;
    ClosingAfter(x, t);
  }

  lemma {:induction false} NextGroupAfter(a: Str, t: Str)
    requires BracketFree(a)
    ensures NextGroup(a + t) == match NextGroup(t) case None => None case Some(g) => Some(g.(before := a + g.before))
  {
    if a == [] {
      assert a + t == t;
      assert NextGroup(t).Some? ==> a + NextGroup(t).value.before == NextGroup(t).value.before;
    } else {
      assert (a + t)[0] == a[0] && (a + t)[1..] == a[1..] + t;
      NextGroupAfter(a[1..], t);
      assert NextGroup(t).Some? ==> [a[0]] + (a[1..] + NextGroup(t).value.before) == a + NextGroup(t).value.before;
    }
  }

  function Segs(path: seq<Key>): (r: seq<Str>)
    ensures |r| == |path| && forall i :: 0 <= i < |path| ==> r[i] == Bracketed(KeyText(path[i]))
  {
    if path == [] then [] else [Bracketed(KeyText(path[0]))] + Segs(path[1..])
  }

  lemma {:induction false} TailGroups(path: seq<Key>, depth: nat)
    requires |path| <= depth && forall i :: 0 <= i < |path| ==> GoodStep(path[i])
    ensures Groups(Tail(path), depth) == Some(Segs(path))
  {
    if path == [] {
    } else {
      StepText(path[0]);
      NextGroupAt(KeyText(path[0]), Tail(path[1..]));
      TailGroups(path[1..], depth - 1);
    }
  }

  /** The name of a path is read as the segments of the path. */
  lemma NameSegments(path: seq<Key>)
    requires GoodPath(path)
    ensures Segments(PathName(path)) == Some([path[0].name] + Segs(path[1..]))
  {
    var k, rest := path[0].name, path[1..];
    NextGroupAfter(k, Tail(rest));
    TailGroups(rest, DEPTH);
    if rest == [] {
      assert k + Tail(rest) == k;
    } else {
      StepText(rest[0]);
      NextGroupAt(KeyText(rest[0]), Tail(rest[1..]));
      assert k + [] == k;
    }
  }

  lemma {:induction false} SegsInjective(p: seq<Key>, q: seq<Key>)
    requires Segs(p) == Segs(q)
    requires (forall i :: 0 <= i < |p| ==> GoodStep(p[i])) && forall i :: 0 <= i < |q| ==> GoodStep(q[i])
    ensures p == q
  {
    assert |p| == |Segs(p)| == |q|;
    forall i | 0 <= i < |p|
      ensures p[i] == q[i]
    {
      assert Segs(p)[i] == Segs(q)[i];
      var a, b := KeyText(p[i]), KeyText(q[i]);
      assert a == Bracketed(a)[1..|a| + 1] && b == Bracketed(b)[1..|b| + 1];
      StepText(p[i]);
      StepText(q[i]);
    }
  }

  /** Different paths have different names. */
  lemma NameInjective(p: seq<Key>, q: seq<Key>)
    requires GoodPath(p) && GoodPath(q) && PathName(p) == PathName(q)
    ensures p == q
  {
    hide GoodStep, GoodKey, PathName, Segments, Segs;
    NameSegments(p);
    NameSegments(q);
    var a, b := [p[0].name] + Segs(p[1..]), [q[0].name] + Segs(q[1..]);
    assert a == b;
    assert a[0] == b[0] && a[1..] == Segs(p[1..]) && b[1..] == Segs(q[1..]);
    SegsInjective(p[1..], q[1..]);
    assert p == [p[0]] + p[1..] && q == [q[0]] + q[1..];
  }

  // ------------------------------------------------------------- the nested value

  /** The value with one leaf at the end of a path. */
  function Chain(path: seq<Key>, v: Value): Value {
    if path == [] then v
    else
      match path[0]
      case Named(name) => Obj([Entry(name, Chain(path[1..], v))])
      case Index(i) => Arr(Holes(i) + [Some(Chain(path[1..], v))])
  }

  lemma WrapStep(k: Key, v: Value)
    requires GoodStep(k)
    ensures Wrap(Bracketed(KeyText(k)), v) ==
            match k case Named(name) => Obj([Entry(name, v)]) case Index(i) => Arr(Holes(i) + [Some(v)])
  {
    StepText(k);
    var x := KeyText(k);
    assert Bracketed(x)[1..|x| + 1] == x;
    assert |Bracketed(x)| > 2;
  }

  lemma {:induction false} NestedSegs(path: seq<Key>, v: Value)
    requires forall i :: 0 <= i < |path| ==> GoodStep(path[i])
    ensures Nested(Segs(path), v) == Chain(path, v)
  {
    if path == [] {
    } else {
      assert Segs(path)[1..] == Segs(path[1..]);
      NestedSegs(path[1..], v);
      WrapStep(path[0], Chain(path[1..], v));
    }
  }

  /** A name is parsed to the value with its leaf at the end of the path. */
  lemma NameParsed(path: seq<Key>, v: Value)
    requires GoodPath(path)
    ensures ParseKey(PathName(path), v) == Some(Chain(path, v))
  {
    NameWellFormed(path);
    NameSegments(path);
    var k, rest := path[0].name, path[1..];
    NestedSegs(rest, v);
    assert ([k] + Segs(rest))[1..] == Segs(rest);
    assert k[0] != OPEN;
  }
}
