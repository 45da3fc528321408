/**
 What the stack of scopes keeps over every run: each use is decided exactly once, by the
 innermost enclosing scope that declares its name when that scope is unstacked.
 */
module ScopeRuns {
  import opened Scopes

  /** From scope `home` up to scope `s`, all unstacked scopes passed on the way do not declare the name. */
  predicate Reaches(parents: seq<nat>, closed: map<nat, set<Name>>, home: nat, s: nat, name: Name)
    decreases home
  {
    || home == s
    || (0 < home < |parents| && parents[home] < home && home in closed && name !in closed[home]
        && Reaches(parents, closed, parents[home], s, name))
  }

  /** The lexical rule: the innermost scope, from `s` outwards, that declares the name. */
  function Resolve(parents: seq<nat>, closed: map<nat, set<Name>>, s: nat, name: Name): Outcome
    decreases s
  {
    if s in closed && name in closed[s] then Bound(s)
    else if 0 < s < |parents| && parents[s] < s then Resolve(parents, closed, parents[s], name)
    else Unbound
  }

  // ----------------------------------------------------------------- the invariant

  /** The numbers of the scopes on the stack, and the scopes they were opened in. */
  predicate Numbered(ids: seq<nat>, parents: seq<nat>, closed: map<nat, set<Name>>) {
    && |parents| > 0
    && (forall i :: 0 <= i < |ids| ==> ids[i] < |parents| && ids[i] !in closed)
    && (forall i, j :: 0 <= i < j < |ids| ==> ids[i] < ids[j])
    && (ids != [] ==> ids[0] == 0)
    && (forall i :: 0 < i < |ids| ==> parents[ids[i]] == ids[i - 1])
    && (forall s :: 0 < s < |parents| ==> parents[s] < s)
    && (forall s :: s in closed ==> s < |parents|)
  }

  predicate Shape(r: Run) {
    |r.ids| == |r.stack| && Numbered(r.ids, r.parents, r.closed) && Rooted(r.stack)
  }

  /** A waiting use is recorded under its own name, undecided, and no scope it came through declares the name. */
  ghost predicate Waits(r: Run) {
    |r.ids| == |r.stack| &&
    forall i, n, slot, k :: 0 <= i < |r.stack| && k in At(r.stack[i], n, slot) ==>
      WaitsAt(r, r.ids[i], n, slot, k)
  }

  predicate WaitsAt(r: Run, id: nat, n: Name, slot: Slot, k: nat) {
    && k < |r.uses| && r.uses[k].name == n && r.uses[k].slot == slot && k !in r.outcomes
    && Reaches(r.parents, r.closed, r.uses[k].home, id, n)
  }

  predicate Distinct(s: seq<nat>) {
    forall i, j :: 0 <= i < j < |s| ==> s[i] != s[j]
  }

  predicate Apart(s: seq<nat>, t: seq<nat>) {
    forall k :: k in s ==> k !in t
  }

  /** No use waits twice. */
  ghost predicate Once(s: Stack) {
    && (forall i, n, slot :: 0 <= i < |s| ==> Distinct(At(s[i], n, slot)))
    && (forall i, j, n, slot :: 0 <= i < j < |s| ==> Apart(At(s[i], n, slot), At(s[j], n, slot)))
  }

  predicate Somewhere(r: Run, k: nat)
    requires k < |r.uses|
  {
    exists i :: 0 <= i < |r.stack| && k in At(r.stack[i], r.uses[k].name, r.uses[k].slot)
  }

  /** No use is lost. */
  predicate Complete(r: Run) {
    forall k :: 0 <= k < |r.uses| ==> k in r.outcomes || Somewhere(r, k)
  }

  /** What is decided is what the lexical rule says, and stays so. */
  predicate DecidedWell(r: Run, k: nat)
    requires k in r.outcomes
  {
    && k < |r.uses|
    && match r.outcomes[k]
       case Bound(s) => s in r.closed && r.uses[k].name in r.closed[s]
                        && Reaches(r.parents, r.closed, r.uses[k].home, s, r.uses[k].name)
       case Unbound => 0 in r.closed && r.uses[k].name !in r.closed[0]
                       && Reaches(r.parents, r.closed, r.uses[k].home, 0, r.uses[k].name)
  }

  predicate Settles(r: Run) {
    forall k :: k in r.outcomes ==> DecidedWell(r, k)
  }

  ghost predicate Inv(r: Run) {
    Shape(r) && Waits(r) && Once(r.stack) && Complete(r) && Settles(r)
  }

  // --------------------------------------------------------------------- reaching

  lemma {:induction false} ReachesGrows(p: seq<nat>, c: map<nat, set<Name>>, q: seq<nat>, d: map<nat, set<Name>>, home: nat, s: nat, n: Name)
    requires p <= q && Reaches(p, c, home, s, n)
    requires forall x :: x in c ==> x in d && d[x] == c[x]
    ensures Reaches(q, d, home, s, n)
    decreases home
  {
    if home == s {
    } else {
      assert q[home] == p[home];
      ReachesGrows(p, c, q, d, p[home], s, n);
    }
  }

  lemma {:induction false} ReachesOut(p: seq<nat>, c: map<nat, set<Name>>, home: nat, s: nat, n: Name)
    requires Reaches(p, c, home, s, n)
    requires 0 < s < |p| && p[s] < s && s in c && n !in c[s]
    ensures Reaches(p, c, home, p[s], n)
    decreases home
  {
    if home != s {
      ReachesOut(p, c, p[home], s, n);
    } else {
      assert Reaches(p, c, p[s], p[s], n);
    }
  }

  lemma {:induction false} ReachesResolve(p: seq<nat>, c: map<nat, set<Name>>, home: nat, s: nat, n: Name)
    requires Reaches(p, c, home, s, n)
    ensures Resolve(p, c, home, n) == Resolve(p, c, s, n)
    decreases home
  {
    if home == s {
    } else {
      ReachesResolve(p, c, p[home], s, n);
    }
  }

  // ------------------------------------------- steps that leave the uses where they are

  ghost predicate SameWaiting(s: Stack, t: Stack) {
    && |s| == |t| && (forall i :: 0 <= i < |s| ==> t[i].kind == s[i].kind)
    && forall i, n, slot :: 0 <= i < |s| ==> At(t[i], n, slot) == At(s[i], n, slot)
  }

  lemma SameKeeps(r: Run, t: Stack)
    requires Inv(r) && SameWaiting(r.stack, t)
    ensures Inv(r.(stack := t))
  {
    hide At, Distinct, Apart, WaitsAt, DecidedWell, Somewhere;
    var q := r.(stack := t);
    assert Shape(q);
    forall i, n, slot, k | 0 <= i < |t| && k in At(t[i], n, slot)
      ensures WaitsAt(q, q.ids[i], n, slot, k)
    {
      assert WaitsAt(r, r.ids[i], n, slot, k);
      WaitsSame(r, q, r.ids[i], n, slot, k);
    }
    forall k | 0 <= k < |q.uses|
      ensures k in q.outcomes || Somewhere(q, k)
    {
      if k !in q.outcomes {
        SomewhereSame(r, q, k);
      }
    }
    forall k | k in q.outcomes
      ensures DecidedWell(q, k)
    {
      assert DecidedWell(r, k);
      DecidedSame(r, q, k);
    }
  }

  lemma SomewhereSame(r: Run, q: Run, k: nat)
    requires k < |r.uses| && r.uses <= q.uses && Somewhere(r, k) && |r.stack| <= |q.stack|
    requires forall i, n, slot :: 0 <= i < |r.stack| && k in At(r.stack[i], n, slot) ==> k in At(q.stack[i], n, slot)
    ensures Somewhere(q, k)
  {
    hide At;
    assert q.uses[k] == r.uses[k];
    var i :| 0 <= i < |r.stack| && k in At(r.stack[i], r.uses[k].name, r.uses[k].slot);
    assert k in At(q.stack[i], q.uses[k].name, q.uses[k].slot);
  }

  lemma WaitsSame(r: Run, q: Run, id: nat, n: Name, slot: Slot, k: nat)
    requires WaitsAt(r, id, n, slot, k)
    requires q.uses == r.uses && q.outcomes == r.outcomes && q.parents == r.parents && q.closed == r.closed
    ensures WaitsAt(q, id, n, slot, k)
  {
  }

  lemma DecidedSame(r: Run, q: Run, k: nat)
    requires k in r.outcomes && k in q.outcomes && q.outcomes[k] == r.outcomes[k] && DecidedWell(r, k)
    requires r.uses <= q.uses && r.parents <= q.parents
    requires forall x :: x in r.closed ==> x in q.closed && q.closed[x] == r.closed[x]
    ensures DecidedWell(q, k)
  {
    assert q.uses[k] == r.uses[k];
    var s := if r.outcomes[k].Bound? then r.outcomes[k].scope else 0;
    ReachesGrows(r.parents, r.closed, q.parents, q.closed, r.uses[k].home, s, r.uses[k].name);
  }

  lemma WaitsGrows(r: Run, q: Run, id: nat, n: Name, slot: Slot, k: nat)
    requires WaitsAt(r, id, n, slot, k)
    requires r.uses <= q.uses && r.parents <= q.parents && k !in q.outcomes
    requires forall x :: x in r.closed ==> x in q.closed && q.closed[x] == r.closed[x]
    ensures WaitsAt(q, id, n, slot, k)
  {
    assert q.uses[k] == r.uses[k];
    ReachesGrows(r.parents, r.closed, q.parents, q.closed, r.uses[k].home, id, n);
  }

  // ------------------------------------------------------------------- single steps

  lemma LabelsSame(s: Stack, t: Stack)
    requires |s| == |t| && forall i :: 0 <= i < |s| ==> t[i].usages == s[i].usages && t[i].kind == s[i].kind
    ensures SameWaiting(s, t)
  {
  }

  lemma OpenKeeps(r: Run, kind: Kind)
    requires Inv(r) && Legal(r, Open(kind))
    ensures Inv(Step(r, Open(kind)))
  {
    hide At, Distinct, Apart, WaitsAt, DecidedWell, Somewhere, Top;
    var q := Step(r, Open(kind));
    OpenShape(r, kind);
    NothingWaits(r.stack, kind);
    forall i, n, slot, k | 0 <= i < |q.stack| && k in At(q.stack[i], n, slot)
      ensures WaitsAt(q, q.ids[i], n, slot, k)
    {
      assert WaitsAt(r, r.ids[i], n, slot, k);
      assert k !in r.outcomes by { Undecided(r, r.ids[i], n, slot, k); }
      WaitsGrows(r, q, r.ids[i], n, slot, k);
    }
    OpenOnce(r.stack, kind);
    forall k | 0 <= k < |q.uses|
      ensures k in q.outcomes || Somewhere(q, k)
    {
      if k !in q.outcomes {
        SomewhereSame(r, q, k);
      }
    }
    forall k | k in q.outcomes
      ensures DecidedWell(q, k)
    {
      assert DecidedWell(r, k);
      DecidedSame(r, q, k);
    }
  }

  lemma Undecided(r: Run, id: nat, n: Name, slot: Slot, k: nat)
    requires WaitsAt(r, id, n, slot, k)
    ensures k !in r.outcomes && k < |r.uses| && r.uses[k].name == n && r.uses[k].slot == slot
    ensures Reaches(r.parents, r.closed, r.uses[k].home, id, n)
  {
  }

  lemma OpenShape(r: Run, kind: Kind)
    requires Shape(r) && Legal(r, Open(kind))
    ensures Shape(Step(r, Open(kind)))
  {
    hide Numbered;
    OpenNumbered(r.ids, r.parents, r.closed);
  }

  lemma OpenNumbered(ids: seq<nat>, parents: seq<nat>, closed: map<nat, set<Name>>)
    requires Numbered(ids, parents, closed) && ids != []
    ensures Numbered(ids + [|parents|], parents + [ids[|ids| - 1]], closed)
  {
    var q, p := ids + [|parents|], parents + [ids[|ids| - 1]];
    assert forall i :: 0 < i < |ids| ==> p[q[i]] == parents[ids[i]];
  }

  lemma NothingWaits(s: Stack, kind: Kind)
    requires s != []
    ensures var t := Pushed(s, kind);
            && |t| == |s| + 1 && (forall i :: 0 <= i < |s| ==> t[i] == s[i])
            && forall n, slot :: At(t[|s|], n, slot) == []
  {
  }

  lemma OpenOnce(s: Stack, kind: Kind)
    requires Once(s) && s != []
    ensures Once(Pushed(s, kind))
  {
    hide At;
    NothingWaits(s, kind);
  }

  lemma RecordKeeps(r: Run, name: Name, slot: Slot)
    requires Inv(r) && r.stack != []
    ensures Inv(Record(r, name, slot))
  {
    hide At, Distinct, Apart, WaitsAt, DecidedWell, Somewhere, Noted;
    var q := Record(r, name, slot);
    var last := |r.stack| - 1;
    NotedAt(r.stack, name, slot, [|r.uses|]);
    NotedShape(r, name, slot);
    forall i, n, sl, k | 0 <= i < |q.stack| && k in At(q.stack[i], n, sl)
      ensures WaitsAt(q, q.ids[i], n, sl, k)
    {
      if k == |r.uses| {
        NewWaits(r, q, name, slot, i, n, sl);
      } else {
        assert WaitsAt(r, r.ids[i], n, sl, k);
        Undecided(r, r.ids[i], n, sl, k);
        WaitsGrows(r, q, r.ids[i], n, sl, k);
      }
    }
    RecordOnce(r, name, slot);
    forall k | 0 <= k < |q.uses|
      ensures k in q.outcomes || Somewhere(q, k)
    {
      if k == |r.uses| {
        assert k in At(q.stack[last], q.uses[k].name, q.uses[k].slot);
        SomewhereIntro(q, k, last);
      } else if k !in q.outcomes {
        SomewhereSame(r, q, k);
      }
    }
    forall k | k in q.outcomes
      ensures DecidedWell(q, k)
    {
      assert DecidedWell(r, k);
      DecidedSame(r, q, k);
    }
  }

  lemma SomewhereIntro(r: Run, k: nat, i: nat)
    requires k < |r.uses| && i < |r.stack| && k in At(r.stack[i], r.uses[k].name, r.uses[k].slot)
    ensures Somewhere(r, k)
  {
  }

  /** Recording adds to one list of the innermost scope. */
  lemma NotedAt(s: Stack, name: Name, slot: Slot, ks: seq<nat>)
    requires s != []
    ensures var t := Noted(s, name, slot, ks);
            && |t| == |s| && (forall i :: 0 <= i < |s| - 1 ==> t[i] == s[i])
            && (forall i :: 0 <= i < |s| ==> t[i].kind == s[i].kind)
            && (forall i, n, sl :: 0 <= i < |s| ==>
                  At(t[i], n, sl) == if i == |s| - 1 && n == name && sl == slot then At(s[i], n, sl) + ks else At(s[i], n, sl))
  {
  }

  lemma NotedShape(r: Run, name: Name, slot: Slot)
    requires Shape(r) && r.stack != []
    ensures Shape(Record(r, name, slot))
  {
  }

  /** The new use waits in the innermost scope only. */
  lemma NewWaits(r: Run, q: Run, name: Name, slot: Slot, i: nat, n: Name, sl: Slot)
    requires Inv(r) && r.stack != [] && q == Record(r, name, slot)
    requires i < |q.stack| && |r.uses| in At(q.stack[i], n, sl)
    ensures |q.ids| == |q.stack| && WaitsAt(q, q.ids[i], n, sl, |r.uses|)
  {
    hide At, Distinct, Apart, WaitsAt, DecidedWell, Somewhere, Noted;
    NotedAt(r.stack, name, slot, [|r.uses|]);
    if |r.uses| in At(r.stack[i], n, sl) {
      assert WaitsAt(r, r.ids[i], n, sl, |r.uses|);
      Undecided(r, r.ids[i], n, sl, |r.uses|);
    }
    assert i == |r.stack| - 1 && n == name && sl == slot;
    if |r.uses| in r.outcomes {
      assert DecidedWell(r, |r.uses|);
      DecidedKnown(r, |r.uses|);
    }
    NewWaitsAt(q, q.ids[i], n, sl, |r.uses|);
  }

  lemma DecidedKnown(r: Run, k: nat)
    requires k in r.outcomes && DecidedWell(r, k)
    ensures k < |r.uses|
  {
  }

  lemma NewWaitsAt(q: Run, id: nat, n: Name, slot: Slot, k: nat)
    requires k < |q.uses| && q.uses[k] == Recorded(n, slot, id) && k !in q.outcomes
    ensures WaitsAt(q, id, n, slot, k)
  {
  }

  lemma RecordOnce(r: Run, name: Name, slot: Slot)
    requires Inv(r) && r.stack != []
    ensures Once(Record(r, name, slot).stack)
  {
    hide At, Distinct, Apart, WaitsAt, DecidedWell, Somewhere, Noted;
    var s, t, last := r.stack, Record(r, name, slot).stack, |r.stack| - 1;
    NotedAt(s, name, slot, [|r.uses|]);
    forall i, n, sl, k | 0 <= i < |s| && k in At(s[i], n, sl)
      ensures k < |r.uses|
    {
      assert WaitsAt(r, r.ids[i], n, sl, k);
      Undecided(r, r.ids[i], n, sl, k);
    }
    forall i, n, sl | 0 <= i < |t|
      ensures Distinct(At(t[i], n, sl))
    {
      assert Distinct(At(s[i], n, sl));
      DistinctSnoc(At(s[i], n, sl), |r.uses|);
    }
    forall i, j, n, sl | 0 <= i < j < |t|
      ensures Apart(At(t[i], n, sl), At(t[j], n, sl))
    {
      assert Apart(At(s[i], n, sl), At(s[j], n, sl));
      ApartSnoc(At(s[i], n, sl), At(s[j], n, sl), |r.uses|);
    }
  }

  lemma DistinctSnoc(s: seq<nat>, k: nat)
    requires Distinct(s) && forall x :: x in s ==> x < k
    ensures Distinct(s + [k])
  {
    assert forall i :: 0 <= i < |s| ==> s[i] in s;
  }

  lemma ApartSnoc(s: seq<nat>, t: seq<nat>, k: nat)
    requires Apart(s, t) && forall x :: x in s ==> x < k
    ensures Apart(s, t + [k])
  {
  }

  // -------------------------------------------------------------------- unstacking

  /** What waits in the outer scope afterwards: its own uses and those the inner scope does not declare. */
  lemma PoppedAt(s: Stack)
    requires |s| > 1
    ensures var t, last := Popped(s), |s| - 2;
            && |t| == |s| - 1 && (forall i :: 0 <= i < last ==> t[i] == s[i]) && t[last].kind == s[last].kind
            && forall n, sl :: At(t[last], n, sl) ==
                               if n in Top(s).labels then At(s[last], n, sl) else At(s[last], n, sl) + At(Top(s), n, sl)
  {
    hide Body, Hoisting, Received, Settled;
    forall n, sl
      ensures At(Outer(s), n, sl) ==
              if n in Top(s).labels then At(s[|s| - 2], n, sl) else At(s[|s| - 2], n, sl) + At(Top(s), n, sl)
    {
      OuterAt(s, n, sl);
    }
  }

  lemma OuterAt(s: Stack, n: Name, sl: Slot)
    requires |s| > 1
    ensures At(Outer(s), n, sl) ==
            if n in Top(s).labels then At(s[|s| - 2], n, sl) else At(s[|s| - 2], n, sl) + At(Top(s), n, sl)
  {
    hide Body, Hoisting, Received, Settled;
    var top, sub := Top(s), s[|s| - 2];
    if n !in top.labels && n !in top.usages {
      assert At(top, n, sl) == [];
      assert At(sub, n, sl) + [] == At(sub, n, sl);
    } else if n !in top.labels && n !in sub.usages {
      assert [] + At(top, n, sl) == At(top, n, sl);
    }
  }

  lemma CloseShape(r: Run)
    requires Shape(r) && r.stack != []
    ensures Shape(Step(r, Close))
  {
    hide Numbered, Outer;
    CloseNumbered(r.ids, r.parents, r.closed, Top(r.stack).labels.Keys);
    if |r.stack| > 1 {
      PoppedAt(r.stack);
    }
  }

  lemma CloseNumbered(ids: seq<nat>, parents: seq<nat>, closed: map<nat, set<Name>>, names: set<Name>)
    requires Numbered(ids, parents, closed) && ids != []
    ensures Numbered(ids[..|ids| - 1], parents, closed[ids[|ids| - 1] := names])
  {
  }

  /** A waiting use is decided now exactly when it waits in the innermost scope and that scope declares it or is the last. */
  lemma DecidedNow(r: Run, i: nat, n: Name, sl: Slot, k: nat)
    requires Inv(r) && i < |r.stack| && k in At(r.stack[i], n, sl)
    ensures k < |r.uses| && r.uses[k].name == n && r.uses[k].slot == sl && k !in r.outcomes && |r.ids| == |r.stack|
    ensures Reaches(r.parents, r.closed, r.uses[k].home, r.ids[i], n)
    ensures k in Decided(r) <==> i == |r.stack| - 1 && (n in Top(r.stack).labels || |r.stack| == 1)
  {
    hide At, Reaches, Distinct, DecidedWell, Somewhere;
    assert WaitsAt(r, r.ids[i], n, sl, k);
    Undecided(r, r.ids[i], n, sl, k);
    if i < |r.stack| - 1 {
      assert Apart(At(r.stack[i], n, sl), At(r.stack[|r.stack| - 1], n, sl));
    }
  }

  lemma CloseWaits(r: Run, q: Run, i: nat, n: Name, sl: Slot, k: nat)
    requires Inv(r) && r.stack != [] && q == Step(r, Close)
    requires i < |q.stack| && k in At(q.stack[i], n, sl)
    ensures |q.ids| == |q.stack| && WaitsAt(q, q.ids[i], n, sl, k)
  {
    hide At, Distinct, Apart, DecidedWell, Somewhere, Decided, Waits, Once, Outer, Rooted;
    PoppedAt(r.stack);
    CloseShape(r);
    var last := |r.stack| - 1;
    if k in At(r.stack[i], n, sl) {
      DecidedNow(r, i, n, sl, k);
      ReachesGrows(r.parents, r.closed, q.parents, q.closed, r.uses[k].home, r.ids[i], n);
    } else {
      assert i == last - 1 && k in At(r.stack[last], n, sl);
      DecidedNow(r, last, n, sl, k);
      ReachesGrows(r.parents, r.closed, q.parents, q.closed, r.uses[k].home, r.ids[last], n);
      ReachesOut(q.parents, q.closed, r.uses[k].home, r.ids[last], n);
    }
  }

  lemma CloseOnce(r: Run)
    requires Inv(r) && r.stack != []
    ensures Once(Popped(r.stack))
  {
    hide At, Distinct, Apart, Waits, Complete, Settles, Shape, Outer;
    var s, t := r.stack, Popped(r.stack);
    if |s| > 1 {
      PoppedAt(s);
      forall i, n, sl | 0 <= i < |t|
        ensures Distinct(At(t[i], n, sl))
      {
        assert Distinct(At(s[i], n, sl)) && Distinct(At(s[|s| - 1], n, sl));
        assert Apart(At(s[|s| - 2], n, sl), At(s[|s| - 1], n, sl));
        DistinctJoin(At(s[|s| - 2], n, sl), At(s[|s| - 1], n, sl));
      }
      forall i, j, n, sl | 0 <= i < j < |t|
        ensures Apart(At(t[i], n, sl), At(t[j], n, sl))
      {
        assert Apart(At(s[i], n, sl), At(s[j], n, sl)) && Apart(At(s[i], n, sl), At(s[|s| - 1], n, sl));
        ApartJoin(At(s[i], n, sl), At(s[j], n, sl), At(s[|s| - 1], n, sl));
      }
    }
  }

  lemma DistinctJoin(s: seq<nat>, t: seq<nat>)
    requires Distinct(s) && Distinct(t) && Apart(s, t)
    ensures Distinct(s + t)
  {
    assert forall i :: 0 <= i < |s| ==> s[i] in s;
  }

  lemma ApartJoin(s: seq<nat>, t: seq<nat>, u: seq<nat>)
    requires Apart(s, t) && Apart(s, u)
    ensures Apart(s, t + u)
  {
  }

  lemma CloseComplete(r: Run, q: Run, k: nat)
    requires Inv(r) && r.stack != [] && q == Step(r, Close) && k < |r.uses|
    ensures k in q.outcomes || Somewhere(q, k)
  {
    hide At, Distinct, Apart, Waits, Once, Settles, Shape, DecidedWell, Outer, Decided;
    if k !in r.outcomes {
      var n, sl, last := r.uses[k].name, r.uses[k].slot, |r.stack| - 1;
      assert Somewhere(r, k);
      var i :| 0 <= i < |r.stack| && k in At(r.stack[i], n, sl);
      DecidedNow(r, i, n, sl, k);
      if k !in Decided(r) {
        PoppedAt(r.stack);
        SomewhereIntro(q, k, if i == last then last - 1 else i);
      }
    }
  }

  lemma CloseSettles(r: Run, q: Run, k: nat)
    requires Inv(r) && r.stack != [] && q == Step(r, Close) && k in q.outcomes
    ensures DecidedWell(q, k)
  {
    hide At, Distinct, Apart, Waits, Once, Complete, Outer, Popped;
    var last := |r.stack| - 1;
    if k in Decided(r) {
      DecidedNow(r, last, r.uses[k].name, r.uses[k].slot, k);
      ReachesGrows(r.parents, r.closed, q.parents, q.closed, r.uses[k].home, r.ids[last], r.uses[k].name);
    } else {
      assert DecidedWell(r, k);
      DecidedSame(r, q, k);
    }
  }

  lemma CloseKeeps(r: Run)
    requires Inv(r) && r.stack != []
    ensures Inv(Step(r, Close))
  {
    hide At, Distinct, Apart, WaitsAt, DecidedWell, Somewhere, Outer, Decided, Shape, Once, Reaches;
    var q := Step(r, Close);
    CloseShape(r);
    CloseOnce(r);
    SameLength(q);
    forall i, n, sl, k | 0 <= i < |q.stack| && k in At(q.stack[i], n, sl)
      ensures WaitsAt(q, q.ids[i], n, sl, k)
    {
      CloseWaits(r, q, i, n, sl, k);
    }
    forall k | 0 <= k < |q.uses|
      ensures k in q.outcomes || Somewhere(q, k)
    {
      CloseComplete(r, q, k);
    }
    forall k | k in q.outcomes
      ensures DecidedWell(q, k)
    {
      CloseSettles(r, q, k);
    }
  }

  lemma SameLength(r: Run)
    requires Shape(r)
    ensures |r.ids| == |r.stack|
  {
  }

  // ------------------------------------------------------------------- all the steps

  lemma StartKeeps()
    ensures Inv(Start())
  {
  }

  lemma ParamUsedSame(s: Stack, name: Name)
    requires s != []
    ensures SameWaiting(s, ParamUsed(s, name))
  {
    hide FunctHas;
    LabelsSame(s, ParamUsed(s, name));
  }

  lemma NotedNothing(s: Stack, name: Name)
    requires s != []
    ensures SameWaiting(s, Noted(s, name, Token, []))
  {
    hide At, Noted;
    NotedAt(s, name, Token, []);
    assert forall t: seq<nat> :: t + [] == t;
  }

  lemma StepKeeps(r: Run, e: Event)
    requires Inv(r) && Legal(r, e)
    ensures Inv(Step(r, e))
  {
    hide Inv, Noted, ParamUsed, Popped, SameWaiting;
    match e
    case Open(kind) => OpenKeeps(r, kind);
    case Close => CloseKeeps(r);
    case Declare(name, entry) =>
      LabelsSame(r.stack, Labelled(r.stack, name, entry));
      SameKeeps(r, Labelled(r.stack, name, entry));
    case Parameter(name, labelType) =>
      LabelsSame(r.stack, Parametered(r.stack, name, labelType));
      SameKeeps(r, Parametered(r.stack, name, labelType));
    case Use(name, withToken) =>
      ParamUsedSame(r.stack, name);
      SameKeeps(r, ParamUsed(r.stack, name));
      StackSame(r.stack, name);
      var used := r.(stack := ParamUsed(r.stack, name));
      if withToken {
        RecordKeeps(used, name, Token);
      } else {
        NotedNothing(used.stack, name);
        SameKeeps(used, Noted(used.stack, name, Token, []));
      }
    case Modify(name) => RecordKeeps(r, name, Modified);
    case Reassign(name) =>
      RecordKeeps(r, name, Modified);
      NotedAt(r.stack, name, Modified, [|r.uses|]);
      RecordKeeps(Record(r, name, Modified), name, Reassigned);
  }

  lemma StackSame(s: Stack, name: Name)
    requires s != []
    ensures |ParamUsed(s, name)| == |s|
  {
  }

  lemma {:induction false} RunKeeps(r: Run, events: seq<Event>)
    requires Inv(r) && AllLegal(r, events)
    ensures Inv(After(r, events))
    decreases |events|
  {
    hide Inv, Step, Legal;
    if events == [] {
    } else {
      StepKeeps(r, events[0]);
      RunKeeps(Step(r, events[0]), events[1..]);
    }
  }

  /**
   Over every run from the global scope: when all scopes are unstacked, every use was
   decided, and as the lexical rule says.
   */
  lemma EveryUseDecided(events: seq<Event>)
    requires AllLegal(Start(), events)
    ensures var r := After(Start(), events);
            r.stack == [] ==> forall k :: 0 <= k < |r.uses| ==>
              k in r.outcomes && r.outcomes[k] == Resolve(r.parents, r.closed, r.uses[k].home, r.uses[k].name)
  {
    hide Step, Legal, Reaches, Resolve, Waits, Once;
    StartKeeps();
    RunKeeps(Start(), events);
    var r := After(Start(), events);
    forall k | r.stack == [] && 0 <= k < |r.uses|
      ensures k in r.outcomes && r.outcomes[k] == Resolve(r.parents, r.closed, r.uses[k].home, r.uses[k].name)
    {
      OutcomeIsLexical(r, k);
    }
  }

  predicate WaitsIn(r: Run, k: nat, i: nat)
    requires k < |r.uses|
  {
    i < |r.stack| && k in At(r.stack[i], r.uses[k].name, r.uses[k].slot)
  }

  lemma WaitingUndecided(r: Run, k: nat, i: nat)
    requires Inv(r) && k < |r.uses| && WaitsIn(r, k, i)
    ensures k !in r.outcomes
  {
    hide At, Once, Complete, Settles, Reaches;
    assert WaitsAt(r, r.ids[i], r.uses[k].name, r.uses[k].slot, k);
  }

  lemma WaitsInOne(r: Run, k: nat, i: nat, j: nat)
    requires Inv(r) && k < |r.uses| && WaitsIn(r, k, i) && WaitsIn(r, k, j)
    ensures i == j
  {
    hide At, Waits, Complete, Settles, Distinct;
    var n, sl := r.uses[k].name, r.uses[k].slot;
    assert i < j ==> Apart(At(r.stack[i], n, sl), At(r.stack[j], n, sl));
    assert j < i ==> Apart(At(r.stack[j], n, sl), At(r.stack[i], n, sl));
  }

  lemma DecidedIsLexical(r: Run, k: nat)
    requires Inv(r) && k in r.outcomes
    ensures k < |r.uses| && r.outcomes[k] == Resolve(r.parents, r.closed, r.uses[k].home, r.uses[k].name)
  {
    hide Waits, Once, Complete, Shape, Reaches;
    assert DecidedWell(r, k);
    ReachesResolve(r.parents, r.closed, r.uses[k].home, if r.outcomes[k].Bound? then r.outcomes[k].scope else 0, r.uses[k].name);
  }

  lemma UndecidedWaits(r: Run, k: nat)
    requires Inv(r) && k < |r.uses| && k !in r.outcomes
    ensures exists i: nat :: WaitsIn(r, k, i)
  {
    hide At, Waits, Once, Settles, Shape;
    assert Somewhere(r, k);
    var i :| 0 <= i < |r.stack| && k in At(r.stack[i], r.uses[k].name, r.uses[k].slot);
    assert WaitsIn(r, k, i);
  }

  /** At any time a use is either decided, by the lexical rule, or waits in exactly one scope. */
  lemma OutcomeIsLexical(r: Run, k: nat)
    requires Inv(r) && k < |r.uses|
    ensures k in r.outcomes <==> !exists i: nat :: WaitsIn(r, k, i)
    ensures forall i: nat, j: nat :: WaitsIn(r, k, i) && WaitsIn(r, k, j) ==> i == j
    ensures k in r.outcomes ==> r.outcomes[k] == Resolve(r.parents, r.closed, r.uses[k].home, r.uses[k].name)
  {
    hide Inv, WaitsIn, Resolve;
    if k in r.outcomes {
      DecidedIsLexical(r, k);
    } else {
      UndecidedWaits(r, k);
    }
    forall i: nat | WaitsIn(r, k, i)
      ensures k !in r.outcomes
    {
      WaitingUndecided(r, k, i);
    }
    forall i: nat, j: nat | WaitsIn(r, k, i) && WaitsIn(r, k, j)
      ensures i == j
    {
      WaitsInOne(r, k, i, j);
    }
  }

  // ------------------------------------------------------------------------ hoisting

  /** A block that is unstacked inside a function or the global scope, not as part of a function header. */
  predicate InnerBlock(s: Stack) {
    |s| > 1 && Body(s) < |s| - 1 && Top(s).kind != FunctionParams && Top(s).kind != FunctionOuter
  }

  /** A label that is scoped to the function stays visible in it when its block is unstacked. */
  lemma VarStaysVisible(s: Stack, n: Name)
    requires InnerBlock(s) && n in Top(s).labels
    requires !Top(s).labels[n].blockscoped && Top(s).labels[n].labelType != "exception"
    ensures FunctHas(Popped(s), n, false, false)
  {
    hide Body, Passed, Settled;
    var outer := s[..|s| - 1];
    var t := Popped(s);
    assert t[..|t| - 1] == outer[..|outer| - 1];
    if FunctHas(outer, n, false, false) {
      assert n in Top(outer).labels ==> n in Top(t).labels;
    } else {
      assert n in Hoisting(s);
    }
  }

  /** A name scoped to its block, and an exception, is gone with the block. */
  lemma LetIsGone(s: Stack, n: Name)
    requires InnerBlock(s) && n in Top(s).labels
    requires Top(s).labels[n].blockscoped || Top(s).labels[n].labelType == "exception"
    ensures FunctHas(Popped(s), n, false, false) == FunctHas(s[..|s| - 1], n, false, false)
  {
    hide Body, Passed, Settled;
    var outer := s[..|s| - 1];
    var t := Popped(s);
    assert t[..|t| - 1] == outer[..|outer| - 1];
  }

  /** Opening and unstacking keep the current function body the innermost one. */
  lemma BodyMoves(s: Stack, kind: Kind)
    requires s != [] && Rooted(s) && kind != Global
    ensures Body(s) >= 0
    ensures Body(Pushed(s, kind)) == if kind == Plain && Top(s).kind == FunctionParams then |s| else Body(s)
    ensures Body(s) < |s| - 1 ==> Body(Popped(s)) == Body(s)
    ensures Popped(Pushed(s, kind)) == s
  {
    hide Popped, Body, Pushed;
    BodyRoot(s);
    BodyPushed(s, kind);
    OpenedAndClosed(s, kind);
    if Body(s) < |s| - 1 {
      BodyPopped(s);
    }
  }

  lemma BodyPushed(s: Stack, kind: Kind)
    requires s != [] && kind != Global
    ensures Body(Pushed(s, kind)) == if kind == Plain && Top(s).kind == FunctionParams then |s| else Body(s)
  {
    var t := Pushed(s, kind);
    assert t[..|t| - 1] == s;
  }

  lemma BodyRoot(s: Stack)
    requires s != [] && Rooted(s)
    ensures Body(s) >= 0
  {
    assert IsBody(s[0]);
  }

  lemma BodyPopped(s: Stack)
    requires s != [] && Body(s) < |s| - 1
    ensures Body(Popped(s)) == Body(s)
  {
    hide *;
    TopSplit(s);
    BodyLast(s[..|s| - 1], Top(s));
    if |s| == 1 {
      PoppedOne(s);
    } else {
      PoppedIs(s);
      BodyLast(s[..|s| - 2], s[|s| - 2]);
      BodyLast(s[..|s| - 2], Outer(s));
    }
  }

  lemma TopSplit(s: Stack)
    requires s != []
    ensures s == s[..|s| - 1] + [Top(s)]
  {
  }

  lemma PoppedOne(s: Stack)
    requires |s| == 1
    ensures Popped(s) == []
  {
    hide Outer;
  }

  lemma PoppedIs(s: Stack)
    requires |s| > 1
    ensures Popped(s) == s[..|s| - 2] + [Outer(s)] && s[..|s| - 1] == s[..|s| - 2] + [s[|s| - 2]]
    ensures IsBody(Outer(s)) == IsBody(s[|s| - 2])
  {
    hide Hoisting, Passed, Settled, Received, Body;
  }

  lemma BodyLast(s: Stack, f: Frame)
    ensures Body(s + [f]) == if IsBody(f) then |s| else Body(s)
  {
    assert (s + [f])[..|s|] == s;
  }

  /** A scope in which nothing happened leaves no trace. */
  lemma OpenedAndClosed(s: Stack, kind: Kind)
    requires s != []
    ensures Popped(Pushed(s, kind)) == s
  {
    var t := Pushed(s, kind);
    assert t[|t| - 2] == Top(s);
    assert Hoisting(t) == {};
    assert Outer(t).usages == Top(s).usages && Outer(t).labels == Top(s).labels;
  }
}
