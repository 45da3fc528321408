/**
 The definitions shown with one operation of an API description: those the text of the
 operation refers to, directly or through the text of other definitions.

 A text is taken as the list of names it refers to, in the order it mentions them.
 */
module Closure {
  import opened Options

  type Name = string

  /** The definitions that exist, each with the names its text mentions. */
  type Definitions = map<Name, seq<Name>>

  /** What the walk finds in a definition; it does not look into a blank name or a missing definition. */
  function Mentions(defs: Definitions, e: Name): seq<Name> {
    if e != "" && e in defs then defs[e] else []
  }

  predicate Distinct(s: seq<Name>) {
    forall i, j :: 0 <= i < j < |s| ==> s[i] != s[j]
  }

  /** Every name of the path is mentioned by the one before it. */
  predicate Path(defs: Definitions, p: seq<Name>) {
    forall i :: 0 < i < |p| ==> p[i] in Mentions(defs, p[i - 1])
  }

  predicate Leads(defs: Definitions, roots: seq<Name>, p: seq<Name>, x: Name) {
    p != [] && Path(defs, p) && p[0] in roots && p[|p| - 1] == x
  }

  ghost predicate Reachable(defs: Definitions, roots: seq<Name>, x: Name) {
    exists p :: Leads(defs, roots, p, x)
  }

  // ------------------------------------------------------- the walk as a function

  function Mentioned(defs: Definitions): set<Name> {
    set e, x | e in defs && x in defs[e] :: x
  }

  /** The names that could still be added. */
  function Left(defs: Definitions, found: seq<Name>): set<Name> {
    Mentioned(defs) - set x | x in found
  }

  lemma LeftShrinks(defs: Definitions, found: seq<Name>, longer: seq<Name>)
    requires found <= longer
    ensures Left(defs, longer) <= Left(defs, found)
    ensures |longer| > |found| && longer[|found|] in Left(defs, found) ==> Left(defs, longer) < Left(defs, found)
  {
    assert forall x :: x in found ==> x in longer;
    if |longer| > |found| && longer[|found|] in Left(defs, found) {
      assert longer[|found|] !in Left(defs, longer);
    }
  }

  /** Depth first: each name that `e` mentions from the `i`-th on, if it is new, and everything new behind it. */
  function Visit(defs: Definitions, e: Name, i: nat, found: seq<Name>): (r: seq<Name>)
    requires i <= |Mentions(defs, e)|
    ensures found <= r
    decreases Left(defs, found), |Mentions(defs, e)| - i
  {
    if i == |Mentions(defs, e)| then found
    else
      var l := Mentions(defs, e)[i];
      if l in found then Visit(defs, e, i + 1, found)
      else
        CanBeLeft(defs, e, i, found);
        LeftShrinks(defs, found, found + [l]);
        var inner := Visit(defs, l, 0, found + [l]);
        LeftShrinks(defs, found, inner);
        Visit(defs, e, i + 1, inner)
  }

  /** What lies behind the starting names is visited, one start after the other. */
  function Sweep(defs: Definitions, starts: seq<Name>, found: seq<Name>): (r: seq<Name>)
    ensures found <= r
  {
    if starts == [] then found else Sweep(defs, starts[1..], Visit(defs, starts[0], 0, found))
  }

  /** The names of a list that are not found yet, each once, in the order of first occurrence. */
  function Firsts(ms: seq<Name>, found: seq<Name>): seq<Name> {
    if ms == [] then found
    else if ms[0] in found then Firsts(ms[1..], found)
    else Firsts(ms[1..], found + [ms[0]])
  }

  /** The names kept for an operation. */
  function Kept(defs: Definitions, mentions: seq<Name>): seq<Name> {
    Sweep(defs, Firsts(mentions, []), Firsts(mentions, []))
  }

  // ------------------------------------------------------------------ its meaning

  /** Everything mentioned by the names of `s` from the `k`-th on is in `s`. */
  predicate ClosedFrom(defs: Definitions, s: seq<Name>, k: nat) {
    forall i, x :: k <= i < |s| && x in Mentions(defs, s[i]) ==> x in s
  }

  lemma ClosedGrows(defs: Definitions, s: seq<Name>, r: seq<Name>, k: nat)
    requires s <= r && ClosedFrom(defs, s, k) && ClosedFrom(defs, r, |s|)
    ensures ClosedFrom(defs, r, k)
  {
    forall i, x | k <= i < |r| && x in Mentions(defs, r[i])
      ensures x in r
    {
      if i < |s| {
        assert x in Mentions(defs, s[i]) && x in s;
      }
    }
  }

  /** A visit leaves nothing open behind it: all that `e` and the new names mention is found. */
  lemma {:induction false} VisitCloses(defs: Definitions, e: Name, i: nat, found: seq<Name>)
    requires i <= |Mentions(defs, e)|
    ensures var r := Visit(defs, e, i, found);
            && ClosedFrom(defs, r, |found|)
            && forall k :: i <= k < |Mentions(defs, e)| ==> Mentions(defs, e)[k] in r
    decreases Left(defs, found), |Mentions(defs, e)| - i
  {
    hide ClosedFrom, Mentions, Left;
    var r := Visit(defs, e, i, found);
    if i == |Mentions(defs, e)| {
      NothingOpen(defs, found);
    } else {
      var l := Mentions(defs, e)[i];
      if l in found {
        VisitCloses(defs, e, i + 1, found);
      } else {
        CanBeLeft(defs, e, i, found);
        LeftShrinks(defs, found, found + [l]);
        var inner := Visit(defs, l, 0, found + [l]);
        VisitCloses(defs, l, 0, found + [l]);
        LastClosed(defs, found, l, inner);
        LeftShrinks(defs, found, inner);
        VisitCloses(defs, e, i + 1, inner);
        ClosedGrows(defs, inner, r, |found|);
        assert (found + [l])[|found|] == l;
        assert l in inner;
      }
    }
  }

  lemma NothingOpen(defs: Definitions, found: seq<Name>)
    ensures ClosedFrom(defs, found, |found|)
  {
  }

  lemma CanBeLeft(defs: Definitions, e: Name, i: nat, found: seq<Name>)
    requires i < |Mentions(defs, e)| && Mentions(defs, e)[i] !in found
    ensures Mentions(defs, e)[i] in Left(defs, found)
  {
    assert e in defs && Mentions(defs, e)[i] in defs[e];
  }

  lemma LastClosed(defs: Definitions, found: seq<Name>, l: Name, inner: seq<Name>)
    requires found + [l] <= inner && ClosedFrom(defs, inner, |found| + 1)
    requires forall k :: 0 <= k < |Mentions(defs, l)| ==> Mentions(defs, l)[k] in inner
    ensures ClosedFrom(defs, inner, |found|)
  {
    assert inner[|found|] == (found + [l])[|found|] == l;
  }

  /** What holds of every name mentioned, through any number of steps, holds of every name found. */
  lemma {:induction false} VisitSound(defs: Definitions, e: Name, i: nat, found: seq<Name>, roots: seq<Name>)
    requires i <= |Mentions(defs, e)|
    requires Reachable(defs, roots, e) && forall x :: x in found ==> Reachable(defs, roots, x)
    requires Distinct(found)
    ensures var r := Visit(defs, e, i, found);
            Distinct(r) && forall x :: x in r ==> Reachable(defs, roots, x)
    decreases Left(defs, found), |Mentions(defs, e)| - i
  {
    hide Reachable, Mentions, Left;
    if i == |Mentions(defs, e)| {
    } else {
      var l := Mentions(defs, e)[i];
      if l in found {
        VisitSound(defs, e, i + 1, found, roots);
      } else {
        CanBeLeft(defs, e, i, found);
        LeftShrinks(defs, found, found + [l]);
        Step(defs, roots, e, l);
        VisitSound(defs, l, 0, found + [l], roots);
        var inner := Visit(defs, l, 0, found + [l]);
        LeftShrinks(defs, found, inner);
        VisitSound(defs, e, i + 1, inner, roots);
      }
    }
  }

  lemma Step(defs: Definitions, roots: seq<Name>, e: Name, x: Name)
    requires Reachable(defs, roots, e) && x in Mentions(defs, e)
    ensures Reachable(defs, roots, x)
  {
    var p :| Leads(defs, roots, p, e);
    assert Leads(defs, roots, p + [x], x);
  }

  lemma RootReachable(defs: Definitions, roots: seq<Name>, x: Name)
    requires x in roots
    ensures Reachable(defs, roots, x)
  {
    assert Leads(defs, roots, [x], x);
  }

  lemma {:induction false} SweepMeans(defs: Definitions, starts: seq<Name>, found: seq<Name>, roots: seq<Name>)
    requires Distinct(found) && forall x :: x in found ==> Reachable(defs, roots, x)
    requires forall x :: x in starts ==> Reachable(defs, roots, x)
    ensures var r := Sweep(defs, starts, found);
            && Distinct(r)
            && (forall x :: x in r ==> Reachable(defs, roots, x))
            && ClosedFrom(defs, r, |found|)
            && (forall x, y :: x in starts && y in Mentions(defs, x) ==> y in r)
  {
    hide Reachable, Mentions, ClosedFrom;
    if starts == [] {
      NothingOpen(defs, found);
    } else {
      var next := Visit(defs, starts[0], 0, found);
      assert starts[0] in starts;
      VisitSound(defs, starts[0], 0, found, roots);
      VisitCloses(defs, starts[0], 0, found);
      SweepMeans(defs, starts[1..], next, roots);
      var r := Sweep(defs, starts[1..], next);
      ClosedGrows(defs, next, r, |found|);
      forall x, y | x in starts && y in Mentions(defs, x)
        ensures y in r
      {
        if x == starts[0] {
          var k :| 0 <= k < |Mentions(defs, x)| && Mentions(defs, x)[k] == y;
          assert y in next;
        } else {
          assert x in starts[1..];
        }
      }
    }
  }

  lemma {:induction false} FirstsMeans(ms: seq<Name>, found: seq<Name>)
    requires Distinct(found)
    ensures Distinct(Firsts(ms, found))
    ensures forall x :: x in Firsts(ms, found) <==> x in ms || x in found
  {
    if ms == [] {
    } else {
      FirstsMeans(ms[1..], if ms[0] in found then found else found + [ms[0]]);
      assert forall x :: x in ms <==> x == ms[0] || x in ms[1..];
    }
  }

  /** A list closed under mention that holds the roots holds all that is reachable. */
  lemma {:induction false} ClosedHoldsPath(defs: Definitions, roots: seq<Name>, s: seq<Name>, p: seq<Name>, x: Name)
    requires Leads(defs, roots, p, x) && ClosedFrom(defs, s, 0) && forall y :: y in roots ==> y in s
    ensures x in s
    decreases |p|
  {
    if |p| == 1 {
    } else {
      var q := p[..|p| - 1];
      ClosedHoldsPath(defs, roots, s, q, q[|q| - 1]);
      assert x in Mentions(defs, p[|p| - 2]);
    }
  }

  /**
   The names kept are, each once, exactly those reachable from what the operation mentions,
   on any graph of definitions, cyclic or not.
   */
  lemma KeptIsReachable(defs: Definitions, mentions: seq<Name>)
    ensures var r := Kept(defs, mentions);
            Distinct(r) && forall x :: x in r <==> Reachable(defs, mentions, x)
  {
    hide Reachable, Mentions, Sweep, Firsts;
    var firsts, r := Firsts(mentions, []), Kept(defs, mentions);
    FirstsMeans(mentions, []);
    forall x | x in mentions
      ensures Reachable(defs, mentions, x)
    {
      RootReachable(defs, mentions, x);
    }
    SweepMeans(defs, firsts, firsts, mentions);
    assert ClosedFrom(defs, r, 0) by {
      forall i, y | 0 <= i < |r| && y in Mentions(defs, r[i])
        ensures y in r
      {
        if i < |firsts| {
          assert r[i] == firsts[i];
        }
      }
    }
    forall x | Reachable(defs, mentions, x)
      ensures x in r
    {
      AllHeld(defs, mentions, r, x);
    }
  }

  lemma AllHeld(defs: Definitions, roots: seq<Name>, s: seq<Name>, x: Name)
    requires Reachable(defs, roots, x) && ClosedFrom(defs, s, 0) && forall y :: y in roots ==> y in s
    ensures x in s
  {
    var p :| Leads(defs, roots, p, x);
    ClosedHoldsPath(defs, roots, s, p, x);
  }

  // ------------------------------------------------ what the definitions refer to

  predicate Cites(defs: Definitions, e: Name, x: Name) {
    e in defs && x in defs[e]
  }

  /** Every name of the path is mentioned in the definition of the one before it, whatever its name. */
  predicate Referring(defs: Definitions, p: seq<Name>) {
    forall i :: 0 < i < |p| ==> Cites(defs, p[i - 1], p[i])
  }

  predicate Refers(defs: Definitions, roots: seq<Name>, p: seq<Name>, x: Name) {
    p != [] && Referring(defs, p) && p[0] in roots && p[|p| - 1] == x
  }

  /** What the roots refer to, directly or through other definitions. */
  ghost predicate Referred(defs: Definitions, roots: seq<Name>, x: Name) {
    exists p :: Refers(defs, roots, p, x)
  }

  lemma ReferredStep(defs: Definitions, roots: seq<Name>, e: Name, x: Name)
    requires Referred(defs, roots, e) && Cites(defs, e, x)
    ensures Referred(defs, roots, x)
  {
    var p :| Refers(defs, roots, p, e);
    assert Refers(defs, roots, p + [x], x);
  }

  lemma ReachableReferred(defs: Definitions, roots: seq<Name>, x: Name)
    requires Reachable(defs, roots, x)
    ensures Referred(defs, roots, x)
  {
    var p :| Leads(defs, roots, p, x);
    assert forall i :: 0 < i < |p| ==> p[i] in Mentions(defs, p[i - 1]);
    assert Refers(defs, roots, p, x);
  }

  /** What the definition of the blank name mentions is reached without it, unless that definition is not reached or missing. */
  ghost predicate BlankAddsNothing(defs: Definitions, roots: seq<Name>) {
    Reachable(defs, roots, "") ==> forall x :: Cites(defs, "", x) ==> Reachable(defs, roots, x)
  }

  lemma {:induction false} ReferredReachable(defs: Definitions, roots: seq<Name>, p: seq<Name>, x: Name)
    requires Refers(defs, roots, p, x) && BlankAddsNothing(defs, roots)
    ensures Reachable(defs, roots, x)
    decreases |p|
  {
    hide Reachable;
    if |p| == 1 {
      RootReachable(defs, roots, x);
    } else {
      var q, e := p[..|p| - 1], p[|p| - 2];
      ReferredReachable(defs, roots, q, e);
      assert Cites(defs, p[|p| - 2], p[|p| - 1]);
      if e != "" {
        Step(defs, roots, e, x);
      }
    }
  }

  /**
   All names kept are referred to; they are all that are referred to, and every name that
   a kept definition mentions is kept too, exactly when the definition of the blank name
   adds nothing.
   */
  lemma KeptIsReferred(defs: Definitions, mentions: seq<Name>)
    ensures var r := Kept(defs, mentions);
            && (forall x :: x in r ==> Referred(defs, mentions, x))
            && ((forall x :: x in r <==> Referred(defs, mentions, x)) <==> BlankAddsNothing(defs, mentions))
            && ((forall e, x :: e in r && Cites(defs, e, x) ==> x in r) <==> BlankAddsNothing(defs, mentions))
  {
    hide Reachable, Referred, Kept;
    KeptIsReachable(defs, mentions);
    var r := Kept(defs, mentions);
    forall x | Reachable(defs, mentions, x)
      ensures Referred(defs, mentions, x)
    {
      ReachableReferred(defs, mentions, x);
    }
    if BlankAddsNothing(defs, mentions) {
      forall x | Referred(defs, mentions, x)
        ensures x in r
      {
        ReferredKept(defs, mentions, x);
      }
    }
    forall e, x | Referred(defs, mentions, e) && Cites(defs, e, x)
      ensures Referred(defs, mentions, x)
    {
      ReferredStep(defs, mentions, e, x);
    }
  }

  lemma ReferredKept(defs: Definitions, mentions: seq<Name>, x: Name)
    requires Referred(defs, mentions, x) && BlankAddsNothing(defs, mentions)
    ensures x in Kept(defs, mentions)
  {
    hide Reachable, Kept;
    var p :| Refers(defs, mentions, p, x);
    ReferredReachable(defs, mentions, p, x);
    KeptIsReachable(defs, mentions);
  }

  /** A kept definition under the blank name is not looked into: what it mentions is missing. */
  lemma BlankNotFollowed()
    ensures var defs := map["" := ["Pet"], "Pet" := []];
            Kept(defs, [""]) == [""] && "Pet" in defs[""]
  {
    var defs: Definitions := map["" := ["Pet"], "Pet" := []];
    assert [""][1..] == [];
    assert Firsts([""], []) == Firsts([], [""]) == [""];
    assert Sweep(defs, [""], [""]) == Sweep(defs, [], Visit(defs, "", 0, [""]));
  }

  // ------------------------------------------------------------ the walk in place

  /** The list of names that the source hands down through its recursion and pushes into. */
  class Found {
    var names: seq<Name>

    constructor ()
      ensures names == []
    {
      names := [];
    }

    /** `Ee`: visits what a name mentions. */
    method Collect(defs: Definitions, e: Name)
      modifies this
      ensures names == Visit(defs, e, 0, old(names))
      decreases Left(defs, names)
    {
      if e != "" && e in defs {
        var ms := defs[e];
        for i := 0 to |ms|
          invariant old(names) <= names
          invariant Visit(defs, e, i, names) == Visit(defs, e, 0, old(names))
        {
          var l := ms[i];
          if l !in names {
            CanBeLeft(defs, e, i, names);
            LeftShrinks(defs, old(names), names);
            LeftShrinks(defs, names, names + [l]);
            names := names + [l];
            Collect(defs, l);
          }
        }
      }
    }

    /** `readOpenApiSpeciOAS2`: the definitions kept for an operation, a name without one as missing. */
    method ReadOperation(defs: Definitions, mentions: seq<Name>) returns (kept: map<Name, Option<seq<Name>>>)
      requires names == []
      modifies this
      ensures names == Kept(defs, mentions)
      ensures Distinct(names) && forall x :: x in names <==> Reachable(defs, mentions, x)
      ensures forall x :: x in kept <==> Reachable(defs, mentions, x)
      ensures forall x :: x in kept ==> kept[x] == if x in defs then Some(defs[x]) else None
    {
      hide Visit, Reachable, Mentions;
      for i := 0 to |mentions|
        invariant Firsts(mentions[i..], names) == Firsts(mentions, [])
      {
        assert mentions[i..][1..] == mentions[i + 1..];
        if mentions[i] !in names {
          names := names + [mentions[i]];
        }
      }
      ghost var starts := names;
      kept := map[];
      KeptIsReachable(defs, mentions);
      if |names| > 0 {
        var n := |names|;
        assert starts[0..] == starts;
        for i := 0 to n
          invariant starts <= names
          invariant Sweep(defs, starts[i..], names) == Sweep(defs, starts, starts)
        {
          assert starts[i..][1..] == starts[i + 1..];
          Collect(defs, names[i]);
        }
        for i := 0 to |names|
          invariant forall x :: x in kept <==> x in names[..i]
          invariant forall x :: x in kept ==> kept[x] == if x in defs then Some(defs[x]) else None
        {
          kept := kept[names[i] := if names[i] in defs then Some(defs[names[i]]) else None];
        }
        assert names[..|names|] == names;
      }
    }
  }
}
