/**
 The tree of a model's properties: references to other definitions are expanded in
 place, unless they are already on the way from the root.

 The definitions are a list, since the loop over them goes on after it has met the one
 it looks for, and a dictionary changes what it looks for.  `Run` is the recursion of
 the source with a bound on its depth, since on some definitions it has no end.
 */
module Expansion {
  import opened Options

  type Name = string

  datatype Property = Property(name: string, typ: Option<string>, ref: Option<Name>)

  /** A definition with properties, one with additional properties of one type, or any other. */
  datatype Definition =
    | Model(properties: seq<Property>)
    | Dictionary(ref: Option<Name>, title: string)
    | Other

  datatype Named = Named(name: Name, definition: Definition)

  /** The definitions in the order they are enumerated. */
  type Definitions = seq<Named>

  datatype Node = Node(name: string, typ: Option<string>, parentTypes: seq<Name>, level: nat,
                       schema: bool, schemaValue: Option<Name>, children: seq<Node>)

  predicate IsBasic(t: Name) {
    t in {"string", "integer", "number", "object", "boolean", "int32", "int64", "float", "double"}
  }

  /** The reference that is followed from a property: one to a model, or the basic item type of an array. */
  function Followed(u: Property): Option<Name> {
    if u.ref.Some? && !IsBasic(u.ref.value) then u.ref
    else if u.typ == Some("array") && u.ref.Some? && u.ref.value != "" then u.ref
    else None
  }

  function PropertyNode(u: Property, path: seq<Name>, level: nat): Node {
    Node(u.name, if u.typ != Some("array") && u.ref.Some? && u.ref.value != "" then u.ref else u.typ, path, level,
         u.ref.Some? && !IsBasic(u.ref.value), Followed(u), [])
  }

  /** The child of a dictionary starts its path anew at the root model. */
  function DictionaryNode(root: Name, ref: Option<Name>, title: string): Node {
    var typ := if ref.Some? then ref else Some(title);
    Node("additionalProperty1", typ, [root], 1, true, typ, [])
  }

  // -------------------------------------------------------------------- the loop

  /** One child that a node gets: for a property of the definition `owner`, or for a dictionary. */
  datatype Step = ForProperty(owner: Name, u: Property) | ForDictionary(ref: Option<Name>, title: string)

  function ForProperties(owner: Name, us: seq<Property>): (r: seq<Step>)
    ensures |r| == |us| && forall i :: 0 <= i < |us| ==> r[i] == ForProperty(owner, us[i])
  {
    if us == [] then [] else [ForProperty(owner, us[0])] + ForProperties(owner, us[1..])
  }

  /**
   The children that the loop makes from the `i`-th definition on while it looks for
   `n`.  After a dictionary it looks for that dictionary's target, so a target that
   stands later in the list adds its own children to the same node.
   */
  function StepsFrom(defs: Definitions, i: nat, n: Option<Name>): seq<Step>
    requires i <= |defs|
    decreases |defs| - i
  {
    if i == |defs| then []
    else if n != Some(defs[i].name) then StepsFrom(defs, i + 1, n)
    else
      match defs[i].definition
      case Other => StepsFrom(defs, i + 1, n)
      case Model(us) => ForProperties(defs[i].name, us) + StepsFrom(defs, i + 1, n)
      case Dictionary(ref, title) => [ForDictionary(ref, title)] + StepsFrom(defs, i + 1, ref)
  }

  function Steps(defs: Definitions, d: Name): seq<Step> {
    StepsFrom(defs, 0, Some(d))
  }

  function StepFollowed(s: Step): Option<Name> {
    if s.ForProperty? then Followed(s.u) else s.ref
  }

  /** The node for a step below a node on `path`, without its children. */
  function StepNode(root: Name, s: Step, path: seq<Name>, level: nat): Node {
    match s
    case ForProperty(owner, u) => PropertyNode(u, path + [owner], level + 1)
    case ForDictionary(ref, title) => DictionaryNode(root, ref, title)
  }

  /** `Ae`: the nodes that a node on `path` gets for definition `d`; `None` when the recursion goes deeper than `fuel`. */
  function Run(defs: Definitions, root: Name, d: Name, path: seq<Name>, level: nat, fuel: nat): Option<seq<Node>>
    decreases fuel, 0, 0
  {
    if fuel == 0 then None else RunSteps(defs, root, Steps(defs, d), path, level, fuel - 1)
  }

  function RunSteps(defs: Definitions, root: Name, ss: seq<Step>, path: seq<Name>, level: nat, fuel: nat): Option<seq<Node>>
    decreases fuel, 2, |ss|
  {
    if ss == [] then Some([])
    else
      match RunStep(defs, root, ss[0], path, level, fuel)
      case None => None
      case Some(n) =>
        match RunSteps(defs, root, ss[1..], path, level, fuel)
        case None => None
        case Some(rest) => Some([n] + rest)
  }

  /** One node with its children: those of the definition it follows, unless that is on its path. */
  function RunStep(defs: Definitions, root: Name, s: Step, path: seq<Name>, level: nat, fuel: nat): Option<Node>
    decreases fuel, 1, 0
  {
    var n := StepNode(root, s, path, level);
    match StepFollowed(s)
    case None => Some(n)
    case Some(r) =>
      if r in n.parentTypes then Some(n)
      else
        match Run(defs, root, r, n.parentTypes, n.level, fuel)
        case None => None
        case Some(children) => Some(n.(children := children))
  }

  // ---------------------------------------------------------- the calls as a graph

  function Elements(path: seq<Name>): set<Name> {
    set x | x in path
  }

  /** What the recursion depends on: the definition, and the names on the path. */
  datatype State = State(d: Name, names: set<Name>)

  function NamesAfter(root: Name, s: Step, names: set<Name>): set<Name> {
    if s.ForProperty? then names + {s.owner} else {root}
  }

  /** The step makes the recursive call for `b` from a node with these names on its path. */
  predicate StepCalls(root: Name, s: Step, names: set<Name>, b: State) {
    StepFollowed(s) == Some(b.d) && b.names == NamesAfter(root, s, names) && b.d !in b.names
  }

  predicate Calls(defs: Definitions, root: Name, a: State, b: State) {
    exists i :: 0 <= i < |Steps(defs, a.d)| && StepCalls(root, Steps(defs, a.d)[i], a.names, b)
  }

  /** A chain of nested calls. */
  predicate Nested(defs: Definitions, root: Name, p: seq<State>) {
    forall i :: 0 < i < |p| ==> Calls(defs, root, p[i - 1], p[i])
  }

  predicate ComesBack(defs: Definitions, root: Name, a: State, p: seq<State>) {
    && |p| > 1 && p[0] == a && Nested(defs, root, p)
    && exists i :: 0 <= i < |p| - 1 && p[i] == p[|p| - 1]
  }

  /** The calls nested below a state are at most `fuel` deep. */
  ghost predicate Ends(defs: Definitions, root: Name, a: State, fuel: nat)
    decreases fuel
  {
    fuel > 0 && forall b :: Calls(defs, root, a, b) ==> Ends(defs, root, b, fuel - 1)
  }

  lemma StepNodeNames(root: Name, s: Step, path: seq<Name>, level: nat)
    ensures Elements(StepNode(root, s, path, level).parentTypes) == NamesAfter(root, s, Elements(path))
    ensures StepNode(root, s, path, level).children == []
  {
    if s.ForProperty? {
      assert forall x :: x in path + [s.owner] <==> x in path || x == s.owner;
    }
  }

  /** The recursion on a node is a recursion on its state. */
  lemma {:induction false} RunIsEnds(defs: Definitions, root: Name, d: Name, path: seq<Name>, level: nat, fuel: nat)
    ensures Run(defs, root, d, path, level, fuel).Some? <==> Ends(defs, root, State(d, Elements(path)), fuel)
    decreases fuel, 0
  {
    if fuel > 0 {
      var a, ss := State(d, Elements(path)), Steps(defs, d);
      StepsEnd(defs, root, ss, path, level, fuel - 1);
      if forall i :: 0 <= i < |ss| ==> StepEnds(defs, root, ss[i], a.names, fuel - 1) {
        forall b | Calls(defs, root, a, b)
          ensures Ends(defs, root, b, fuel - 1)
        {
          var i :| 0 <= i < |ss| && StepCalls(root, ss[i], a.names, b);
          assert StepEnds(defs, root, ss[i], a.names, fuel - 1);
        }
      } else {
        var i :| 0 <= i < |ss| && !StepEnds(defs, root, ss[i], a.names, fuel - 1);
        var b :| StepCalls(root, ss[i], a.names, b) && !Ends(defs, root, b, fuel - 1);
        assert Calls(defs, root, a, b);
      }
    }
  }

  ghost predicate StepEnds(defs: Definitions, root: Name, s: Step, names: set<Name>, fuel: nat) {
    forall b :: StepCalls(root, s, names, b) ==> Ends(defs, root, b, fuel)
  }

  lemma {:induction false} StepsEnd(defs: Definitions, root: Name, ss: seq<Step>, path: seq<Name>, level: nat, fuel: nat)
    ensures RunSteps(defs, root, ss, path, level, fuel).Some? <==>
            forall i :: 0 <= i < |ss| ==> StepEnds(defs, root, ss[i], Elements(path), fuel)
    decreases fuel, |ss| + 1
  {
    hide Ends, Steps, StepNode, NamesAfter;
    if ss == [] {
    } else {
      var s, n := ss[0], StepNode(root, ss[0], path, level);
      StepNodeNames(root, s, path, level);
      if StepFollowed(s).Some? && StepFollowed(s).value !in n.parentTypes {
        var b := State(StepFollowed(s).value, Elements(n.parentTypes));
        RunIsEnds(defs, root, b.d, n.parentTypes, n.level, fuel);
        assert StepCalls(root, s, Elements(path), b);
        assert forall c :: StepCalls(root, s, Elements(path), c) ==> c == b;
      }
      StepsEnd(defs, root, ss[1..], path, level, fuel);
      assert forall i :: 0 < i < |ss| ==> ss[i] == ss[1..][i - 1];
    }
  }

  // ------------------------------------------------------------------ when it ends

  lemma {:induction false} MoreEnds(defs: Definitions, root: Name, a: State, f: nat, g: nat)
    requires Ends(defs, root, a, f) && f <= g
    ensures Ends(defs, root, a, g)
    decreases f
  {
    forall b | Calls(defs, root, a, b)
      ensures Ends(defs, root, b, g - 1)
    {
      MoreEnds(defs, root, b, f - 1, g - 1);
    }
  }

  /** Calls nested in calls that end do so sooner. */
  lemma {:induction false} EndsDown(defs: Definitions, root: Name, p: seq<State>, i: nat, fuel: nat)
    requires Nested(defs, root, p) && i < |p| && Ends(defs, root, p[0], fuel)
    ensures i < fuel && Ends(defs, root, p[i], fuel - i)
  {
    if i == 0 {
    } else {
      EndsDown(defs, root, p, i - 1, fuel);
      assert Calls(defs, root, p[i - 1], p[i]);
    }
  }

  lemma {:induction false} LoopNeverEnds(defs: Definitions, root: Name, q: seq<State>, fuel: nat)
    requires |q| > 1 && q[0] == q[|q| - 1] && Nested(defs, root, q)
    ensures !Ends(defs, root, q[0], fuel)
    decreases fuel
  {
    if Ends(defs, root, q[0], fuel) {
      EndsDown(defs, root, q, |q| - 1, fuel);
      LoopNeverEnds(defs, root, q, fuel - (|q| - 1));
    }
  }

  lemma ComingBackNeverEnds(defs: Definitions, root: Name, a: State, p: seq<State>, fuel: nat)
    requires ComesBack(defs, root, a, p)
    ensures !Ends(defs, root, a, fuel)
  {
    hide Ends, Calls;
    if Ends(defs, root, a, fuel) {
      var i :| 0 <= i < |p| - 1 && p[i] == p[|p| - 1];
      EndsDown(defs, root, p, i, fuel);
      LoopNeverEnds(defs, root, p[i..], fuel - i);
    }
  }

  function DefinedNames(defs: Definitions): set<Name> {
    set i | 0 <= i < |defs| :: defs[i].name
  }

  lemma {:induction false} StepsKnown(defs: Definitions, i: nat, n: Option<Name>)
    requires i <= |defs|
    ensures n.None? || n.value !in DefinedNames(defs) ==> StepsFrom(defs, i, n) == []
    ensures forall k :: 0 <= k < |StepsFrom(defs, i, n)| && StepsFrom(defs, i, n)[k].ForProperty? ==>
              StepsFrom(defs, i, n)[k].owner in DefinedNames(defs)
    decreases |defs| - i
  {
    if i == |defs| {
    } else {
      assert defs[i].name in DefinedNames(defs);
      StepsKnown(defs, i + 1, n);
      if n == Some(defs[i].name) && defs[i].definition.Dictionary? {
        StepsKnown(defs, i + 1, defs[i].definition.ref);
      }
    }
  }

  /** The names that can come to stand on a path. */
  function Base(defs: Definitions, root: Name, names: set<Name>): set<Name> {
    names + DefinedNames(defs) + {root}
  }

  lemma CallNames(defs: Definitions, root: Name, a: State, b: State, base: set<Name>)
    requires Calls(defs, root, a, b) && a.names <= base && DefinedNames(defs) <= base && root in base
    ensures b.names <= base
  {
    StepsKnown(defs, 0, Some(a.d));
  }

  /** The states in which something can be called. */
  ghost function Space(defs: Definitions, base: set<Name>): set<State> {
    set d, names | d in DefinedNames(defs) && names <= base :: State(d, names)
  }

  function Visited(p: seq<State>): set<State> {
    set a | a in p
  }

  ghost predicate NoReturn(defs: Definitions, root: Name, a: State) {
    forall p :: !ComesBack(defs, root, a, p)
  }

  /** A chain of calls that cannot come back is followed to all its ends; the states left are fewer each time. */
  lemma {:induction false} NoReturnEnds(defs: Definitions, root: Name, p: seq<State>, base: set<Name>) returns (fuel: nat)
    requires p != [] && Nested(defs, root, p) && NoReturn(defs, root, p[0])
    requires p[|p| - 1].names <= base && DefinedNames(defs) <= base && root in base
    ensures Ends(defs, root, p[|p| - 1], fuel)
    decreases Space(defs, base) - Visited(p[..|p| - 1]), 1, 0
  {
    var a := p[|p| - 1];
    if a.d in DefinedNames(defs) {
      NotVisited(defs, root, p);
      var f := NoReturnSteps(defs, root, p, base, 0);
      fuel := f + 1;
      AllStepsEnd(defs, root, a, f);
    } else {
      fuel := 1;
      StepsKnown(defs, 0, Some(a.d));
    }
  }

  lemma AllStepsEnd(defs: Definitions, root: Name, a: State, fuel: nat)
    requires forall i :: 0 <= i < |Steps(defs, a.d)| ==> StepEnds(defs, root, Steps(defs, a.d)[i], a.names, fuel)
    ensures Ends(defs, root, a, fuel + 1)
  {
    forall b | Calls(defs, root, a, b)
      ensures Ends(defs, root, b, fuel)
    {
      var i :| 0 <= i < |Steps(defs, a.d)| && StepCalls(root, Steps(defs, a.d)[i], a.names, b);
      assert StepEnds(defs, root, Steps(defs, a.d)[i], a.names, fuel);
    }
  }

  lemma NotVisited(defs: Definitions, root: Name, p: seq<State>)
    requires p != [] && Nested(defs, root, p) && NoReturn(defs, root, p[0])
    ensures p[|p| - 1] !in p[..|p| - 1]
  {
    hide Calls;
    forall i | 0 <= i < |p| - 1
      ensures p[i] != p[|p| - 1]
    {
      MetAgain(defs, root, p, i);
    }
  }

  lemma MetAgain(defs: Definitions, root: Name, p: seq<State>, i: nat)
    requires i < |p| - 1 && Nested(defs, root, p)
    ensures p[i] == p[|p| - 1] ==> ComesBack(defs, root, p[0], p)
  {
  }

  lemma {:induction false} NoReturnSteps(defs: Definitions, root: Name, p: seq<State>, base: set<Name>, i: nat) returns (fuel: nat)
    requires p != [] && Nested(defs, root, p) && NoReturn(defs, root, p[0])
    requires p[|p| - 1].names <= base && DefinedNames(defs) <= base && root in base
    requires p[|p| - 1].d in DefinedNames(defs) && p[|p| - 1] !in p[..|p| - 1]
    requires i <= |Steps(defs, p[|p| - 1].d)|
    ensures var a := p[|p| - 1];
            forall j :: i <= j < |Steps(defs, a.d)| ==> StepEnds(defs, root, Steps(defs, a.d)[j], a.names, fuel)
    decreases Space(defs, base) - Visited(p[..|p| - 1]), 0, |Steps(defs, p[|p| - 1].d)| - i
  {
    hide Ends, Steps, Space;
    var a := p[|p| - 1];
    var ss := Steps(defs, a.d);
    fuel := 0;
    if i == |ss| {
    } else {
      var s := ss[i];
      var rest := NoReturnSteps(defs, root, p, base, i + 1);
      var f := 0;
      if StepFollowed(s).Some? && StepFollowed(s).value !in NamesAfter(root, s, a.names) {
        var b := State(StepFollowed(s).value, NamesAfter(root, s, a.names));
        assert StepCalls(root, s, a.names, b);
        assert Calls(defs, root, a, b);
        CallNames(defs, root, a, b, base);
        FewerLeft(defs, p, base);
        assert (p + [b])[..|p|] == p;
        f := NoReturnEnds(defs, root, p + [b], base);
        assert forall c :: StepCalls(root, s, a.names, c) ==> c == b;
      }
      fuel := if f <= rest then rest else f;
      forall j, b | i <= j < |ss| && StepCalls(root, ss[j], a.names, b)
        ensures Ends(defs, root, b, fuel)
      {
        if j == i {
          MoreEnds(defs, root, b, f, fuel);
        } else {
          assert StepEnds(defs, root, ss[j], a.names, rest);
          MoreEnds(defs, root, b, rest, fuel);
        }
      }
    }
  }

  lemma FewerLeft(defs: Definitions, p: seq<State>, base: set<Name>)
    requires p != [] && p[|p| - 1].names <= base && p[|p| - 1].d in DefinedNames(defs) && p[|p| - 1] !in p[..|p| - 1]
    ensures Space(defs, base) - Visited(p) < Space(defs, base) - Visited(p[..|p| - 1])
  {
    var a := p[|p| - 1];
    assert State(a.d, a.names) == a;
    assert a in Space(defs, base) && a in Visited(p);
    assert forall x :: x in p[..|p| - 1] ==> x in p;
  }

  /**
   The recursion of the source ends exactly when no chain of nested calls comes back to
   a definition with the same names on its path.
   */
  lemma EndsIff(defs: Definitions, root: Name, d: Name, path: seq<Name>, level: nat)
    ensures (exists fuel: nat :: Run(defs, root, d, path, level, fuel).Some?) <==> NoReturn(defs, root, State(d, Elements(path)))
  {
    hide Run, Ends, ComesBack;
    var a := State(d, Elements(path));
    if NoReturn(defs, root, a) {
      OneState(defs, root, a);
      var fuel := NoReturnEnds(defs, root, [a], Base(defs, root, a.names));
      RunIsEnds(defs, root, d, path, level, fuel);
    }
    forall fuel: nat, p | Run(defs, root, d, path, level, fuel).Some? && ComesBack(defs, root, a, p)
      ensures false
    {
      RunIsEnds(defs, root, d, path, level, fuel);
      ComingBackNeverEnds(defs, root, a, p, fuel);
    }
  }

  lemma OneState(defs: Definitions, root: Name, a: State)
    ensures Nested(defs, root, [a])
  {
  }

  // ------------------------------------------------------------ what the tree looks like

  /**
   A node that stands for reference `r` is fully expanded: it has the child of each step
   of the loop, in order, and none exactly where the reference is on its path or leads
   to no steps; and so on below.
   */
  predicate Expanded(defs: Definitions, root: Name, n: Node, r: Option<Name>)
    decreases n
  {
    if r.None? || r.value in n.parentTypes then n.children == []
    else
      var ss := Steps(defs, r.value);
      && |n.children| == |ss|
      && forall i :: 0 <= i < |ss| ==>
           && n.children[i].(children := []) == StepNode(root, ss[i], n.parentTypes, n.level)
           && Expanded(defs, root, n.children[i], StepFollowed(ss[i]))
  }

  lemma {:induction false} RunStepsAt(defs: Definitions, root: Name, ss: seq<Step>, path: seq<Name>, level: nat, fuel: nat, i: nat)
    requires RunSteps(defs, root, ss, path, level, fuel).Some? && i < |ss|
    ensures |RunSteps(defs, root, ss, path, level, fuel).value| == |ss|
    ensures Some(RunSteps(defs, root, ss, path, level, fuel).value[i]) == RunStep(defs, root, ss[i], path, level, fuel)
  {
    RunStepsLength(defs, root, ss, path, level, fuel);
    if i == 0 {
    } else {
      RunStepsAt(defs, root, ss[1..], path, level, fuel, i - 1);
    }
  }

  lemma {:induction false} RunStepsLength(defs: Definitions, root: Name, ss: seq<Step>, path: seq<Name>, level: nat, fuel: nat)
    requires RunSteps(defs, root, ss, path, level, fuel).Some?
    ensures |RunSteps(defs, root, ss, path, level, fuel).value| == |ss|
  {
    if ss == [] {
    } else {
      RunStepsLength(defs, root, ss[1..], path, level, fuel);
    }
  }

  lemma SameNode(n: Node, m: Node)
    requires m.children == [] && n.(children := []) == m
    ensures n.parentTypes == m.parentTypes && n.level == m.level && n == m.(children := n.children)
  {
    assert n == n.(children := []).(children := n.children);
    assert n.parentTypes == n.(children := []).parentTypes && n.level == n.(children := []).level;
  }

  /** What the recursion builds is fully expanded. */
  lemma {:induction false} RunExpands(defs: Definitions, root: Name, n: Node, r: Name, fuel: nat)
    requires r !in n.parentTypes && Run(defs, root, r, n.parentTypes, n.level, fuel) == Some(n.children)
    ensures Expanded(defs, root, n, Some(r))
    decreases fuel
  {
    hide Steps, StepNode, StepFollowed;
    var ss := Steps(defs, r);
    RunStepsLength(defs, root, ss, n.parentTypes, n.level, fuel - 1);
    forall i | 0 <= i < |ss|
      ensures n.children[i].(children := []) == StepNode(root, ss[i], n.parentTypes, n.level)
      ensures Expanded(defs, root, n.children[i], StepFollowed(ss[i]))
    {
      RunStepsAt(defs, root, ss, n.parentTypes, n.level, fuel - 1, i);
      StepNodeNames(root, ss[i], n.parentTypes, n.level);
      var m, c := StepNode(root, ss[i], n.parentTypes, n.level), n.children[i];
      assert c == m.(children := c.children) && m == m.(children := []);
      if StepFollowed(ss[i]).Some? && StepFollowed(ss[i]).value !in m.parentTypes {
        RunExpands(defs, root, c, StepFollowed(ss[i]).value, fuel - 1);
      }
    }
  }

  lemma {:induction false} MoreFuel(defs: Definitions, root: Name, d: Name, path: seq<Name>, level: nat, f: nat, g: nat)
    requires Run(defs, root, d, path, level, f).Some? && f <= g
    ensures Run(defs, root, d, path, level, g) == Run(defs, root, d, path, level, f)
    decreases f, 0
  {
    MoreFuelSteps(defs, root, Steps(defs, d), path, level, f - 1, g - 1);
  }

  lemma {:induction false} MoreFuelSteps(defs: Definitions, root: Name, ss: seq<Step>, path: seq<Name>, level: nat, f: nat, g: nat)
    requires RunSteps(defs, root, ss, path, level, f).Some? && f <= g
    ensures RunSteps(defs, root, ss, path, level, g) == RunSteps(defs, root, ss, path, level, f)
    decreases f, |ss| + 2
  {
    if ss == [] {
    } else {
      MoreFuelStep(defs, root, ss[0], path, level, f, g);
      MoreFuelSteps(defs, root, ss[1..], path, level, f, g);
    }
  }

  lemma {:induction false} MoreFuelStep(defs: Definitions, root: Name, s: Step, path: seq<Name>, level: nat, f: nat, g: nat)
    requires RunStep(defs, root, s, path, level, f).Some? && f <= g
    ensures RunStep(defs, root, s, path, level, g) == RunStep(defs, root, s, path, level, f)
    decreases f, 1
  {
    var n := StepNode(root, s, path, level);
    if StepFollowed(s).Some? && StepFollowed(s).value !in n.parentTypes {
      MoreFuel(defs, root, StepFollowed(s).value, n.parentTypes, n.level, f, g);
    }
  }

  /** Any finite fully expanded tree is the one the recursion builds. */
  lemma {:induction false} ExpandedIsRun(defs: Definitions, root: Name, n: Node, r: Name) returns (fuel: nat)
    requires Expanded(defs, root, n, Some(r)) && r !in n.parentTypes
    ensures Run(defs, root, r, n.parentTypes, n.level, fuel) == Some(n.children)
    decreases n, 1, 0
  {
    var f := ExpandedIsRunFrom(defs, root, n, r, 0);
    assert Steps(defs, r)[0..] == Steps(defs, r) && n.children[0..] == n.children;
    fuel := f + 1;
  }

  lemma {:induction false} ExpandedIsRunFrom(defs: Definitions, root: Name, n: Node, r: Name, i: nat) returns (fuel: nat)
    requires Expanded(defs, root, n, Some(r)) && r !in n.parentTypes && i <= |Steps(defs, r)|
    ensures |n.children| == |Steps(defs, r)|
    ensures RunSteps(defs, root, Steps(defs, r)[i..], n.parentTypes, n.level, fuel) == Some(n.children[i..])
    decreases n, 0, |Steps(defs, r)| - i
  {
    hide Steps, StepNode, StepFollowed, RunStep;
    var ss := Steps(defs, r);
    fuel := 0;
    if i == |ss| {
      assert ss[i..] == [] && n.children[i..] == [];
    } else {
      var c := n.children[i];
      assert Expanded(defs, root, c, StepFollowed(ss[i]));
      var f := ExpandedIsRunStep(defs, root, c, ss[i], n.parentTypes, n.level);
      var g := ExpandedIsRunFrom(defs, root, n, r, i + 1);
      fuel := if f <= g then g else f;
      MoreFuelStep(defs, root, ss[i], n.parentTypes, n.level, f, fuel);
      MoreFuelSteps(defs, root, ss[i + 1..], n.parentTypes, n.level, g, fuel);
      assert ss[i..][1..] == ss[i + 1..] && n.children[i..] == [c] + n.children[i + 1..];
    }
  }

  lemma {:induction false} ExpandedIsRunStep(defs: Definitions, root: Name, c: Node, s: Step, path: seq<Name>, level: nat) returns (fuel: nat)
    requires Expanded(defs, root, c, StepFollowed(s)) && c.(children := []) == StepNode(root, s, path, level)
    ensures RunStep(defs, root, s, path, level, fuel) == Some(c)
    decreases c, 2, 0
  {
    hide Steps, StepNode, StepFollowed;
    StepNodeNames(root, s, path, level);
    SameNode(c, StepNode(root, s, path, level));
    fuel := 0;
    if StepFollowed(s).Some? && StepFollowed(s).value !in c.parentTypes {
      fuel := ExpandedIsRun(defs, root, c, StepFollowed(s).value);
    }
  }

  // ------------------------------------------------------- definitions on one path

  /** The last name on the path of a node is not on it before. */
  predicate NewName(n: Node) {
    n.parentTypes != [] && n.parentTypes[|n.parentTypes| - 1] !in n.parentTypes[..|n.parentTypes| - 1]
  }

  /** Below the node no definition is expanded twice on one path. */
  predicate Repeatless(n: Node) {
    forall i :: 0 <= i < |n.children| ==> NewName(n.children[i]) && Repeatless(n.children[i])
  }

  /** A definition on the path is gone through again: it is the target of a dictionary that stands before it. */
  predicate GoesBack(defs: Definitions, a: State) {
    exists i :: 0 <= i < |Steps(defs, a.d)| && Steps(defs, a.d)[i].ForProperty? && Steps(defs, a.d)[i].owner in a.names
  }

  predicate LeadsBack(defs: Definitions, root: Name, a: State, p: seq<State>) {
    p != [] && p[0] == a && Nested(defs, root, p) && GoesBack(defs, p[|p| - 1])
  }

  lemma StepNewName(root: Name, s: Step, path: seq<Name>, level: nat)
    ensures NewName(StepNode(root, s, path, level)) <==> !(s.ForProperty? && s.owner in Elements(path))
  {
    if s.ForProperty? {
      assert (path + [s.owner])[..|path|] == path;
    }
  }

  /** A repeated definition in the tree comes from calls that go back. */
  lemma {:induction false} RepeatLeadsBack(defs: Definitions, root: Name, n: Node, r: Name) returns (p: seq<State>)
    requires Expanded(defs, root, n, Some(r)) && r !in n.parentTypes && !Repeatless(n)
    ensures LeadsBack(defs, root, State(r, Elements(n.parentTypes)), p)
    decreases n
  {
    hide Steps, StepNode, StepFollowed, NamesAfter, NewName;
    var ss, a := Steps(defs, r), State(r, Elements(n.parentTypes));
    var i :| 0 <= i < |n.children| && !(NewName(n.children[i]) && Repeatless(n.children[i]));
    var c, s := n.children[i], ss[i];
    StepNodeNames(root, s, n.parentTypes, n.level);
    StepNewName(root, s, n.parentTypes, n.level);
    SameNode(c, StepNode(root, s, n.parentTypes, n.level));
    NewNameSame(c, StepNode(root, s, n.parentTypes, n.level));
    if NewName(c) {
      assert Expanded(defs, root, c, StepFollowed(s));
      var q := RepeatLeadsBack(defs, root, c, StepFollowed(s).value);
      assert StepCalls(root, ss[i], a.names, q[0]);
      assert Calls(defs, root, a, q[0]);
      p := [a] + q;
      NestedCons(defs, root, a, q);
    } else {
      p := [a];
      assert ss[i].ForProperty? && ss[i].owner in a.names;
    }
  }

  lemma NewNameSame(n: Node, m: Node)
    requires n.parentTypes == m.parentTypes
    ensures NewName(n) == NewName(m)
  {
  }

  lemma NestedCons(defs: Definitions, root: Name, a: State, q: seq<State>)
    requires q != [] && Nested(defs, root, q) && Calls(defs, root, a, q[0])
    ensures Nested(defs, root, [a] + q)
  {
    hide Calls;
    var p := [a] + q;
    forall i | 0 < i < |p|
      ensures Calls(defs, root, p[i - 1], p[i])
    {
      assert i > 1 ==> p[i - 1] == q[i - 2] && Calls(defs, root, q[i - 2], q[i - 1]);
    }
  }

  /** And calls that go back leave a repeated definition in the tree. */
  lemma {:induction false} LeadsBackRepeats(defs: Definitions, root: Name, n: Node, r: Name, p: seq<State>)
    requires Expanded(defs, root, n, Some(r)) && r !in n.parentTypes
    requires LeadsBack(defs, root, State(r, Elements(n.parentTypes)), p)
    ensures !Repeatless(n)
    decreases |p|
  {
    hide Steps, StepNode, StepFollowed, NamesAfter, NewName;
    var ss, a := Steps(defs, r), p[0];
    if |p| == 1 {
      var i :| 0 <= i < |ss| && ss[i].ForProperty? && ss[i].owner in a.names;
      StepNewName(root, ss[i], n.parentTypes, n.level);
      StepNodeNames(root, ss[i], n.parentTypes, n.level);
      SameNode(n.children[i], StepNode(root, ss[i], n.parentTypes, n.level));
      NewNameSame(n.children[i], StepNode(root, ss[i], n.parentTypes, n.level));
    } else {
      assert Calls(defs, root, p[0], p[1]);
      var i :| 0 <= i < |ss| && StepCalls(root, ss[i], a.names, p[1]);
      var c := n.children[i];
      StepNodeNames(root, ss[i], n.parentTypes, n.level);
      SameNode(c, StepNode(root, ss[i], n.parentTypes, n.level));
      assert Expanded(defs, root, c, StepFollowed(ss[i]));
      NestedTail(defs, root, p);
      LeadsBackRepeats(defs, root, c, p[1].d, p[1..]);
    }
  }

  lemma NestedTail(defs: Definitions, root: Name, p: seq<State>)
    requires |p| > 1 && Nested(defs, root, p)
    ensures Nested(defs, root, p[1..])
  {
    hide Calls;
    forall i | 0 < i < |p[1..]|
      ensures Calls(defs, root, p[1..][i - 1], p[1..][i])
    {
      assert Calls(defs, root, p[i], p[i + 1]);
    }
  }

  /**
   In a finite expanded tree no definition is expanded twice on one path, exactly when no
   chain of nested calls goes back, through a dictionary that stands before its target,
   to a definition on the path.  The child of a dictionary starts a new path.
   */
  lemma RepeatlessIff(defs: Definitions, root: Name, n: Node, r: Name)
    requires Expanded(defs, root, n, Some(r)) && r !in n.parentTypes
    ensures Repeatless(n) <==> !exists p :: LeadsBack(defs, root, State(r, Elements(n.parentTypes)), p)
  {
    hide Expanded, Repeatless, LeadsBack;
    if Repeatless(n) {
      forall p
        ensures !LeadsBack(defs, root, State(r, Elements(n.parentTypes)), p)
      {
        if LeadsBack(defs, root, State(r, Elements(n.parentTypes)), p) {
          LeadsBackRepeats(defs, root, n, r, p);
        }
      }
    } else {
      var p := RepeatLeadsBack(defs, root, n, r);
    }
  }

  // ----------------------------------------------------------- without dictionaries

  predicate NoDictionaries(defs: Definitions) {
    forall i :: 0 <= i < |defs| ==> !defs[i].definition.Dictionary?
  }

  lemma {:induction false} OwnSteps(defs: Definitions, i: nat, d: Name)
    requires NoDictionaries(defs) && i <= |defs|
    ensures forall k :: 0 <= k < |StepsFrom(defs, i, Some(d))| ==>
              StepsFrom(defs, i, Some(d))[k].ForProperty? && StepsFrom(defs, i, Some(d))[k].owner == d
    decreases |defs| - i
  {
    if i == |defs| {
    } else {
      OwnSteps(defs, i + 1, d);
    }
  }

  lemma {:induction false} NestedGrows(defs: Definitions, root: Name, p: seq<State>, i: nat)
    requires NoDictionaries(defs) && Nested(defs, root, p) && i < |p| && p[0].d !in p[0].names
    ensures p[i].d !in p[i].names
    ensures forall j :: 0 <= j < i ==> p[j].names < p[i].names
  {
    if i == 0 {
    } else {
      NestedGrows(defs, root, p, i - 1);
      assert Calls(defs, root, p[i - 1], p[i]);
      OwnSteps(defs, 0, p[i - 1].d);
    }
  }

  /** Without dictionaries the recursion ends on any graph of references, and no definition is expanded twice on one path. */
  lemma ModelsEnd(defs: Definitions, root: Name, d: Name, path: seq<Name>)
    requires NoDictionaries(defs) && d !in path
    ensures NoReturn(defs, root, State(d, Elements(path)))
    ensures forall p: seq<State> :: !LeadsBack(defs, root, State(d, Elements(path)), p)
  {
    hide Calls;
    var a := State(d, Elements(path));
    forall p: seq<State>
      ensures !ComesBack(defs, root, a, p) && !LeadsBack(defs, root, a, p)
    {
      if p != [] && p[0] == a && Nested(defs, root, p) {
        NestedGrows(defs, root, p, |p| - 1);
        OwnSteps(defs, 0, p[|p| - 1].d);
      }
    }
  }

  // --------------------------------------------------------------- how it fails

  /** A dictionary of itself under another root: the recursion has no end. */
  lemma SelfDictionaryLoops(root: Name, d: Name)
    requires root != d
    ensures !exists fuel: nat :: Run([Named(d, Dictionary(Some(d), ""))], root, d, [root], 1, fuel).Some?
  {
    hide Run, StepsFrom;
    var defs, a := [Named(d, Dictionary(Some(d), ""))], State(d, {root});
    assert Elements([root]) == {root};
    StepAt(defs, 0, Some(d));
    AtEnd(defs, Some(d));
    assert [ForDictionary(Some(d), "")] + [] == [ForDictionary(Some(d), "")];
    assert Steps(defs, d) == [ForDictionary(Some(d), "")];
    assert StepCalls(root, Steps(defs, d)[0], a.names, a);
    assert ComesBack(defs, root, a, [a, a]);
    EndsIff(defs, root, d, [root], 1);
  }

  /** A target that stands after its dictionary adds its properties to the same node, though it may be on the path. */
  lemma LaterTargetLoops()
    ensures var defs := [Named("D", Dictionary(Some("M"), "")), Named("M", Model([Property("p", None, Some("D"))]))];
            && |Steps(defs, "D")| == 2
            && !exists fuel: nat :: Run(defs, "M", "D", ["M"], 1, fuel).Some?
  {
    hide Run, StepsFrom, ForProperties;
    var u := Property("p", None, Some("D"));
    var defs, a := [Named("D", Dictionary(Some("M"), "")), Named("M", Model([u]))], State("D", {"M"});
    assert Elements(["M"]) == {"M"};
    OneProperty("M", u);
    StepAt(defs, 1, Some("M"));
    AtEnd(defs, Some("M"));
    StepAt(defs, 0, Some("D"));
    assert [ForProperty("M", u)] + [] == [ForProperty("M", u)];
    assert Steps(defs, "D") == [ForDictionary(Some("M"), ""), ForProperty("M", u)];
    assert "D" != "M";
    assert Followed(u) == Some("D");
    assert StepCalls("M", Steps(defs, "D")[1], a.names, a);
    assert ComesBack(defs, "M", a, [a, a]);
    EndsIff(defs, "M", "D", ["M"], 1);
  }

  /** A finite tree with a definition twice on one path: `c` on the way from `c` over `B` to the dictionary `D` of `c`. */
  lemma DictionaryRepeats()
    ensures var defs := [Named("D", Dictionary(Some("c"), "")), Named("c", Model([Property("x", None, Some("B"))])),
                         Named("B", Model([Property("y", None, Some("D"))]))];
            && Run(defs, "c", "c", [], 0, 3).Some?
            && forall n: Node :: n.parentTypes == [] && Expanded(defs, "c", n, Some("c")) ==> !Repeatless(n)
  {
    var u, w := Property("x", None, Some("B")), Property("y", None, Some("D"));
    var defs := [Named("D", Dictionary(Some("c"), "")), Named("c", Model([u])), Named("B", Model([w]))];
    var p := [State("c", {}), State("B", {"c"}), State("D", {"c", "B"})];
    RepeatSteps(defs, u, w);
    RepeatCalls(defs, u, w);
    RunIsEnds(defs, "c", "c", [], 0, 3);
    assert Elements([]) == {};
    assert GoesBack(defs, p[2]) by {
      assert Steps(defs, "D")[1].ForProperty?;
    }
    forall n: Node | n.parentTypes == [] && Expanded(defs, "c", n, Some("c"))
      ensures !Repeatless(n)
    {
      LeadsBackRepeats(defs, "c", n, "c", p);
    }
  }

  lemma RepeatSteps(defs: Definitions, u: Property, w: Property)
    requires defs == [Named("D", Dictionary(Some("c"), "")), Named("c", Model([u])), Named("B", Model([w]))]
    ensures Steps(defs, "c") == [ForProperty("c", u)] && Steps(defs, "B") == [ForProperty("B", w)]
    ensures Steps(defs, "D") == [ForDictionary(Some("c"), ""), ForProperty("c", u)]
  {
    hide StepsFrom, ForProperties;
    assert "c" != "D" && "c" != "B" && "B" != "D";
    OneProperty("c", u);
    OneProperty("B", w);
    StepAt(defs, 2, Some("B"));
    StepAt(defs, 2, Some("c"));
    StepAt(defs, 1, Some("B"));
    StepAt(defs, 1, Some("c"));
    StepAt(defs, 0, Some("B"));
    StepAt(defs, 0, Some("c"));
    StepAt(defs, 0, Some("D"));
    AtEnd(defs, Some("B"));
    AtEnd(defs, Some("c"));
    assert [ForProperty("c", u)] + [] == [ForProperty("c", u)] && [ForProperty("B", w)] + [] == [ForProperty("B", w)];
  }

  lemma OneProperty(owner: Name, u: Property)
    ensures ForProperties(owner, [u]) == [ForProperty(owner, u)]
  {
  }

  lemma AtEnd(defs: Definitions, n: Option<Name>)
    ensures StepsFrom(defs, |defs|, n) == []
  {
  }

  lemma StepAt(defs: Definitions, i: nat, n: Option<Name>)
    requires i < |defs|
    ensures n != Some(defs[i].name) ==> StepsFrom(defs, i, n) == StepsFrom(defs, i + 1, n)
    ensures n == Some(defs[i].name) && defs[i].definition.Model? ==>
              StepsFrom(defs, i, n) == ForProperties(defs[i].name, defs[i].definition.properties) + StepsFrom(defs, i + 1, n)
    ensures n == Some(defs[i].name) && defs[i].definition.Dictionary? ==>
              StepsFrom(defs, i, n)
              == [ForDictionary(defs[i].definition.ref, defs[i].definition.title)] + StepsFrom(defs, i + 1, defs[i].definition.ref)
  {
  }

  lemma RepeatCalls(defs: Definitions, u: Property, w: Property)
    requires Steps(defs, "c") == [ForProperty("c", u)] && Steps(defs, "B") == [ForProperty("B", w)]
    requires Steps(defs, "D") == [ForDictionary(Some("c"), ""), ForProperty("c", u)]
    requires u == Property("x", None, Some("B")) && w == Property("y", None, Some("D"))
    ensures Nested(defs, "c", [State("c", {}), State("B", {"c"}), State("D", {"c", "B"})])
    ensures Ends(defs, "c", State("c", {}), 3)
  {
    var a, b, c := State("c", {}), State("B", {"c"}), State("D", {"c", "B"});
    assert Followed(u) == Some("B") && Followed(w) == Some("D");
    assert "c" != "D" && "c" != "B" && "B" != "D";
    assert {} + {"c"} == {"c"} && {"c"} + {"B"} == {"c", "B"} && {"c", "B"} + {"c"} == {"c", "B"};
    assert StepCalls("c", Steps(defs, "c")[0], a.names, b) && Calls(defs, "c", a, b);
    assert StepCalls("c", Steps(defs, "B")[0], b.names, c) && Calls(defs, "c", b, c);
    assert forall s :: !Calls(defs, "c", c, s);
    assert Ends(defs, "c", c, 1);
    assert forall s :: Calls(defs, "c", b, s) ==> s == c;
    assert Ends(defs, "c", b, 2);
    assert forall s :: Calls(defs, "c", a, s) ==> s == b;
    assert Ends(defs, "c", a, 3);
  }
}
