/** The tree of a model as the source builds it, by appending children to nodes. */
module ExpansionTree {
  import opened Expansion
  import opened ExpansionLaws
  import opened Options

  class TreeNode {
    var name: string
    var typ: Option<string>
    var parentTypes: seq<Name>
    var level: nat
    var schema: bool
    var schemaValue: Option<Name>
    var children: seq<TreeNode>

    constructor (name: string, parentTypes: seq<Name>, level: nat)
      ensures this.name == name && typ == None && this.parentTypes == parentTypes && this.level == level
      ensures !schema && schemaValue == None && children == []
    {
      this.name, typ, this.parentTypes, this.level := name, None, parentTypes, level;
      schema, schemaValue, children := false, None, [];
    }
  }

  predicate SameFields(o: TreeNode, v: Node)
    reads o
  {
    o.name == v.name && o.typ == v.typ && o.parentTypes == v.parentTypes && o.level == v.level
    && o.schema == v.schema && o.schemaValue == v.schemaValue
  }

  /** The objects `os` and those below them, all in `R`, are the trees `vs`. */
  ghost predicate Shows(os: seq<TreeNode>, vs: seq<Node>, R: set<TreeNode>)
    reads R
    decreases vs
  {
    && |os| == |vs|
    && forall i :: 0 <= i < |os| ==> os[i] in R && SameFields(os[i], vs[i]) && Shows(os[i].children, vs[i].children, R)
  }

  lemma {:induction false} ShowsMore(os: seq<TreeNode>, vs: seq<Node>, R: set<TreeNode>, Q: set<TreeNode>)
    requires Shows(os, vs, R) && R <= Q
    ensures Shows(os, vs, Q)
    decreases vs
  {
    forall i | 0 <= i < |os|
      ensures os[i] in Q && SameFields(os[i], vs[i]) && Shows(os[i].children, vs[i].children, Q)
    {
      ShowsMore(os[i].children, vs[i].children, R, Q);
    }
  }

  lemma ShowsSnoc(os: seq<TreeNode>, vs: seq<Node>, o: TreeNode, v: Node, R: set<TreeNode>)
    requires Shows(os, vs, R) && o in R && SameFields(o, v) && Shows(o.children, v.children, R)
    ensures Shows(os + [o], vs + [v], R)
  {
    var ps, ws := os + [o], vs + [v];
    forall i | 0 <= i < |ps|
      ensures ps[i] in R && SameFields(ps[i], ws[i]) && Shows(ps[i].children, ws[i].children, R)
    {
      assert i < |os| ==> ps[i] == os[i] && ws[i] == vs[i];
    }
  }

  lemma ShowsNothing()
    ensures Shows([], [], {})
  {
  }

  lemma {:induction false} StepsJoin(defs: Definitions, root: Name, ss: seq<Step>, ts: seq<Step>, path: seq<Name>, level: nat, fuel: nat)
    requires RunSteps(defs, root, ss + ts, path, level, fuel).Some?
    ensures RunSteps(defs, root, ss, path, level, fuel).Some? && RunSteps(defs, root, ts, path, level, fuel).Some?
    ensures RunSteps(defs, root, ss + ts, path, level, fuel).value
         == RunSteps(defs, root, ss, path, level, fuel).value + RunSteps(defs, root, ts, path, level, fuel).value
  {
    hide RunStep;
    if ss == [] {
      assert ss + ts == ts;
    } else {
      assert (ss + ts)[0] == ss[0] && (ss + ts)[1..] == ss[1..] + ts;
      StepsJoin(defs, root, ss[1..], ts, path, level, fuel);
    }
  }

  /** Where the whole loop ends, so do the steps done and the next ones. */
  lemma NextSteps(defs: Definitions, root: Name, ss: seq<Step>, done: seq<Step>, more: seq<Step>, left: seq<Step>,
                  path: seq<Name>, level: nat, fuel: nat)
    requires RunSteps(defs, root, ss, path, level, fuel).Some? && ss == done + (more + left)
    ensures ss == done + more + left
    ensures RunSteps(defs, root, done, path, level, fuel).Some? && RunSteps(defs, root, more, path, level, fuel).Some?
    ensures RunSteps(defs, root, done + more, path, level, fuel)
         == Some(RunSteps(defs, root, done, path, level, fuel).value + RunSteps(defs, root, more, path, level, fuel).value)
  {
    hide RunStep, RunSteps;
    assert ss == (done + more) + left;
    StepsJoin(defs, root, done + more, left, path, level, fuel);
    StepsJoin(defs, root, done, more, path, level, fuel);
  }

  lemma OneStep(defs: Definitions, root: Name, s: Step, path: seq<Name>, level: nat, fuel: nat)
    requires RunSteps(defs, root, [s], path, level, fuel).Some?
    ensures RunStep(defs, root, s, path, level, fuel).Some?
    ensures RunSteps(defs, root, [s], path, level, fuel).value == [RunStep(defs, root, s, path, level, fuel).value]
  {
    hide RunStep;
    assert [s][1..] == [];
  }

  lemma NoSteps(defs: Definitions, root: Name, path: seq<Name>, level: nat, fuel: nat)
    ensures RunSteps(defs, root, [], path, level, fuel) == Some([])
  {
  }

  lemma ShowsJoin(os: seq<TreeNode>, vs: seq<Node>, Q: set<TreeNode>, ps: seq<TreeNode>, ws: seq<Node>, P: set<TreeNode>)
    requires Shows(os, vs, Q) && Shows(ps, ws, P)
    ensures Shows(os + ps, vs + ws, Q + P)
  {
    ShowsMore(os, vs, Q, Q + P);
    ShowsMore(ps, ws, P, Q + P);
    var xs, us := os + ps, vs + ws;
    forall i | 0 <= i < |xs|
      ensures xs[i] in Q + P && SameFields(xs[i], us[i]) && Shows(xs[i].children, us[i].children, Q + P)
    {
      assert i < |os| ==> xs[i] == os[i] && us[i] == vs[i];
      assert i >= |os| ==> xs[i] == ps[i - |os|] && us[i] == ws[i - |os|];
    }
  }

  lemma Grown(os: seq<TreeNode>, vs: seq<Node>, Q: set<TreeNode>, o: TreeNode, v: Node, P: set<TreeNode>)
    requires Shows(os, vs, Q) && o in P && SameFields(o, v) && Shows(o.children, v.children, P)
    ensures Shows(os + [o], vs + [v], Q + P)
  {
    hide Shows;
    ShowsMore(os, vs, Q, Q + P);
    ShowsMore(o.children, v.children, P, Q + P);
    ShowsSnoc(os, vs, o, v, Q + P);
  }

  lemma OneShown(o: TreeNode, v: Node, P: set<TreeNode>)
    requires SameFields(o, v) && Shows(o.children, v.children, P)
    ensures Shows([o], [v], P + {o})
  {
    hide Shows;
    ShowsNothing();
    ShowsMore(o.children, v.children, P, P + {o});
    Grown([], [], {}, o, v, P + {o});
    assert [] + [o] == [o] && [] + [v] == [v] && {} + (P + {o}) == P + {o};
  }

  /**
   `Ae` for definition `d`, where its recursion ends.  The loop goes on over all the
   definitions, and a dictionary changes the name it looks for.
   */
  method Expand(e: TreeNode, defs: Definitions, root: Name, d: Name, ghost fuel: nat) returns (ghost R: set<TreeNode>)
    requires Run(defs, root, d, e.parentTypes, e.level, fuel).Some?
    modifies e`children
    ensures fresh(R) && e !in R && |e.children| >= |old(e.children)| && e.children[..|old(e.children)|] == old(e.children)
    ensures Shows(e.children[|old(e.children)|..], Run(defs, root, d, e.parentTypes, e.level, fuel).value, R)
    decreases fuel, 0
  {
    hide RunSteps, RunStep, Shows, ForProperties;
    R := {};
    ghost var base, ss, done: seq<Step> := |e.children|, Steps(defs, d), [];
    NoSteps(defs, root, e.parentTypes, e.level, fuel - 1);
    ShowsNothing();
    assert e.children[base..] == [];
    var n := Some(d);
    for i := 0 to |defs|
      invariant e !in R && fresh(R) && |e.children| >= base && e.children[..base] == old(e.children)
      invariant ss == done + StepsFrom(defs, i, n)
      invariant RunSteps(defs, root, done, e.parentTypes, e.level, fuel - 1).Some?
      invariant Shows(e.children[base..], RunSteps(defs, root, done, e.parentTypes, e.level, fuel - 1).value, R)
    {
      if n == Some(defs[i].name) {
        match defs[i].definition {
          case Other =>
          case Model(us) =>
            ghost var more, before := ForProperties(defs[i].name, us), e.children;
            NextSteps(defs, root, ss, done, more, StepsFrom(defs, i + 1, n), e.parentTypes, e.level, fuel - 1);
            ghost var P := ExpandModel(e, defs, root, us, defs[i].name, fuel - 1);
            ShowsJoin(before[base..], RunSteps(defs, root, done, e.parentTypes, e.level, fuel - 1).value, R,
                      e.children[|before|..], RunSteps(defs, root, more, e.parentTypes, e.level, fuel - 1).value, P);
            assert e.children[base..] == before[base..] + e.children[|before|..];
            done, R := done + more, R + P;
          case Dictionary(ref, title) =>
            ghost var more, before := [ForDictionary(ref, title)], e.children;
            NextSteps(defs, root, ss, done, more, StepsFrom(defs, i + 1, ref), e.parentTypes, e.level, fuel - 1);
            ghost var P := ExpandDictionary(e, defs, root, ref, title, fuel - 1);
            ShowsJoin(before[base..], RunSteps(defs, root, done, e.parentTypes, e.level, fuel - 1).value, R,
                      e.children[|before|..], RunSteps(defs, root, more, e.parentTypes, e.level, fuel - 1).value, P);
            assert e.children[base..] == before[base..] + e.children[|before|..];
            done, R := done + more, R + P;
            n := ref;
        }
      }
    }
    assert done + [] == done;
  }

  /** The branch for a definition with properties. */
  method ExpandModel(e: TreeNode, defs: Definitions, root: Name, us: seq<Property>, owner: Name, ghost fuel: nat) returns (ghost R: set<TreeNode>)
    requires RunSteps(defs, root, ForProperties(owner, us), e.parentTypes, e.level, fuel).Some?
    modifies e`children
    ensures fresh(R) && e !in R && |e.children| >= |old(e.children)| && e.children[..|old(e.children)|] == old(e.children)
    ensures Shows(e.children[|old(e.children)|..],
                  RunSteps(defs, root, ForProperties(owner, us), e.parentTypes, e.level, fuel).value, R)
    decreases fuel, 2
  {
    hide RunSteps, RunStep, Shows;
    R := {};
    ShowsNothing();
    ghost var base, ss := |e.children|, ForProperties(owner, us);
    ghost var vs := RunSteps(defs, root, ss, e.parentTypes, e.level, fuel).value;
    RunStepsLength(defs, root, ss, e.parentTypes, e.level, fuel);
    assert e.children[base..] == [];
    for i := 0 to |us|
      invariant e !in R && fresh(R) && |e.children| == base + i && e.children[..base] == old(e.children)
      invariant Shows(e.children[base..], vs[..i], R)
    {
      ghost var before, Q := e.children, R;
      RunStepsAt(defs, root, ss, e.parentTypes, e.level, fuel, i);
      var o, P := AddProperty(e, defs, root, us[i], owner, fuel);
      R := R + P;
      Grown(before[base..], vs[..i], Q, o, vs[i], P);
      assert e.children[base..] == before[base..] + [o] && vs[..i + 1] == vs[..i] + [vs[i]];
    }
    assert vs[..|us|] == vs;
  }

  /** The branch for additional properties: its child starts a new path. */
  method ExpandDictionary(e: TreeNode, defs: Definitions, root: Name, ref: Option<Name>, title: string, ghost fuel: nat)
    returns (ghost R: set<TreeNode>)
    requires RunSteps(defs, root, [ForDictionary(ref, title)], e.parentTypes, e.level, fuel).Some?
    modifies e`children
    ensures fresh(R) && e !in R && |e.children| >= |old(e.children)| && e.children[..|old(e.children)|] == old(e.children)
    ensures Shows(e.children[|old(e.children)|..],
                  RunSteps(defs, root, [ForDictionary(ref, title)], e.parentTypes, e.level, fuel).value, R)
    decreases fuel, 1
  {
    hide Run, RunSteps, Shows;
    OneStep(defs, root, ForDictionary(ref, title), e.parentTypes, e.level, fuel);
    ghost var v := RunStep(defs, root, ForDictionary(ref, title), e.parentTypes, e.level, fuel).value;
    R := {};
    ShowsNothing();
    var o := new TreeNode("additionalProperty1", [root], 1);
    o.typ := if ref.Some? then ref else Some(title);
    e.children := e.children + [o];
    o.schemaValue := o.typ;
    o.schema := true;
    if ref.Some? && ref.value !in o.parentTypes {
      R := Expand(o, defs, root, ref.value, fuel);
      assert o.children[0..] == o.children;
    }
    OneShown(o, v, R);
    R := R + {o};
    assert e.children[|old(e.children)|..] == [o];
  }

  /** One round of the loop over the properties. */
  method AddProperty(e: TreeNode, defs: Definitions, root: Name, u: Property, owner: Name, ghost fuel: nat)
    returns (o: TreeNode, ghost R: set<TreeNode>)
    requires RunStep(defs, root, ForProperty(owner, u), e.parentTypes, e.level, fuel).Some?
    modifies e`children
    ensures fresh(R) && e !in R && e.children == old(e.children) + [o]
    ensures var v := RunStep(defs, root, ForProperty(owner, u), e.parentTypes, e.level, fuel).value;
            o in R && SameFields(o, v) && Shows(o.children, v.children, R)
    ensures o.name == u.name && o.level == e.level + 1 && o.parentTypes == e.parentTypes + [owner]
    ensures o.typ == if u.typ == Some("array") then u.typ else if u.ref.Some? && u.ref.value != "" then u.ref else u.typ
    ensures o.schema <==> u.ref.Some? && !NamesBasicType(u.ref.value)
    decreases fuel, 1
  {
    hide Run, Shows, IsBasic, NamesBasicType;
    BasicIsBasic(u);
    ghost var v := RunStep(defs, root, ForProperty(owner, u), e.parentTypes, e.level, fuel).value;
    var path := CopyPath(e.parentTypes, owner);
    o := new TreeNode(u.name, path, e.level + 1);
    e.children := e.children + [o];
    var reference := SetReference(o, u);
    R := {};
    ShowsNothing();
    if reference.Some? && reference.value !in o.parentTypes {
      R := Expand(o, defs, root, reference.value, fuel);
      assert o.children[0..] == o.children;
    }
    ShowsMore(o.children, v.children, R, R + {o});
    R := R + {o};
  }

  lemma BasicIsBasic(u: Property)
    ensures u.ref.Some? ==> IsBasic(u.ref.value) == NamesBasicType(u.ref.value)
  {
  }

  /** The type and the reference of a property's node, and the reference to follow. */
  method SetReference(o: TreeNode, u: Property) returns (reference: Option<Name>)
    requires o.name == u.name && !o.schema && o.schemaValue == None
    modifies o`typ, o`schema, o`schemaValue
    ensures SameFields(o, PropertyNode(u, o.parentTypes, o.level)) && reference == Followed(u)
  {
    o.typ := u.typ;
    if u.typ != Some("array") && u.ref.Some? && u.ref.value != "" {
      o.typ := u.ref;
    }
    reference := None;
    if u.ref.Some? && !IsBasic(u.ref.value) {
      o.schemaValue := u.ref;
      o.schema := true;
      reference := u.ref;
    } else if u.typ == Some("array") && u.ref.Some? && u.ref.value != "" {
      o.schemaValue := u.ref;
      reference := u.ref;
    }
  }

  method CopyPath(parentTypes: seq<Name>, d: Name) returns (path: seq<Name>)
    ensures path == parentTypes + [d]
  {
    path := [];
    for i := 0 to |parentTypes|
      invariant path == parentTypes[..i]
    {
      path := path + [parentTypes[i]];
    }
    path := path + [d];
  }
}
