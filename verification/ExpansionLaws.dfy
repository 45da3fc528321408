/** What stands in the nodes of an expanded tree, read off the definitions. */
module ExpansionLaws {
  import opened Expansion
  import opened Options

  // ---------------------------------------------------------------- single nodes

  /** The names of types that are no references. */
  predicate NamesBasicType(t: Name) {
    || t == "string" || t == "integer" || t == "number" || t == "object" || t == "boolean"
    || t == "int32" || t == "int64" || t == "float" || t == "double"
  }

  /** The reference that a property's node is expanded for. */
  function Target(u: Property): Option<Name> {
    if u.ref.Some? && (!NamesBasicType(u.ref.value) || u.typ == Some("array")) then u.ref else None
  }

  /** The node of property `u` of the definition `owner`, below node `n`. */
  predicate ShowsProperty(c: Node, n: Node, owner: Name, u: Property) {
    && c.name == u.name && c.level == n.level + 1 && c.parentTypes == n.parentTypes + [owner]
    && c.typ == (if u.typ == Some("array") then Some("array") else if u.ref.Some? && u.ref.value != "" then u.ref else u.typ)
    && (c.schema <==> u.ref.Some? && !NamesBasicType(u.ref.value))
    && c.schemaValue == Target(u)
  }

  /** The node of a dictionary. */
  predicate ShowsDictionary(c: Node, root: Name, ref: Option<Name>, title: string) {
    && c.name == "additionalProperty1" && c.level == 1 && c.parentTypes == [root]
    && c.typ == (if ref.Some? then ref else Some(title)) && c.schema && c.schemaValue == c.typ
  }

  lemma StepShown(defs: Definitions, root: Name, n: Node, r: Name, k: nat)
    requires Expanded(defs, root, n, Some(r)) && r !in n.parentTypes && k < |Steps(defs, r)|
    ensures |n.children| == |Steps(defs, r)|
    ensures var c, s := n.children[k], Steps(defs, r)[k];
            && Expanded(defs, root, c, StepFollowed(s))
            && (s.ForProperty? ==> ShowsProperty(c, n, s.owner, s.u) && StepFollowed(s) == Target(s.u))
            && (s.ForDictionary? ==> ShowsDictionary(c, root, s.ref, s.title) && StepFollowed(s) == s.ref)
  {
    hide Steps;
    var c, s := n.children[k], Steps(defs, r)[k];
    assert c.(children := []) == StepNode(root, s, n.parentTypes, n.level);
    FieldsKept(c);
  }

  lemma FieldsKept(c: Node)
    ensures var b := c.(children := []);
            && b.name == c.name && b.typ == c.typ && b.parentTypes == c.parentTypes && b.level == c.level
            && b.schema == c.schema && b.schemaValue == c.schemaValue
  {
  }

  // -------------------------------------------------------------- the whole tree

  /** Some definition has the property that the node shows, or is the dictionary that it shows. */
  predicate ShowsSomething(defs: Definitions, root: Name, c: Node, n: Node) {
    || (exists d, k :: 0 <= d < |defs| && defs[d].definition.Model? && 0 <= k < |defs[d].definition.properties|
                       && ShowsProperty(c, n, defs[d].name, defs[d].definition.properties[k]))
    || (exists d :: 0 <= d < |defs| && defs[d].definition.Dictionary?
                    && ShowsDictionary(c, root, defs[d].definition.ref, defs[d].definition.title))
  }

  /** Every node below `n` shows a property, one level below its parent and on its path, or a dictionary. */
  predicate AllShow(defs: Definitions, root: Name, n: Node) {
    forall i :: 0 <= i < |n.children| ==> ShowsSomething(defs, root, n.children[i], n) && AllShow(defs, root, n.children[i])
  }

  lemma {:induction false} StepSource(defs: Definitions, i: nat, n: Option<Name>, k: nat)
    requires i <= |defs| && k < |StepsFrom(defs, i, n)|
    ensures var s := StepsFrom(defs, i, n)[k];
            && (s.ForProperty? ==> exists d, j :: 0 <= d < |defs| && defs[d].definition.Model? && 0 <= j < |defs[d].definition.properties|
                                                  && s.owner == defs[d].name && s.u == defs[d].definition.properties[j])
            && (s.ForDictionary? ==> exists d :: 0 <= d < |defs| && defs[d].definition.Dictionary?
                                                 && s.ref == defs[d].definition.ref && s.title == defs[d].definition.title)
    decreases |defs| - i
  {
    if n != Some(defs[i].name) || defs[i].definition.Other? {
      StepSource(defs, i + 1, n, k);
    } else if defs[i].definition.Model? {
      var us := defs[i].definition.properties;
      if k >= |us| {
        StepSource(defs, i + 1, n, k - |us|);
      }
    } else if k > 0 {
      StepSource(defs, i + 1, defs[i].definition.ref, k - 1);
    }
  }

  /** Everything in the tree that the recursion builds comes from the definitions. */
  lemma {:induction false} EveryNode(defs: Definitions, root: Name, n: Node, r: Option<Name>)
    requires Expanded(defs, root, n, r)
    ensures AllShow(defs, root, n)
    decreases n
  {
    forall i | 0 <= i < |n.children|
      ensures ShowsSomething(defs, root, n.children[i], n) && AllShow(defs, root, n.children[i])
    {
      StepShown(defs, root, n, r.value, i);
      StepSource(defs, 0, r, i);
      EveryNode(defs, root, n.children[i], StepFollowed(Steps(defs, r.value)[i]));
    }
  }

  // ------------------------------------------------------------- which children

  predicate DistinctNames(defs: Definitions) {
    forall i, j :: 0 <= i < j < |defs| ==> defs[i].name != defs[j].name
  }

  lemma {:induction false} Skipped(defs: Definitions, i: nat, j: nat, n: Option<Name>)
    requires i <= j <= |defs| && forall k :: i <= k < j ==> n != Some(defs[k].name)
    ensures StepsFrom(defs, i, n) == StepsFrom(defs, j, n)
    decreases j - i
  {
    if i == j {
    } else {
      Skipped(defs, i + 1, j, n);
    }
  }

  /**
   The children of a model are its properties; those of a dictionary are one child, and then
   what a node for its target gets, if the target stands later among the definitions.
   */
  lemma StepsAre(defs: Definitions, i: nat)
    requires DistinctNames(defs) && i < |defs|
    ensures var ss, d := Steps(defs, defs[i].name), defs[i].definition;
            && (d.Other? ==> ss == [])
            && (d.Model? ==> |ss| == |d.properties| && forall k :: 0 <= k < |ss| ==> ss[k] == ForProperty(defs[i].name, d.properties[k]))
            && (d.Dictionary? ==>
                  ss == [ForDictionary(d.ref, d.title)]
                      + if d.ref.Some? && exists j :: i < j < |defs| && defs[j].name == d.ref.value then Steps(defs, d.ref.value) else [])
  {
    hide StepsFrom;
    var n, d := Some(defs[i].name), defs[i].definition;
    Skipped(defs, 0, i, n);
    StepAt(defs, i, n);
    Skipped(defs, i + 1, |defs|, n);
    AtEnd(defs, n);
    OtherStep(defs, i);
    if d.Dictionary? {
      if d.ref.Some? && exists j :: i < j < |defs| && defs[j].name == d.ref.value {
        var j :| i < j < |defs| && defs[j].name == d.ref.value;
        Skipped(defs, i + 1, j, d.ref);
        Skipped(defs, 0, j, d.ref);
      } else {
        Skipped(defs, i + 1, |defs|, d.ref);
        AtEnd(defs, d.ref);
      }
    }
  }

  lemma OtherStep(defs: Definitions, i: nat)
    requires i < |defs|
    ensures defs[i].definition.Other? ==> StepsFrom(defs, i, Some(defs[i].name)) == StepsFrom(defs, i + 1, Some(defs[i].name))
  {
  }

  /** A node that stands for a model shows its properties in order, and each is expanded for its target. */
  lemma ChildrenOfModel(defs: Definitions, root: Name, n: Node, i: nat)
    requires DistinctNames(defs) && i < |defs| && defs[i].definition.Model?
    requires Expanded(defs, root, n, Some(defs[i].name)) && defs[i].name !in n.parentTypes
    ensures var us := defs[i].definition.properties;
            && |n.children| == |us|
            && forall k :: 0 <= k < |us| ==>
                 && ShowsProperty(n.children[k], n, defs[i].name, us[k])
                 && Expanded(defs, root, n.children[k], Target(us[k]))
  {
    hide Expanded, Steps;
    StepsAre(defs, i);
    StepsLength(defs, root, n, defs[i].name);
    forall k | 0 <= k < |n.children|
      ensures ShowsProperty(n.children[k], n, defs[i].name, defs[i].definition.properties[k])
      ensures Expanded(defs, root, n.children[k], Target(defs[i].definition.properties[k]))
    {
      StepShown(defs, root, n, defs[i].name, k);
    }
  }

  lemma StepsLength(defs: Definitions, root: Name, n: Node, r: Name)
    requires Expanded(defs, root, n, Some(r)) && r !in n.parentTypes
    ensures |n.children| == |Steps(defs, r)|
  {
  }

  /** A node that stands for a dictionary shows it first, and below it what it is a dictionary of. */
  lemma ChildrenOfDictionary(defs: Definitions, root: Name, n: Node, i: nat)
    requires DistinctNames(defs) && i < |defs| && defs[i].definition.Dictionary?
    requires Expanded(defs, root, n, Some(defs[i].name)) && defs[i].name !in n.parentTypes
    ensures var d := defs[i].definition;
            && n.children != []
            && ShowsDictionary(n.children[0], root, d.ref, d.title) && Expanded(defs, root, n.children[0], d.ref)
            && (|n.children| > 1 ==> d.ref.Some? && exists j :: i < j < |defs| && defs[j].name == d.ref.value)
  {
    hide Expanded, Steps;
    StepsAre(defs, i);
    StepsLength(defs, root, n, defs[i].name);
    StepShown(defs, root, n, defs[i].name, 0);
  }
}
