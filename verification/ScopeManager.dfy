/** The scope manager: scope objects on a stack, changed in place as the linter reads on. */
module ScopeManager {
  import opened Options
  import opened Scopes
  import opened ScopeRuns
  import opened ScopeLaws

  class Scope {
    const kind: Kind
    const parent: Scope?
    var isFuncBody: bool
    var labels: map<Name, Label>
    var usages: map<Name, Usage>
    var params: seq<Name>

    constructor (kind: Kind, parent: Scope?)
      ensures Look(this) == Frame(kind, false, map[], map[], []) && this.parent == parent
    {
      this.kind, this.parent := kind, parent;
      isFuncBody, labels, usages, params := false, map[], map[], [];
    }

    method MarkBody()
      modifies this
      ensures Look(this) == old(Look(this)).(isFuncBody := true)
    {
      isFuncBody := true;
    }

    method SetLabels(labels: map<Name, Label>)
      modifies this
      ensures Look(this) == old(Look(this)).(labels := labels)
    {
      this.labels := labels;
    }

    method SetUsages(usages: map<Name, Usage>)
      modifies this
      ensures Look(this) == old(Look(this)).(usages := usages)
    {
      this.usages := usages;
    }

    method SetParams(params: seq<Name>)
      modifies this
      ensures Look(this) == old(Look(this)).(params := params)
    {
      this.params := params;
    }
  }

  ghost function Look(o: Scope): Frame
    reads o
  {
    Frame(o.kind, o.isFuncBody, o.labels, o.usages, o.params)
  }

  /** The scopes are different objects, and the parent of each is the one below it. */
  predicate Chain(s: seq<Scope>) {
    && (forall i, j :: 0 <= i < j < |s| ==> s[i] != s[j])
    && (forall i :: 0 <= i < |s| ==> s[i].parent == ParentAt(s, i))
  }

  function ParentAt(s: seq<Scope>, i: nat): Scope?
    requires i < |s|
  {
    if i == 0 then null else s[i - 1]
  }

  function Last(s: seq<Scope>): Scope? {
    if s == [] then null else s[|s| - 1]
  }

  function BodyScope(s: seq<Scope>, v: Stack): Scope? {
    if 0 <= Body(v) < |s| then s[Body(v)] else null
  }

  ghost function Frames(s: seq<Scope>): (v: Stack)
    reads s
    ensures |v| == |s| && forall i :: 0 <= i < |s| ==> v[i] == Look(s[i])
  {
    seq(|s|, i requires 0 <= i < |s| reads s => Look(s[i]))
  }

  /** The globals in use after the names of `done` that the global scope does not declare. */
  function GlobalsAfter(before: set<Name>, done: set<Name>, declared: set<Name>, predefined: set<Name>): set<Name> {
    before + (done - declared) * predefined
  }

  /** The names that nothing declares or predefines, each with its uses. */
  function ImpliedAfter(before: map<Name, seq<nat>>, usages: map<Name, Usage>, done: set<Name>, declared: set<Name>,
                        predefined: set<Name>): map<Name, seq<nat>>
    requires done <= usages.Keys
  {
    Implied(before, usages, done - declared - predefined)
  }

  function Implied(before: map<Name, seq<nat>>, usages: map<Name, Usage>, names: set<Name>): map<Name, seq<nat>>
    requires names <= usages.Keys
  {
    map n | n in before.Keys + (set m | m in names && usages[m].tokens != []) ::
      (if n in before then before[n] else []) + (if n in names then usages[n].tokens else [])
  }

  function ImpliedWith(before: map<Name, seq<nat>>, name: Name, tokens: seq<nat>): map<Name, seq<nat>> {
    if tokens == [] then before
    else before[name := (if name in before then before[name] else []) + tokens]
  }

  /** The innermost scope when `names` of its uses are dealt with. */
  function MidTop(top: Frame, names: set<Name>): Frame {
    top.(labels := Settled(top.labels, names))
  }

  /** The scope around it. */
  function MidOuter(outer: Frame, top: Frame, names: set<Name>, body: bool): Frame
    requires names <= top.usages.Keys
  {
    outer.(usages := Passed(outer.usages, top.usages, names - top.labels.Keys, body))
  }

  function Midway(s: Stack, names: set<Name>): (t: Stack)
    requires s != [] && names <= Top(s).usages.Keys
  {
    if |s| == 1 then [MidTop(Top(s), names)]
    else s[..|s| - 2] + [MidOuter(s[|s| - 2], Top(s), names, Body(s) == |s| - 1), MidTop(Top(s), names)]
  }

  /** One scope with other labels. */
  function Relabelled(s: Stack, i: nat, labels: map<Name, Label>): Stack
    requires i < |s|
  {
    s[i := s[i].(labels := labels)]
  }

  predicate InFunction(s: Stack) {
    Body(s) >= 0 && s[Body(s)].kind != Global
  }

  /** The stack when the labels `names` of its innermost scope moved to the scope around it. */
  function Moved(s: Stack, names: set<Name>): Stack
    requires |s| > 1 && names <= Top(s).labels.Keys
  {
    var sub, top := s[|s| - 2], Top(s);
    s[..|s| - 2] + [sub.(labels := Received(sub.labels, top.labels, names, InFunction(s))), top.(labels := top.labels - names)]
  }

  class Manager {
    const predefined: map<Name, bool>
    const exported: set<Name>
    var scopeStack: seq<Scope>
    var current: Scope?
    var currentFunctBody: Scope?
    var usedGlobals: set<Name>
    var impliedGlobals: map<Name, seq<nat>>

    ghost function View(): Stack
      reads this, scopeStack
    {
      Frames(scopeStack)
    }

    /**
     The current scope is the top of the stack, the current function body the innermost
     function body or the global scope, and each scope's parent the one below it.
     */
    ghost predicate Valid()
      reads this, scopeStack
    {
      && Chain(scopeStack) && Rooted(View())
      && current == Last(scopeStack) && currentFunctBody == BodyScope(scopeStack, View())
    }

    constructor (predefined: map<Name, bool>, exported: set<Name>)
      ensures Valid() && View() == Start().stack && usedGlobals == {} && impliedGlobals == map[]
      ensures this.predefined == predefined && this.exported == exported && fresh(scopeStack)
    {
      this.predefined, this.exported := predefined, exported;
      var global := new Scope(Global, null);
      scopeStack := [global];
      current, currentFunctBody := global, global;
      usedGlobals, impliedGlobals := {}, map[];
    }

    /** `stack` */
    method Stack(kind: Kind)
      requires Valid() && scopeStack != [] && kind != Global
      modifies this
      ensures Valid() && View() == Pushed(old(View()), kind)
      ensures scopeStack[..|scopeStack| - 1] == old(scopeStack) && fresh(scopeStack[|scopeStack| - 1])
      ensures usedGlobals == old(usedGlobals) && impliedGlobals == old(impliedGlobals)
    {
      hide Body, Rooted, Chain, Frames, Pushed, Look, BodyScope, Top;
      ghost var s, before := View(), scopeStack;
      var previousScope := current;
      FramesLast(before);
      var scope := new Scope(kind, current);
      current := scope;
      scopeStack := scopeStack + [scope];
      if kind == Plain && previousScope.kind == FunctionParams {
        scope.MarkBody();
        currentFunctBody := scope;
      }
      FramesAre(before, s);
      StackDone(before, s, scope, kind);
    }

    /** One scope of the stack gets other labels. */
    method SetLabels(o: Scope, ghost i: nat, labels: map<Name, Label>)
      requires Valid() && i < |scopeStack| && scopeStack[i] == o
      modifies o
      ensures Valid() && |View()| == |old(View())| && View() == Relabelled(old(View()), i, labels)
    {
      hide Body, Rooted, Chain, Frames, Look, BodyScope;
      ghost var v := View();
      FramesAt(scopeStack);
      ChainApart(scopeStack, i);
      o.SetLabels(labels);
      Updated(scopeStack, v, i);
    }

    /** One scope of the stack gets other usages. */
    method SetUsages(o: Scope, ghost i: nat, usages: map<Name, Usage>)
      requires Valid() && i < |scopeStack| && scopeStack[i] == o
      modifies o
      ensures Valid() && View() == old(View())[i := old(View())[i].(usages := usages)]
    {
      hide Body, Rooted, Chain, Frames, Look, BodyScope;
      ghost var v := View();
      FramesAt(scopeStack);
      ChainApart(scopeStack, i);
      o.SetUsages(usages);
      Updated(scopeStack, v, i);
    }

    /** One scope of the stack gets other parameters. */
    method SetParams(o: Scope, ghost i: nat, params: seq<Name>)
      requires Valid() && i < |scopeStack| && scopeStack[i] == o
      modifies o
      ensures Valid() && View() == old(View())[i := old(View())[i].(params := params)]
    {
      hide Body, Rooted, Chain, Frames, Look, BodyScope;
      ghost var v := View();
      FramesAt(scopeStack);
      ChainApart(scopeStack, i);
      o.SetParams(params);
      Updated(scopeStack, v, i);
    }

    /** `funct.labeltype`, as `funct.has` uses it. */
    method FunctHasLabel(name: Name, onlyBlockscoped: bool, excludeParams: bool, excludeCurrent: bool) returns (found: bool)
      requires Valid() && scopeStack != []
      ensures found == FunctHas(if excludeCurrent then View()[..|View()| - 1] else View(), name, onlyBlockscoped, excludeParams)
    {
      hide Body, Rooted, Chain, Frames, BodyScope;
      FramesAt(scopeStack);
      ghost var s := if excludeCurrent then View()[..|View()| - 1] else View();
      var i := |scopeStack| - if excludeCurrent then 2 else 1;
      assert s[..i + 1] == s;
      while i >= 0
        invariant -1 <= i < |s|
        invariant FunctHas(s[..i + 1], name, onlyBlockscoped, excludeParams) == FunctHas(s, name, onlyBlockscoped, excludeParams)
      {
        assert s[..i + 1][..i] == s[..i];
        var scope := scopeStack[i];
        if name in scope.labels && (!onlyBlockscoped || scope.labels[name].blockscoped) {
          return true;
        }
        var scopeCheck: Scope? := if !excludeParams then scope else if i > 0 then scopeStack[i - 1] else null;
        if scopeCheck != null && scopeCheck.kind == FunctionParams {
          return false;
        }
        i := i - 1;
      }
      return false;
    }

    /** `block.modify` */
    method Modify(name: Name, token: nat)
      requires Valid() && scopeStack != []
      modifies scopeStack
      ensures Valid() && View() == Noted(old(View()), name, Modified, [token])
    {
      hide Body, Rooted, Chain, Frames, BodyScope;
      FramesAt(scopeStack);
      var usage := if name in current.usages then current.usages[name] else Usage([], [], [], false);
      usage := usage.(modified := usage.modified + [token]);
      SetUsages(current, |scopeStack| - 1, current.usages[name := usage]);
      NotedMeans(old(View()), name, Modified, [token]);
    }

    /** `block.reassign` */
    method Reassign(name: Name, token: nat)
      requires Valid() && scopeStack != []
      modifies scopeStack
      ensures Valid() && View() == Noted(Noted(old(View()), name, Modified, [token]), name, Reassigned, [token])
    {
      hide Body, Rooted, Chain, Frames, BodyScope;
      Modify(name, token);
      ghost var v := View();
      FramesAt(scopeStack);
      var usage := if name in current.usages then current.usages[name] else Usage([], [], [], false);
      usage := usage.(reassigned := usage.reassigned + [token]);
      SetUsages(current, |scopeStack| - 1, current.usages[name := usage]);
      NotedMeans(v, name, Reassigned, [token]);
    }

    /** `block.use` */
    method Use(name: Name, token: Option<nat>)
      requires Valid() && scopeStack != []
      modifies scopeStack
      ensures Valid()
      ensures View() == Noted(ParamUsed(old(View()), name), name, Token, if token.Some? then [token.value] else [])
      ensures MarkedBy(old(View()), View(), name)
    {
      hide Rooted, Chain, Frames, BodyScope, FunctHas, Look, Noted, ParamUsed, MarkedBy;
      UseMarks(View(), name, if token.Some? then [token.value] else []);
      UseParam(name);
      ghost var v := View();
      FramesAt(scopeStack);
      LookIs(current);
      var usage := if name in current.usages then current.usages[name] else Usage([], [], [], false);
      if token.Some? {
        usage := usage.(tokens := usage.tokens + [token.value]);
      }
      assert token.None? ==> usage.tokens + [] == usage.tokens;
      SetUsages(current, |scopeStack| - 1, current.usages[name := usage]);
      NotedMeans(v, name, Token, if token.Some? then [token.value] else []);
    }

    /** The parameter of the current function that a use refers to. */
    method UseParam(name: Name)
      requires Valid() && scopeStack != []
      modifies scopeStack
      ensures Valid() && View() == ParamUsed(old(View()), name)
    {
      hide Rooted, Chain, Frames, FunctHas, Look, BodyScope;
      ghost var v := View();
      ghost var b := Body(v);
      FramesAt(scopeStack);
      BodyParent(scopeStack, v);
      var paramScope := currentFunctBody.parent;
      if paramScope != null {
        LookIs(paramScope);
        if name in paramScope.labels && paramScope.labels[name].labelType == "param" {
          var has := FunctHasLabel(name, true, true, false);
          if !has {
            SetLabels(paramScope, b - 1, paramScope.labels[name := paramScope.labels[name].(unused := false)]);
          }
        }
      }
    }

    /** `addlabel`, without its warnings. */
    method AddLabel(name: Name, labelType: string)
      requires Valid() && scopeStack != []
      modifies this, scopeStack
      ensures Valid() && scopeStack == old(scopeStack) && impliedGlobals == old(impliedGlobals)
      ensures var s, blockscoped := old(View()), labelType in {"let", "const", "class"};
              var isExported := name in exported && DeclaredIn(s, blockscoped) == Global;
              && View() == Labelled(s, name, Label(labelType, blockscoped, !isExported, false))
              && Top(View()) == Top(s).(labels := Top(s).labels[name := Label(labelType, blockscoped, !isExported, false)])
              && usedGlobals == old(usedGlobals) + if !blockscoped && DeclaredIn(s, false) == Global then {name} else {}
    {
      hide Rooted, Chain, Frames, Look, Body, BodyScope, Labelled, DeclaredIn, Top;
      ghost var v := View();
      FramesAt(scopeStack);
      LookIs(current);
      DeclaredInMeans(scopeStack, v);
      LabelledMeans(v, name, Label(labelType, labelType in {"let", "const", "class"}, !(name in exported && DeclaredIn(v, labelType in {"let", "const", "class"}) == Global), false));
      var blockscoped := labelType == "let" || labelType == "const" || labelType == "class";
      var scope: Scope := if blockscoped then current else currentFunctBody;
      var isExported := scope.kind == Global && name in exported;
      if blockscoped {
        SetLabels(current, |scopeStack| - 1, current.labels[name := Label(labelType, true, !isExported, false)]);
      } else {
        SetLabels(current, |scopeStack| - 1, current.labels[name := Label(labelType, false, !isExported, false)]);
        if currentFunctBody.kind == Global {
          usedGlobals := usedGlobals + {name};
        }
      }
    }

    /** `addParam`, without its warnings. */
    method AddParam(name: Name, labelType: string)
      requires Valid() && scopeStack != [] && (Top(View()).kind == FunctionParams || Top(View()).kind == CatchParams)
      modifies scopeStack
      ensures Valid() && View() == Parametered(old(View()), name, labelType)
      ensures var top := Top(old(View()));
              if name in top.labels then View() == old(View())
              else Top(View()) == top.(labels := top.labels[name := Label(labelType, false, true, false)], params := top.params + [name])
    {
      hide Rooted, Chain, Frames, BodyScope, Look, Body;
      ghost var v, last := View(), |scopeStack| - 1;
      FramesAt(scopeStack);
      LookIs(current);
      if name !in current.labels {
        SetLabels(current, last, current.labels[name := Label(labelType, false, true, false)]);
        FramesAt(scopeStack);
        LookIs(current);
        SetParams(current, last, current.params + [name]);
      }
    }

    /** The first loop of `unstack`: every used name is settled here, passed on to the outer scope, or global. */
    method ResolveUses()
      requires Valid() && scopeStack != []
      modifies this`usedGlobals, this`impliedGlobals, scopeStack
      ensures Valid() && View() == Midway(old(View()), Top(old(View())).usages.Keys)
      ensures |scopeStack| > 1 ==> usedGlobals == old(usedGlobals) && impliedGlobals == old(impliedGlobals)
      ensures |scopeStack| == 1 ==>
                var top := Top(old(View()));
                && usedGlobals == GlobalsAfter(old(usedGlobals), top.usages.Keys, top.labels.Keys, predefined.Keys)
                && impliedGlobals == ImpliedAfter(old(impliedGlobals), top.usages, top.usages.Keys, top.labels.Keys, predefined.Keys)
    {
      hide *;
      ghost var s := View();
      ghost var globals, implied, single := usedGlobals, impliedGlobals, |scopeStack| == 1;
      CurrentIsTop();
      MidwayNothing(s);
      ghost var declared := Top(s).labels.Keys;
      ImpliedNothing(globals, implied, Top(s).usages, declared, predefined.Keys);
      var usages := current.usages;
      var names := KeyList(usages.Keys);
      AmongEnds(names);
      for i := 0 to |names|
        invariant Valid() && View() == Midway(s, Among(names, i))
        invariant if !single then usedGlobals == globals && impliedGlobals == implied
                  else
                    && usedGlobals == GlobalsAfter(globals, Among(names, i), declared, predefined.Keys)
                    && impliedGlobals == ImpliedAfter(implied, usages, Among(names, i), declared, predefined.Keys)
      {
        AmongNext(names, i);
        ImpliedNext(globals, implied, usages, Among(names, i), declared, predefined.Keys, names[i]);
        ResolveUse(s, Among(names, i), names[i]);
      }
    }

    lemma CurrentIsTop()
      requires Valid() && scopeStack != []
      ensures current != null && View() != [] && |View()| == |scopeStack|
      ensures Top(View()).usages == current.usages && Top(View()).labels == current.labels
    {
      hide Rooted, Chain, Body, BodyScope;
      TopLook(scopeStack);
    }

    /** One round of that loop. */
    method ResolveUse(ghost s: Stack, ghost done: set<Name>, n: Name)
      requires Valid() && scopeStack != [] && s != [] && done < Top(s).usages.Keys && n in Top(s).usages && n !in done
      requires View() == Midway(s, done)
      modifies this`usedGlobals, this`impliedGlobals, scopeStack
      ensures Valid() && View() == Midway(s, done + {n})
      ensures usedGlobals == old(usedGlobals) + if |scopeStack| == 1 && n !in Top(s).labels && n in predefined then {n} else {}
      ensures impliedGlobals == if |scopeStack| == 1 && n !in Top(s).labels && n !in predefined
                                then ImpliedWith(old(impliedGlobals), n, Top(s).usages[n].tokens) else old(impliedGlobals)
    {
      hide Rooted, Chain, Frames, Look, Body, BodyScope, Settled, Passed, Midway, ImpliedWith;
      ghost var last := |scopeStack| - 1;
      FramesAt(scopeStack);
      MidwayMeans(s, done);
      BodyIs(scopeStack, View());
      MidwayBody(s, done);
      LookIs(current);
      var subScope: Scope? := if |scopeStack| > 1 then scopeStack[|scopeStack| - 2] else null;
      var isUnstackingFunctionBody := current == currentFunctBody;
      var usage := current.usages[n];
      if n in current.labels {
        MidwayHere(s, done, n);
        SetLabels(current, last, current.labels[n := current.labels[n].(unused := false)]);
      } else {
        MidwayOut(s, done, n);
        if subScope != null {
          LookIs(subScope);
          if n in subScope.usages {
            var before := subScope.usages[n];
            SetUsages(subScope, last - 1, subScope.usages[n := Usage(before.modified + usage.modified, before.reassigned + usage.reassigned,
                                                                     before.tokens + usage.tokens, false)]);
          } else if isUnstackingFunctionBody {
            SetUsages(subScope, last - 1, subScope.usages[n := usage.(onlyUsedSubFunction := true)]);
          } else {
            SetUsages(subScope, last - 1, subScope.usages[n := usage]);
          }
        } else if n in predefined {
          usedGlobals := usedGlobals + {n};
        } else {
          PushImplied(n, usage.tokens);
        }
      }
    }

    /** The second loop of `unstack`: labels scoped to the function move out of a block. */
    method HoistLabels()
      requires Valid() && InnerBlock(View())
      modifies scopeStack
      ensures Valid() && View() == Moved(old(View()), Hoisting(old(View())))
    {
      hide *;
      ghost var s := View();
      InnerMeans(s);
      SameHeight();
      CurrentIsTop();
      MovedNothing(s);
      var names := KeyList(current.labels.Keys);
      AmongEnds(names);
      HoistingStart(s, names);
      for i := 0 to |names|
        invariant Valid() && View() == Moved(s, Among(names, i) * Hoisting(s))
      {
        AmongNext(names, i);
        HoistingNext(s, names, i);
        HoistLabel(s, Among(names, i) * Hoisting(s), names[i]);
      }
    }

    lemma SameHeight()
      ensures |scopeStack| == |View()|
    {
      FramesAt(scopeStack);
    }

    /** One round of that loop. */
    method HoistLabel(ghost s: Stack, ghost moved: set<Name>, n: Name)
      requires Valid() && InnerBlock(s) && moved <= Hoisting(s) <= Top(s).labels.Keys && n in Top(s).labels && n !in moved
      requires View() == Moved(s, moved)
      modifies scopeStack
      ensures Valid() && moved + {n} * Hoisting(s) <= Top(s).labels.Keys && View() == Moved(s, moved + {n} * Hoisting(s))
    {
      hide Rooted, Chain, Frames, Look, Body, BodyScope, Hoisting, Received, FunctHas, Moved, InnerBlock, Top, InFunction;
      InnerMeans(s);
      MovedMeans(s, moved);
      SameHeight();
      FramesAt(scopeStack);
      CurrentIsTop();
      MovedFinds(s, moved, n);
      LookIs(current);
      HoistingAt(s, moved, n);
      var entry := current.labels[n];
      if !entry.blockscoped && entry.labelType != "exception" {
        var has := FunctHasLabel(n, false, false, true);
        if !has {
          MoveLabel(s, moved, n);
        }
      }
    }

    /** The label moves, and is marked when it moves inside a function. */
    method MoveLabel(ghost s: Stack, ghost moved: set<Name>, n: Name)
      requires Valid() && |s| > 1 && moved <= Top(s).labels.Keys && n in Top(s).labels && n !in moved
      requires View() == Moved(s, moved)
      modifies scopeStack
      ensures Valid() && View() == Moved(s, moved + {n})
    {
      hide Rooted, Chain, Frames, Look, Body, BodyScope, Received, Moved, Top, InFunction, Relabelled;
      MovedMeans(s, moved);
      MovedStep(s, moved, n);
      SameHeight();
      FramesAt(scopeStack);
      ghost var last := |scopeStack| - 1;
      ghost var t := View();
      BodyIn(scopeStack, t);
      var subScope := scopeStack[|scopeStack| - 2];
      LookIs(current);
      LookIs(subScope);
      LookIs(currentFunctBody);
      var entry := current.labels[n];
      if currentFunctBody.kind != Global {
        entry := entry.(useOutsideOfScope := true);
      }
      assert entry == Entry(t[last].labels[n], InFunction(s));
      SetLabels(subScope, last - 1, subScope.labels[n := entry]);
      FramesAt(scopeStack);
      LookIs(current);
      assert current.labels == t[last].labels;
      SetLabels(current, last, current.labels - {n});
    }

    /** `unstack`, without its warnings. */
    method Unstack()
      requires Valid() && scopeStack != []
      modifies this, scopeStack
      ensures Valid() && View() == Popped(old(View())) && scopeStack == old(scopeStack)[..|old(scopeStack)| - 1]
      ensures var o, top := old(scopeStack)[|old(scopeStack)| - 1], Top(old(View()));
              forall n :: n in o.labels ==> n in top.labels && o.labels[n] == top.labels[n].(unused := top.labels[n].unused && n !in top.usages)
      ensures |old(scopeStack)| > 1 ==> usedGlobals == old(usedGlobals) && impliedGlobals == old(impliedGlobals)
      ensures |old(scopeStack)| == 1 ==>
                var top := Top(old(View()));
                && (forall n :: n in usedGlobals <==> n in old(usedGlobals) || (n in top.usages && n !in top.labels && n in predefined))
                && (forall n :: n in impliedGlobals <==>
                      n in old(impliedGlobals) || (n in top.usages && n !in top.labels && n !in predefined && top.usages[n].tokens != []))
                && (forall n :: n in impliedGlobals ==>
                      impliedGlobals[n] == (if n in old(impliedGlobals) then old(impliedGlobals)[n] else [])
                                         + if n in top.usages && n !in top.labels && n !in predefined then top.usages[n].tokens else [])
    {
      hide *;
      ghost var s, closed := View(), scopeStack[|scopeStack| - 1];
      CurrentMeans();
      GlobalsMean(usedGlobals, impliedGlobals, Top(s).usages, Top(s).labels.Keys, predefined.Keys);
      var isUnstackingFunctionBody := current == currentFunctBody;
      var isUnstackingFunctionParams := current.kind == FunctionParams;
      var isUnstackingFunctionOuter := current.kind == FunctionOuter;
      ResolveUses();
      UsesResolved(s);
      TwoLoops(s);
      InnerIs(s);
      if |scopeStack| > 1 && !isUnstackingFunctionBody && !isUnstackingFunctionParams && !isUnstackingFunctionOuter {
        HoistLabels();
        MovedBody(Midway(s, Top(s).usages.Keys), Hoisting(s));
        MovedRest(Midway(s, Top(s).usages.Keys), Hoisting(s));
      }
      SettledRest(s);
      TopIs();
      Pop(isUnstackingFunctionBody);
    }

    lemma CurrentMeans()
      requires Valid() && scopeStack != []
      ensures |View()| == |scopeStack| && View() != [] && current != null && current.kind == Top(View()).kind
      ensures -1 <= Body(View()) < |View()| && (current == currentFunctBody <==> Body(View()) == |View()| - 1)
    {
      hide Rooted, Chain, Frames, Look, Body, BodyScope;
      SameHeight();
      FramesAt(scopeStack);
      BodyIs(scopeStack, View());
      FramesLast(scopeStack);
    }

    lemma TopIs()
      requires scopeStack != []
      ensures View() != [] && Top(View()).labels == scopeStack[|scopeStack| - 1].labels
    {
    }

    /** The innermost scope leaves the stack. */
    method Pop(isUnstackingFunctionBody: bool)
      requires Valid() && scopeStack != [] && (isUnstackingFunctionBody <==> Body(View()) == |View()| - 1)
      modifies this`scopeStack, this`current, this`currentFunctBody
      ensures Valid() && View() == old(View())[..|old(View())| - 1] && scopeStack == old(scopeStack)[..|old(scopeStack)| - 1]
    {
      hide Chain, Frames, Body, Look, Rooted;
      FramesFront(scopeStack);
      ghost var v := View();
      RootedFront(v);
      var subScope: Scope? := if |scopeStack| > 1 then scopeStack[|scopeStack| - 2] else null;
      scopeStack := scopeStack[..|scopeStack| - 1];
      if isUnstackingFunctionBody {
        currentFunctBody := FindBody();
      }
      current := subScope;
    }

    /** The last scope on the stack that is a function body or global. */
    method FindBody() returns (found: Scope?)
      ensures found == BodyScope(scopeStack, View())
    {
      hide Body, Frames;
      FramesAt(scopeStack);
      var i := |scopeStack| - 1;
      while i >= 0
        invariant -1 <= i < |scopeStack| && forall j :: i < j < |scopeStack| ==> !IsBody(View()[j])
      {
        if scopeStack[i].isFuncBody || scopeStack[i].kind == Global {
          BodyFound(View(), i);
          return scopeStack[i];
        }
        i := i - 1;
      }
      BodyFound(View(), -1);
      return null;
    }

    /** Nothing declares the name: its uses are listed. */
    method PushImplied(name: Name, tokens: seq<nat>)
      modifies this`impliedGlobals
      ensures impliedGlobals == ImpliedWith(old(impliedGlobals), name, tokens)
    {
      for j := 0 to |tokens|
        invariant impliedGlobals == ImpliedWith(old(impliedGlobals), name, tokens[..j])
      {
        ImpliedSnoc(old(impliedGlobals), name, tokens[..j], tokens[j]);
        assert tokens[..j + 1] == tokens[..j] + [tokens[j]];
        if name in impliedGlobals {
          impliedGlobals := impliedGlobals[name := impliedGlobals[name] + [tokens[j]]];
        } else {
          impliedGlobals := impliedGlobals[name := [tokens[j]]];
        }
      }
      assert tokens[..|tokens|] == tokens;
    }
  }

  /** The globals in use and the implied ones, name by name. */
  lemma GlobalsMean(before: set<Name>, implied: map<Name, seq<nat>>, usages: map<Name, Usage>, declared: set<Name>, predefined: set<Name>)
    ensures forall n :: n in GlobalsAfter(before, usages.Keys, declared, predefined) <==>
              n in before || (n in usages && n !in declared && n in predefined)
    ensures var after := ImpliedAfter(implied, usages, usages.Keys, declared, predefined);
            && (forall n :: n in after <==>
                  n in implied || (n in usages && n !in declared && n !in predefined && usages[n].tokens != []))
            && (forall n :: n in after ==>
                  after[n] == (if n in implied then implied[n] else [])
                            + if n in usages && n !in declared && n !in predefined then usages[n].tokens else [])
  {
  }

  /** The labels that are left in a scope when it is unstacked. */
  lemma SettledRest(s: Stack)
    requires s != []
    ensures Midway(s, Top(s).usages.Keys) != []
    ensures var top, left := Top(s), Top(Midway(s, Top(s).usages.Keys)).labels;
            forall n :: n in left ==> n in top.labels && left[n] == top.labels[n].(unused := top.labels[n].unused && n !in top.usages)
  {
    hide Body, Passed;
  }

  lemma MovedRest(s: Stack, names: set<Name>)
    requires |s| > 1 && names <= Top(s).labels.Keys
    ensures Moved(s, names) != []
    ensures forall n :: n in Top(Moved(s, names)).labels ==> n in Top(s).labels && Top(Moved(s, names)).labels[n] == Top(s).labels[n]
  {
    hide Received, Body;
  }

  lemma FramesAre(s: seq<Scope>, v: Stack)
    requires |v| == |s| && forall i :: 0 <= i < |s| ==> v[i] == Look(s[i])
    ensures Frames(s) == v
  {
  }

  lemma FramesAt(s: seq<Scope>)
    ensures |Frames(s)| == |s| && forall i :: 0 <= i < |s| ==> Frames(s)[i] == Look(s[i])
  {
  }

  lemma FramesLast(s: seq<Scope>)
    requires s != []
    ensures Frames(s) != [] && Top(Frames(s)).kind == s[|s| - 1].kind
  {
  }

  lemma ChainSnoc(s: seq<Scope>, o: Scope)
    requires Chain(s) && o !in s && o.parent == Last(s)
    ensures Chain(s + [o])
  {
    var t := s + [o];
    forall i | 0 <= i < |t|
      ensures t[i].parent == ParentAt(t, i)
    {
      if i < |s| {
        assert s[i].parent == ParentAt(s, i) && t[i] == s[i];
        assert i > 0 ==> t[i - 1] == s[i - 1];
      }
    }
    forall i, j | 0 <= i < j < |t|
      ensures t[i] != t[j]
    {
      assert s[i] in s && t[i] == s[i];
      assert j < |s| ==> t[j] == s[j];
    }
  }

  lemma LookIs(o: Scope)
    ensures Look(o) == Frame(o.kind, o.isFuncBody, o.labels, o.usages, o.params)
  {
  }

  predicate NoRepeats(s: seq<Name>) {
    forall i, j :: 0 <= i < j < |s| ==> s[i] != s[j]
  }

  /** The first names of a list. */
  function Among(s: seq<Name>, i: nat): (r: set<Name>)
    requires i <= |s|
    ensures forall x :: x in r ==> x in s
  {
    set k | 0 <= k < i :: s[k]
  }

  /** `Object.keys`; no result here depends on the order. */
  method KeyList(keys: set<Name>) returns (s: seq<Name>)
    ensures NoRepeats(s) && Among(s, |s|) == keys
  {
    hide NoRepeats, Among;
    AmongEnds([]);
    s := [];
    var todo := keys;
    while todo != {}
      invariant NoRepeats(s) && todo <= keys && Among(s, |s|) == keys - todo
      decreases |todo|
    {
      var n :| n in todo;
      AmongSnoc(s, n);
      s, todo := s + [n], todo - {n};
    }
  }

  lemma AmongSnoc(s: seq<Name>, n: Name)
    ensures Among(s + [n], |s| + 1) == Among(s, |s|) + {n}
    ensures NoRepeats(s) && n !in Among(s, |s|) ==> NoRepeats(s + [n])
  {
    var t := s + [n];
    assert t[|s|] == n && forall k :: 0 <= k < |s| ==> t[k] == s[k];
  }

  lemma AmongEnds(s: seq<Name>)
    ensures Among(s, 0) == {} && (forall i :: 0 <= i < |s| ==> s[i] in Among(s, |s|)) && NoRepeats([])
  {
  }

  lemma AmongNext(s: seq<Name>, i: nat)
    requires NoRepeats(s) && i < |s|
    ensures Among(s, i + 1) == Among(s, i) + {s[i]} && s[i] !in Among(s, i)
    ensures Among(s, i) < Among(s, |s|) && s[i] in Among(s, |s|)
  {
  }

  lemma MidwayNothing(s: Stack)
    requires s != []
    ensures Midway(s, {}) == s
  {
    hide Body;
    assert Settled(Top(s).labels, {}) == Top(s).labels;
    assert MidTop(Top(s), {}) == Top(s);
    if |s| > 1 {
      assert {} - Top(s).labels.Keys == {};
      assert Passed(s[|s| - 2].usages, Top(s).usages, {}, Body(s) == |s| - 1) == s[|s| - 2].usages;
      assert MidOuter(s[|s| - 2], Top(s), {}, Body(s) == |s| - 1) == s[|s| - 2];
      assert s == s[..|s| - 2] + [s[|s| - 2], s[|s| - 1]];
    } else {
      assert s == [s[0]];
    }
  }

  lemma MidwayMeans(s: Stack, done: set<Name>)
    requires s != [] && done <= Top(s).usages.Keys
    ensures var t, last := Midway(s, done), |s| - 1;
            && |t| == |s| && t[last] == MidTop(s[last], done)
            && (last > 0 ==> t[last - 1] == MidOuter(s[last - 1], s[last], done, Body(s) == last))
  {
    hide Body, MidTop, MidOuter;
  }

  /** One more name that the innermost scope declares. */
  lemma MidwayHere(s: Stack, done: set<Name>, n: Name)
    requires s != [] && done <= Top(s).usages.Keys && n in Top(s).usages && n !in done && n in Top(s).labels
    ensures var t, last := Midway(s, done), |s| - 1;
            && |t| == |s| && n in t[last].labels
            && Midway(s, done + {n}) == t[last := t[last].(labels := t[last].labels[n := t[last].labels[n].(unused := false)])]
  {
    hide Body, Settled, Passed;
    var top := Top(s);
    SettledStep(top.labels, done, n);
    assert done + {n} - top.labels.Keys == done - top.labels.Keys;
  }

  /** One more name that it does not declare. */
  lemma MidwayOut(s: Stack, done: set<Name>, n: Name)
    requires s != [] && done <= Top(s).usages.Keys && n in Top(s).usages && n !in done && n !in Top(s).labels
    ensures var t, last := Midway(s, done), |s| - 1;
            && |t| == |s| && n !in t[last].labels
            && (last == 0 ==> Midway(s, done + {n}) == t)
            && (last > 0 ==>
                  var usage, outer := s[last].usages[n], t[last - 1].usages;
                  Midway(s, done + {n}) ==
                  t[last - 1 := t[last - 1].(usages := outer[n := if n in outer then Joined(outer[n], usage)
                                                                  else if Body(s) == last then usage.(onlyUsedSubFunction := true)
                                                                  else usage])])
  {
    hide Body, Settled, Passed, Joined;
    var last, top := |s| - 1, Top(s);
    SettledStep(top.labels, done, n);
    if last > 0 {
      PassedStep(s[last - 1].usages, top.usages, done - top.labels.Keys, n, Body(s) == last);
      assert done + {n} - top.labels.Keys == done - top.labels.Keys + {n};
    }
  }

  lemma SettledStep(labels: map<Name, Label>, done: set<Name>, n: Name)
    ensures Settled(labels, done).Keys == labels.Keys
    ensures var t := Settled(labels, done);
            (n in labels ==> Settled(labels, done + {n}) == t[n := t[n].(unused := false)]) && (n !in labels ==> Settled(labels, done + {n}) == t)
  {
  }

  lemma PassedStep(outer: map<Name, Usage>, inner: map<Name, Usage>, done: set<Name>, n: Name, body: bool)
    requires done <= inner.Keys && n in inner && n !in done
    ensures var t := Passed(outer, inner, done, body);
            Passed(outer, inner, done + {n}, body) ==
            t[n := if n in t then Joined(t[n], inner[n]) else if body then inner[n].(onlyUsedSubFunction := true) else inner[n]]
  {
  }

  lemma ImpliedNothing(globals: set<Name>, before: map<Name, seq<nat>>, usages: map<Name, Usage>, declared: set<Name>, predefined: set<Name>)
    ensures GlobalsAfter(globals, {}, declared, predefined) == globals
    ensures ImpliedAfter(before, usages, {}, declared, predefined) == before
  {
    var names := {} - declared - predefined;
    assert names == {};
    var t := Implied(before, usages, {});
    assert forall n :: n in before ==> before[n] + [] == before[n];
    assert t.Keys == before.Keys;
    assert t == before;
  }

  lemma ImpliedStep(before: map<Name, seq<nat>>, usages: map<Name, Usage>, done: set<Name>, n: Name)
    requires done <= usages.Keys && n in usages && n !in done
    ensures Implied(before, usages, done + {n}) == ImpliedWith(Implied(before, usages, done), n, usages[n].tokens)
  {
    var t, u := Implied(before, usages, done), Implied(before, usages, done + {n});
    ImpliedAtName(before, usages, done, n);
    forall m | m != n
      ensures (m in u <==> m in t) && (m in t ==> u[m] == t[m])
    {
      ImpliedElsewhere(before, usages, done, n, m);
    }
    SameBut(t, u, n, usages[n].tokens);
  }

  lemma ImpliedAtName(before: map<Name, seq<nat>>, usages: map<Name, Usage>, done: set<Name>, n: Name)
    requires done <= usages.Keys && n in usages && n !in done
    ensures var t, u, ts := Implied(before, usages, done), Implied(before, usages, done + {n}), usages[n].tokens;
            && (n in u <==> n in t || ts != []) && (n in u ==> u[n] == (if n in t then t[n] else []) + ts)
  {
    var ts := usages[n].tokens;
    assert n in before ==> before[n] + [] == before[n];
    assert [] + ts == ts;
  }

  lemma ImpliedElsewhere(before: map<Name, seq<nat>>, usages: map<Name, Usage>, done: set<Name>, n: Name, m: Name)
    requires done <= usages.Keys && n in usages && m != n
    ensures var t, u := Implied(before, usages, done), Implied(before, usages, done + {n});
            (m in u <==> m in t) && (m in t ==> u[m] == t[m])
  {
  }

  lemma SameBut(t: map<Name, seq<nat>>, u: map<Name, seq<nat>>, n: Name, ts: seq<nat>)
    requires forall m :: m != n ==> (m in u <==> m in t) && (m in t ==> u[m] == t[m])
    requires (n in u <==> n in t || ts != []) && (n in u ==> u[n] == (if n in t then t[n] else []) + ts)
    ensures u == ImpliedWith(t, n, ts)
  {
    if ts == [] && n in t {
      assert t[n] + [] == t[n];
    }
    var w := ImpliedWith(t, n, ts);
    assert forall m :: m in u <==> m in w;
    assert forall m :: m in u ==> u[m] == w[m];
  }

  /** One more name that reaches the end of the global scope. */
  lemma ImpliedNext(globals: set<Name>, before: map<Name, seq<nat>>, usages: map<Name, Usage>, done: set<Name>,
                    declared: set<Name>, predefined: set<Name>, n: Name)
    requires done <= usages.Keys && n in usages && n !in done
    ensures GlobalsAfter(globals, done + {n}, declared, predefined) ==
            GlobalsAfter(globals, done, declared, predefined) + if n !in declared && n in predefined then {n} else {}
    ensures ImpliedAfter(before, usages, done + {n}, declared, predefined) ==
            if n !in declared && n !in predefined
            then ImpliedWith(ImpliedAfter(before, usages, done, declared, predefined), n, usages[n].tokens)
            else ImpliedAfter(before, usages, done, declared, predefined)
  {
    hide Implied, ImpliedWith;
    var names := done - declared - predefined;
    if n !in declared && n !in predefined {
      assert done + {n} - declared - predefined == names + {n};
      ImpliedStep(before, usages, names, n);
    } else {
      assert done + {n} - declared - predefined == names;
    }
  }

  lemma ImpliedSnoc(m: map<Name, seq<nat>>, n: Name, ts: seq<nat>, k: nat)
    ensures var t := ImpliedWith(m, n, ts);
            ImpliedWith(m, n, ts + [k]) == t[n := (if n in t then t[n] else []) + [k]]
    ensures [] + [k] == [k]
  {
    if ts == [] {
      assert ts + [k] == [k];
    } else {
      var before := if n in m then m[n] else [];
      assert before + (ts + [k]) == before + ts + [k];
    }
  }

  lemma TopLook(s: seq<Scope>)
    requires s != []
    ensures Frames(s) != [] && Top(Frames(s)) == Look(s[|s| - 1])
    ensures Top(Frames(s)).usages == s[|s| - 1].usages && Top(Frames(s)).labels == s[|s| - 1].labels
  {
  }

  /** The function bodies do not move. */
  lemma MidwayBody(s: Stack, done: set<Name>)
    requires s != [] && done <= Top(s).usages.Keys
    ensures Body(Midway(s, done)) == Body(s) && |Midway(s, done)| == |s|
    ensures Top(Midway(s, done)).usages == Top(s).usages && Top(Midway(s, done)).labels.Keys == Top(s).labels.Keys
  {
    hide Body, Settled, Passed;
    SettledStep(Top(s).labels, done, "");
    BodySame(s, Midway(s, done));
  }

  lemma {:induction false} BodyFound(s: Stack, i: int)
    requires -1 <= i < |s| && (i >= 0 ==> IsBody(s[i])) && forall j :: i < j < |s| ==> !IsBody(s[j])
    ensures Body(s) == i
  {
    if s != [] && i < |s| - 1 {
      BodyFound(s[..|s| - 1], i);
    }
  }

  lemma FramesFront(s: seq<Scope>)
    requires s != [] && Chain(s)
    ensures Frames(s[..|s| - 1]) == Frames(s)[..|s| - 1] && Chain(s[..|s| - 1])
    ensures Last(s[..|s| - 1]) == if |s| > 1 then s[|s| - 2] else null
  {
    hide Look, Frames, Chain;
    FramesAt(s);
    FramesAre(s[..|s| - 1], Frames(s)[..|s| - 1]);
    ChainFront(s);
  }

  lemma ChainFront(s: seq<Scope>)
    requires s != [] && Chain(s)
    ensures Chain(s[..|s| - 1])
  {
    var t := s[..|s| - 1];
    forall i | 0 <= i < |t|
      ensures t[i].parent == ParentAt(t, i)
    {
      assert s[i].parent == ParentAt(s, i);
    }
  }

  /** The labels to move are the same before and after the uses are dealt with. */
  lemma UsesResolved(s: Stack)
    requires s != []
    ensures var m := Midway(s, Top(s).usages.Keys);
            && m != [] && |m| == |s| && Body(m) == Body(s) && Hoisting(m) == Hoisting(s) && (InnerBlock(m) <==> InnerBlock(s))
            && Top(m).kind == Top(s).kind
  {
    hide Body, Settled, Passed;
    var m := Midway(s, Top(s).usages.Keys);
    BodySame(s, m);
    SettledSame(Top(s).labels, Top(s).usages.Keys);
    var front, before := m[..|m| - 1], s[..|s| - 1];
    forall n
      ensures FunctHas(front, n, false, false) == FunctHas(before, n, false, false)
    {
      FunctHasSame(before, front, n);
    }
  }

  lemma SettledSame(labels: map<Name, Label>, names: set<Name>)
    ensures Settled(labels, names).Keys == labels.Keys
    ensures forall n :: n in labels ==> Settled(labels, names)[n].blockscoped == labels[n].blockscoped
                                        && Settled(labels, names)[n].labelType == labels[n].labelType
  {
  }

  lemma {:induction false} FunctHasSame(s: Stack, t: Stack, n: Name)
    requires |s| == |t| && forall i :: 0 <= i < |s| ==> s[i].labels == t[i].labels && s[i].kind == t[i].kind
    ensures FunctHas(s, n, false, false) == FunctHas(t, n, false, false)
  {
    if s == [] {
    } else {
      FunctHasSame(s[..|s| - 1], t[..|t| - 1], n);
    }
  }

  lemma InnerIs(s: Stack)
    requires s != []
    ensures InnerBlock(s) <==> |s| > 1 && Body(s) < |s| - 1 && Top(s).kind != FunctionParams && Top(s).kind != FunctionOuter
  {
    hide Body;
  }

  lemma RootedFront(v: Stack)
    requires v != [] && Rooted(v)
    ensures Rooted(v[..|v| - 1])
    ensures Body(v) < |v| - 1 ==> Body(v[..|v| - 1]) == Body(v)
  {
  }

  lemma MovedBody(s: Stack, moved: set<Name>)
    requires |s| > 1 && moved <= Top(s).labels.Keys
    ensures Body(Moved(s, moved)) == Body(s) && |Moved(s, moved)| == |s|
  {
    hide *;
    MovedMeans(s, moved);
  }

  /** The two loops together make the outer scope what it becomes. */
  lemma TwoLoops(s: Stack)
    requires s != []
    ensures var m := Midway(s, Top(s).usages.Keys);
            && |m| == |s| && m != []
            && (InnerBlock(s) ==>
                  Hoisting(s) <= Top(m).labels.Keys && |Moved(m, Hoisting(s))| == |s| && Moved(m, Hoisting(s))[..|s| - 1] == Popped(s))
            && (!InnerBlock(s) ==> m[..|s| - 1] == Popped(s))
  {
    hide Body, Settled, Passed, Received;
    UsesResolved(s);
    var m := Midway(s, Top(s).usages.Keys);
    if |s| == 1 {
      assert m[..0] == [];
    } else {
      MidwayMeans(s, Top(s).usages.Keys);
      UnresolvedIs(Top(s));
      SettledSame(Top(s).labels, Top(s).usages.Keys);
      if InnerBlock(s) {
        var t := Moved(m, Hoisting(s));
        BodyKind(s);
        assert t[..|s| - 1] == s[..|s| - 2] + [Outer(s)];
      } else {
        ReceivedNothing(s[|s| - 2].labels, Settled(Top(s).labels, Top(s).usages.Keys), InFunction(s));
        assert m[..|s| - 1] == s[..|s| - 2] + [Outer(s)];
      }
    }
  }

  lemma BodyKind(s: Stack)
    requires s != []
    ensures InFunction(Midway(s, Top(s).usages.Keys)) == InFunction(s)
  {
    hide Body, Settled, Passed;
    BodySame(s, Midway(s, Top(s).usages.Keys));
  }

  lemma UnresolvedIs(f: Frame)
    ensures Unresolved(f) == f.usages.Keys - f.labels.Keys
  {
  }

  lemma ReceivedNothing(outer: map<Name, Label>, inner: map<Name, Label>, inFunction: bool)
    ensures Received(outer, inner, {}, inFunction) == outer
  {
  }

  lemma InnerMeans(s: Stack)
    requires InnerBlock(s)
    ensures |s| > 1 && Body(s) < |s| - 1 && Hoisting(s) <= Top(s).labels.Keys
  {
    hide Body;
  }

  lemma MovedNothing(s: Stack)
    requires |s| > 1
    ensures Moved(s, {}) == s
  {
    hide Body;
    var sub, top := s[|s| - 2], Top(s);
    assert Received(sub.labels, top.labels, {}, InFunction(s)) == sub.labels;
    assert top.labels - {} == top.labels;
    assert s == s[..|s| - 2] + [sub, top];
  }

  lemma MovedMeans(s: Stack, moved: set<Name>)
    requires |s| > 1 && moved <= Top(s).labels.Keys
    ensures var t, last := Moved(s, moved), |s| - 1;
            && |t| == |s| && t[last].labels == s[last].labels - moved
            && t[last - 1].labels == Received(s[last - 1].labels, s[last].labels, moved, InFunction(s))
            && Body(t) == Body(s) && (0 <= Body(s) ==> t[Body(s)].kind == s[Body(s)].kind)
            && Top(s) == s[last] && (InFunction(s) <==> 0 <= Body(s) && s[Body(s)].kind != Global)
  {
    hide Body, Received;
    BodySame(s, Moved(s, moved));
  }

  /** What moved already does not decide about other names. */
  lemma MovedFinds(s: Stack, moved: set<Name>, n: Name)
    requires |s| > 1 && moved <= Top(s).labels.Keys && n !in moved
    ensures var t, last := Moved(s, moved), |s| - 1;
            |t| == |s| && FunctHas(t[..|t| - 1], n, false, false) == FunctHas(s[..last], n, false, false)
  {
    hide Body;
    var t, last := Moved(s, moved), |s| - 1;
    assert t[..last][..last - 1] == s[..last][..last - 1];
    assert n in t[last - 1].labels <==> n in s[last - 1].labels;
  }

  lemma HoistingAt(s: Stack, moved: set<Name>, n: Name)
    requires InnerBlock(s) && n in Top(s).labels && moved <= Top(s).labels.Keys && n !in moved
    ensures n in Moved(s, moved)[|Moved(s, moved)| - 1].labels && Moved(s, moved)[|Moved(s, moved)| - 1].labels[n] == Top(s).labels[n]
    ensures n in Hoisting(s) <==>
            !Top(s).labels[n].blockscoped && Top(s).labels[n].labelType != "exception" && !FunctHas(s[..|s| - 1], n, false, false)
    ensures n !in Hoisting(s) ==> moved + {n} * Hoisting(s) == moved
    ensures n in Hoisting(s) ==> moved + {n} * Hoisting(s) == moved + {n}
  {
    hide Body, FunctHas, Received;
  }

  lemma MovedStep(s: Stack, moved: set<Name>, n: Name)
    requires |s| > 1 && moved <= Top(s).labels.Keys && n in Top(s).labels && n !in moved
    ensures var t, last := Moved(s, moved), |s| - 1;
            && |t| == |s| && n in t[last].labels
            && var outer := t[last - 1].labels[n := Entry(t[last].labels[n], InFunction(s))];
               var w := Relabelled(t, last - 1, outer);
               |w| == |t| && w[last] == t[last] && Moved(s, moved + {n}) == Relabelled(w, last, t[last].labels - {n})
  {
    hide Body, InFunction;
    var last := |s| - 1;
    ReceivedStep(s[last - 1].labels, s[last].labels, moved, n, InFunction(s));
    assert s[last].labels - (moved + {n}) == s[last].labels - moved - {n};
  }

  /** A label that moves inside a function is marked. */
  function Entry(l: Label, inFunction: bool): Label {
    if inFunction then l.(useOutsideOfScope := true) else l
  }

  lemma ReceivedStep(outer: map<Name, Label>, inner: map<Name, Label>, done: set<Name>, n: Name, inFunction: bool)
    requires done <= inner.Keys && n in inner && n !in done
    ensures var entry := if inFunction then inner[n].(useOutsideOfScope := true) else inner[n];
            Received(outer, inner, done + {n}, inFunction) == Received(outer, inner, done, inFunction)[n := entry]
  {
  }

  lemma HoistingStart(s: Stack, names: seq<Name>)
    requires s != [] && Among(names, |names|) == Top(s).labels.Keys
    ensures Among(names, 0) * Hoisting(s) == {} && Among(names, |names|) * Hoisting(s) == Hoisting(s)
  {
    hide Body;
  }

  lemma HoistingNext(s: Stack, names: seq<Name>, i: nat)
    requires s != [] && i < |names| && NoRepeats(names)
    ensures Among(names, i + 1) * Hoisting(s) == Among(names, i) * Hoisting(s) + {names[i]} * Hoisting(s)
    ensures names[i] !in Among(names, i) * Hoisting(s)
  {
    hide Hoisting;
    AmongNext(names, i);
  }

  lemma BodyIs(s: seq<Scope>, v: Stack)
    requires Chain(s) && s != [] && v == Frames(s) && Rooted(v)
    ensures 0 <= Body(v) < |s| && (Last(s) == BodyScope(s, v) <==> Body(v) == |s| - 1)
  {
    hide Body, Rooted, Frames;
    BodyParent(s, v);
  }

  lemma LabelledMeans(s: Stack, name: Name, entry: Label)
    requires s != []
    ensures var last := |s| - 1;
            && Labelled(s, name, entry) == s[last := s[last].(labels := s[last].labels[name := entry])]
            && Labelled(s, name, entry) != [] && Top(Labelled(s, name, entry)) == Top(s).(labels := Top(s).labels[name := entry])
  {
  }

  lemma DeclaredInMeans(s: seq<Scope>, v: Stack)
    requires s != [] && v == Frames(s) && Rooted(v)
    ensures BodyScope(s, v) != null && DeclaredIn(v, true) == s[|s| - 1].kind && DeclaredIn(v, false) == BodyScope(s, v).kind
  {
    hide Rooted, Body;
    BodyIn(s, v);
    FramesAt(s);
  }

  lemma BodyIn(s: seq<Scope>, v: Stack)
    requires s != [] && v == Frames(s) && Rooted(v)
    ensures 0 <= Body(v) < |s| && BodyScope(s, v) == s[Body(v)]
  {
    BodyRoot(v);
  }

  lemma BodyParent(s: seq<Scope>, v: Stack)
    requires Chain(s) && s != [] && v == Frames(s) && Rooted(v)
    ensures 0 <= Body(v) < |s| && BodyScope(s, v) == s[Body(v)]
    ensures s[Body(v)].parent == if Body(v) == 0 then null else s[Body(v) - 1]
  {
    hide Body, Rooted, Frames;
    FramesAt(s);
    BodyRoot(v);
    assert s[Body(v)].parent == ParentAt(s, Body(v));
  }

  lemma ChainApart(s: seq<Scope>, i: nat)
    requires Chain(s) && i < |s|
    ensures forall j :: 0 <= j < |s| && j != i ==> s[j] != s[i]
  {
  }

  lemma Updated(s: seq<Scope>, v: Stack, i: nat)
    requires |v| == |s| && i < |s| && forall j :: 0 <= j < |s| && j != i ==> v[j] == Look(s[j])
    requires Look(s[i]).kind == v[i].kind && Look(s[i]).isFuncBody == v[i].isFuncBody
    ensures Frames(s) == v[i := Look(s[i])]
    ensures Rooted(v) ==> Rooted(Frames(s))
    ensures BodyScope(s, Frames(s)) == BodyScope(s, v)
  {
    hide Look, Body;
    FramesAre(s, v[i := Look(s[i])]);
    BodySame(v, Frames(s));
  }

  lemma {:induction false} BodySame(v: Stack, w: Stack)
    requires |v| == |w| && forall i :: 0 <= i < |v| ==> v[i].kind == w[i].kind && v[i].isFuncBody == w[i].isFuncBody
    ensures Body(v) == Body(w)
  {
    if v != [] && !IsBody(v[|v| - 1]) {
      BodySame(v[..|v| - 1], w[..|w| - 1]);
    }
  }

  lemma NotedMeans(s: Stack, name: Name, slot: Slot, ks: seq<nat>)
    requires s != []
    ensures var last := |s| - 1;
            Noted(s, name, slot, ks) == s[last := s[last].(usages := s[last].usages[name := Put(Fresh(s[last], name), slot, ks)])]
  {
  }

  /** Everything that holds once a new scope object is on the stack. */
  lemma StackDone(before: seq<Scope>, s: Stack, o: Scope, kind: Kind)
    requires Chain(before) && s == Frames(before) && before != [] && Rooted(s) && kind != Global
    requires o !in before && o.parent == Last(before)
    requires Look(o) == Frame(kind, kind == Plain && Top(s).kind == FunctionParams, map[], map[], [])
    ensures Chain(before + [o]) && Frames(before + [o]) == Pushed(s, kind) && Rooted(Pushed(s, kind))
    ensures BodyScope(before + [o], Pushed(s, kind)) ==
            if kind == Plain && Top(s).kind == FunctionParams then o else BodyScope(before, s)
  {
    hide Body, Popped;
    ChainSnoc(before, o);
    BodyMoves(s, kind);
    FramesAre(before + [o], Pushed(s, kind));
  }
}
