/**
 What the operations of the scope manager do to labels and usages, entry by entry, and
 what becomes of a parameter over a whole run.
 */
module ScopeLaws {
  import opened Scopes
  import opened ScopeRuns

  // ----------------------------------------------------------------- visibility

  /** Scope `j` declares the name, and no parameter list stands between it and the innermost scope. */
  predicate SeenAt(s: Stack, name: Name, onlyBlockscoped: bool, excludeParams: bool, j: int) {
    && 0 <= j < |s| && name in s[j].labels && (onlyBlockscoped ==> s[j].labels[name].blockscoped)
    && forall i :: (if excludeParams then j else j + 1) <= i < |s| - (if excludeParams then 1 else 0) ==>
         s[i].kind != FunctionParams
  }

  /** `funct.has`: some scope declares the name from which no parameter list separates the innermost one. */
  lemma {:induction false} HasMeans(s: Stack, name: Name, onlyBlockscoped: bool, excludeParams: bool)
    ensures FunctHas(s, name, onlyBlockscoped, excludeParams) <==>
            exists j :: SeenAt(s, name, onlyBlockscoped, excludeParams, j)
  {
    if s == [] {
    } else {
      var t, last := s[..|s| - 1], |s| - 1;
      HasMeans(t, name, onlyBlockscoped, excludeParams);
      if name in s[last].labels && (!onlyBlockscoped || s[last].labels[name].blockscoped) {
        assert SeenAt(s, name, onlyBlockscoped, excludeParams, last);
      } else {
        var stops := s[if excludeParams then (if last > 0 then last - 1 else 0) else last].kind == FunctionParams && (excludeParams ==> last > 0);
        forall j | 0 <= j < last
          ensures SeenAt(s, name, onlyBlockscoped, excludeParams, j) <==> !stops && SeenAt(t, name, onlyBlockscoped, excludeParams, j)
        {
          SeenBelow(s, name, onlyBlockscoped, excludeParams, j);
        }
      }
    }
  }

  lemma SeenBelow(s: Stack, name: Name, onlyBlockscoped: bool, excludeParams: bool, j: nat)
    requires j < |s| - 1
    ensures var stopper := if excludeParams then |s| - 2 else |s| - 1;
            SeenAt(s, name, onlyBlockscoped, excludeParams, j) <==>
            s[stopper].kind != FunctionParams && SeenAt(s[..|s| - 1], name, onlyBlockscoped, excludeParams, j)
  {
    var t := s[..|s| - 1];
    assert forall i :: 0 <= i < |t| ==> t[i] == s[i];
  }

  // ---------------------------------------------------------------------- uses

  /** `b` is the current function body, or the global scope. */
  predicate IsCurrentBody(s: Stack, b: int) {
    && 0 <= b < |s| && (s[b].isFuncBody || s[b].kind == Global)
    && forall i :: b < i < |s| ==> !s[i].isFuncBody && s[i].kind != Global
  }

  /**
   A use of the name refers to a parameter in scope `p`: that stands in front of the current
   function body and declares it as "param", and no block on the way declares the name.
   */
  predicate RefersToParameter(s: Stack, name: Name, p: int) {
    && IsCurrentBody(s, p + 1) && p >= 0 && name in s[p].labels && s[p].labels[name].labelType == "param"
    && forall j :: 0 <= j < |s| && name in s[j].labels && s[j].labels[name].blockscoped ==>
         exists i :: j <= i < |s| - 1 && s[i].kind == FunctionParams
  }

  lemma BodyIsCurrent(s: Stack, b: int)
    ensures IsCurrentBody(s, b) <==> 0 <= b == Body(s)
  {
  }

  lemma RefersMeans(s: Stack, name: Name, p: int)
    requires s != []
    ensures RefersToParameter(s, name, p) <==>
            && 0 <= p == Body(s) - 1 && name in s[p].labels && s[p].labels[name].labelType == "param"
            && !FunctHas(s, name, true, true)
  {
    hide Body, FunctHas, IsCurrentBody;
    BodyIsCurrent(s, p + 1);
    HasMeans(s, name, true, true);
    if RefersToParameter(s, name, p) {
      forall j
        ensures !SeenAt(s, name, true, true, j)
      {
        if 0 <= j < |s| && name in s[j].labels && s[j].labels[name].blockscoped {
          var i :| j <= i < |s| - 1 && s[i].kind == FunctionParams;
        }
      }
    } else if 0 <= p == Body(s) - 1 && name in s[p].labels && s[p].labels[name].labelType == "param" {
      var j :| 0 <= j < |s| && name in s[j].labels && s[j].labels[name].blockscoped
               && forall i :: j <= i < |s| - 1 ==> s[i].kind != FunctionParams;
      assert SeenAt(s, name, true, true, j);
    }
  }

  /** The labels of two stacks are the same, but for the parameter a use refers to, which is no longer unused. */
  predicate MarkedBy(s: Stack, t: Stack, name: Name) {
    && |t| == |s|
    && forall i :: 0 <= i < |s| ==>
         && t[i].labels.Keys == s[i].labels.Keys
         && forall m :: m in s[i].labels ==>
              t[i].labels[m] == if m == name && RefersToParameter(s, name, i) then s[i].labels[m].(unused := false) else s[i].labels[m]
  }

  /** `block.use` marks the parameter it refers to, and no other label. */
  lemma UseMarks(s: Stack, name: Name, ks: seq<nat>)
    requires s != []
    ensures MarkedBy(s, Noted(ParamUsed(s, name), name, Token, ks), name)
  {
    hide Body, FunctHas, RefersToParameter;
    var t := Noted(ParamUsed(s, name), name, Token, ks);
    forall i | 0 <= i < |s|
      ensures t[i].labels == ParamUsed(s, name)[i].labels
    {
    }
    forall i | 0 <= i < |s|
      ensures RefersToParameter(s, name, i) <==>
              && i == Body(s) - 1 && name in s[i].labels && s[i].labels[name].labelType == "param" && !FunctHas(s, name, true, true)
    {
      RefersMeans(s, name, i);
    }
  }

  // ------------------------------------------------------- a parameter over a run

  /** Scope `p` stays on the stack, and no label of the name is put into it again. */
  predicate Stays(r: Run, events: seq<Event>, p: nat, name: Name)
    decreases |events|
  {
    && p < |r.stack|
    && (events == [] ||
        (Legal(r, events[0]) && !(events[0].Declare? && events[0].name == name && |r.stack| == p + 1)
         && Stays(Step(r, events[0]), events[1..], p, name)))
  }

  /** Some use in the run refers to the parameter of that name in scope `p`. */
  predicate UsedIn(r: Run, events: seq<Event>, p: nat, name: Name)
    requires Stays(r, events, p, name)
    decreases |events|
  {
    events != [] &&
    ((events[0].Use? && events[0].name == name && RefersToParameter(r.stack, name, p))
     || UsedIn(Step(r, events[0]), events[1..], p, name))
  }

  lemma NoHoistOver(s: Stack, n: Name)
    requires |s| > 1 && n in s[|s| - 2].labels
    ensures n in Popped(s)[|s| - 2].labels && Popped(s)[|s| - 2].labels[n] == s[|s| - 2].labels[n]
  {
    hide Body, Passed, Settled;
    assert s[..|s| - 1][|s| - 2] == s[|s| - 2];
    assert FunctHas(s[..|s| - 1], n, false, false);
    assert n !in Hoisting(s);
  }

  lemma OneStep(r: Run, e: Event, p: nat, name: Name)
    requires Legal(r, e) && p < |r.stack| && name in r.stack[p].labels && p < |Step(r, e).stack|
    requires !(e.Declare? && e.name == name && |r.stack| == p + 1)
    ensures var l, t := r.stack[p].labels[name], Step(r, e).stack;
            && name in t[p].labels
            && t[p].labels[name] == if e.Use? && e.name == name && RefersToParameter(r.stack, name, p) then l.(unused := false) else l
  {
    hide Body, FunctHas, RefersToParameter, Outer;
    match e
    case Open(kind) =>
    case Close =>
      if |r.stack| == p + 2 {
        NoHoistOver(r.stack, name);
      }
    case Declare(n, entry) =>
    case Parameter(n, labelType) =>
    case Use(n, withToken) =>
      hide ParamUsed;
      UseMarks(r.stack, n, if withToken then [|r.uses|] else []);
    case Modify(n) => NotedLabels(r.stack, n, Modified, [|r.uses|]);
    case Reassign(n) =>
      NotedLabels(r.stack, n, Modified, [|r.uses|]);
      NotedLabels(Record(r, n, Modified).stack, n, Reassigned, [|r.uses| + 1]);
  }

  lemma NotedLabels(s: Stack, name: Name, slot: Slot, ks: seq<nat>)
    requires s != []
    ensures |Noted(s, name, slot, ks)| == |s| && forall i :: 0 <= i < |s| ==> Noted(s, name, slot, ks)[i].labels == s[i].labels
  {
  }

  /** Over a run a label is no longer unused exactly when some use in it referred to it as a parameter; nothing else of it changes. */
  lemma {:induction false} ParameterOverRun(r: Run, events: seq<Event>, p: nat, name: Name)
    requires Stays(r, events, p, name) && name in r.stack[p].labels
    ensures AllLegal(r, events) && p < |After(r, events).stack| && name in After(r, events).stack[p].labels
    ensures var l := r.stack[p].labels[name];
            After(r, events).stack[p].labels[name] == l.(unused := l.unused && !UsedIn(r, events, p, name))
    decreases |events|
  {
    hide Step, Legal, RefersToParameter;
    if events == [] {
    } else {
      OneStep(r, events[0], p, name);
      ParameterOverRun(Step(r, events[0]), events[1..], p, name);
    }
  }

  /**
   From `addParam` to the end of its scope: a new parameter is still unused when the scope is
   unstacked, exactly when no use referred to it and none of its name is waiting there.
   */
  lemma ParameterStillUnused(r: Run, name: Name, events: seq<Event>)
    requires Legal(r, Parameter(name, "param")) && name !in Top(r.stack).labels
    requires var q, p := Step(r, Parameter(name, "param")), |r.stack| - 1;
             Stays(q, events, p, name) && AllLegal(q, events) && |After(q, events).stack| == |r.stack|
    ensures var q, p := Step(r, Parameter(name, "param")), |r.stack| - 1;
            && var top := Top(After(q, events).stack);
               && name in top.labels
               && (Settled(top.labels, top.usages.Keys)[name].unused <==>
                   !UsedIn(q, events, p, name) && name !in top.usages)
  {
    hide Stays, UsedIn, After, AllLegal;
    var q, p := Step(r, Parameter(name, "param")), |r.stack| - 1;
    assert q.stack[p].labels[name] == Label("param", false, true, false);
    ParameterOverRun(q, events, p, name);
  }

  // ---------------------------------------------------------------- unstacking

  /** A label that leaves its block: scoped to the function, and no visible scope around the block has it. */
  predicate LeavesBlock(s: Stack, n: Name)
    requires |s| > 1
  {
    var inner := s[|s| - 1];
    && n in inner.labels && !inner.labels[n].blockscoped && inner.labels[n].labelType != "exception"
    && !inner.isFuncBody && inner.kind != Global && inner.kind != FunctionParams && inner.kind != FunctionOuter
    && forall j :: 0 <= j < |s| - 1 && n in s[j].labels ==> exists i :: j < i < |s| - 1 && s[i].kind == FunctionParams
  }

  lemma HoistingMeans(s: Stack, n: Name)
    requires |s| > 1
    ensures n in Hoisting(s) <==> LeavesBlock(s, n)
  {
    hide Body, FunctHas;
    var t := s[..|s| - 1];
    BodyTop(s);
    HasMeans(t, n, false, false);
    if LeavesBlock(s, n) {
      forall j
        ensures !SeenAt(t, n, false, false, j)
      {
        if 0 <= j < |t| && n in t[j].labels {
          var i :| j < i < |s| - 1 && s[i].kind == FunctionParams;
          assert t[i].kind == FunctionParams;
        }
      }
    }
    forall j | 0 <= j < |s| - 1 && n in s[j].labels && forall i :: j < i < |s| - 1 ==> s[i].kind != FunctionParams
      ensures SeenAt(t, n, false, false, j)
    {
      assert t[j] == s[j];
    }
  }

  lemma BodyTop(s: Stack)
    requires s != []
    ensures Body(s) == |s| - 1 <==> s[|s| - 1].isFuncBody || s[|s| - 1].kind == Global
  {
  }

  /** The labels of the scope around the one that is unstacked: its own, and those that leave the block, marked. */
  lemma LabelsAfterClose(s: Stack, n: Name)
    requires |s| > 1 && exists b :: IsCurrentBody(s, b)
    ensures var inner, sub, outer := s[|s| - 1], s[|s| - 2], Popped(s)[|s| - 2];
            && (n in outer.labels <==> n in sub.labels || LeavesBlock(s, n))
            && (n in sub.labels ==> outer.labels[n] == sub.labels[n])
            && (LeavesBlock(s, n) ==>
                  var l := inner.labels[n];
                  && outer.labels[n].labelType == l.labelType && !outer.labels[n].blockscoped
                  && outer.labels[n].unused == (l.unused && n !in inner.usages)
                  && outer.labels[n].useOutsideOfScope ==
                     (l.useOutsideOfScope || exists b :: IsCurrentBody(s, b) && s[b].kind != Global))
  {
    hide Body, FunctHas, Passed, IsCurrentBody, LeavesBlock, Hoisting;
    HoistingMeans(s, n);
    if n in s[|s| - 2].labels {
      NoHoistOver(s, n);
    }
    var b :| IsCurrentBody(s, b);
    forall c
      ensures IsCurrentBody(s, c) <==> 0 <= c == Body(s)
    {
      BodyIsCurrent(s, c);
    }
    HoistingKeys(s);
    LeavesMeans(s, n);
  }

  lemma HoistingKeys(s: Stack)
    requires |s| > 1
    ensures Hoisting(s) <= s[|s| - 1].labels.Keys
  {
    hide Body;
  }

  lemma LeavesMeans(s: Stack, n: Name)
    requires |s| > 1
    ensures LeavesBlock(s, n) ==> n in s[|s| - 1].labels && !s[|s| - 1].labels[n].blockscoped
  {
  }

  /** The usages: those of names that the inner scope does not declare are passed on. */
  lemma UsagesAfterClose(s: Stack, n: Name)
    requires |s| > 1
    ensures var inner, sub, outer := s[|s| - 1], s[|s| - 2], Popped(s)[|s| - 2];
            var passed := n in inner.usages && n !in inner.labels;
            && (n in outer.usages <==> n in sub.usages || passed)
            && (n in sub.usages && !passed ==> outer.usages[n] == sub.usages[n])
            && (n in sub.usages && passed ==>
                  && outer.usages[n].modified == sub.usages[n].modified + inner.usages[n].modified
                  && outer.usages[n].reassigned == sub.usages[n].reassigned + inner.usages[n].reassigned
                  && outer.usages[n].tokens == sub.usages[n].tokens + inner.usages[n].tokens
                  && !outer.usages[n].onlyUsedSubFunction)
            && (n !in sub.usages && passed ==>
                  && outer.usages[n].modified == inner.usages[n].modified
                  && outer.usages[n].reassigned == inner.usages[n].reassigned
                  && outer.usages[n].tokens == inner.usages[n].tokens
                  && outer.usages[n].onlyUsedSubFunction ==
                     (inner.usages[n].onlyUsedSubFunction || inner.isFuncBody || inner.kind == Global))
  {
    hide Body, FunctHas, Received, Settled, Hoisting;
    BodyTop(s);
  }

  /** Recording a use: one list of one usage in the innermost scope grows, and a first use begins a usage. */
  lemma UsageRecorded(s: Stack, name: Name, slot: Slot, ks: seq<nat>)
    requires s != []
    ensures var top, t := s[|s| - 1], Noted(s, name, slot, ks);
            && |t| == |s| && (forall i :: 0 <= i < |s| - 1 ==> t[i] == s[i])
            && (forall n :: n in t[|s| - 1].usages <==> n in top.usages || n == name)
            && (forall n :: n in top.usages && n != name ==> t[|s| - 1].usages[n] == top.usages[n])
            && var u, before := t[|s| - 1].usages[name], if name in top.usages then top.usages[name] else Usage([], [], [], false);
               && u.modified == before.modified + (if slot == Modified then ks else [])
               && u.reassigned == before.reassigned + (if slot == Reassigned then ks else [])
               && u.tokens == before.tokens + (if slot == Token then ks else [])
               && u.onlyUsedSubFunction == before.onlyUsedSubFunction
  {
    assert forall x: seq<nat> :: x + [] == x;
  }

  /** A block-scoped declaration is meant for the innermost scope, any other for the current function body. */
  lemma DeclarationKind(s: Stack, b: int)
    requires IsCurrentBody(s, b)
    ensures DeclaredIn(s, true) == s[|s| - 1].kind && DeclaredIn(s, false) == s[b].kind
  {
    BodyIsCurrent(s, b);
  }
}
