/**
 The stack of scopes a linter keeps while it reads a program: which names each scope
 declares, and which uses of names in it wait for the scope that declares them.
 */
module Scopes {

  type Name = string

  datatype Kind = Global | FunctionOuter | FunctionParams | CatchParams | Plain

  datatype Label = Label(labelType: string, blockscoped: bool, unused: bool, useOutsideOfScope: bool)

  /** The uses of one name, by what they do; a use is known by its number. */
  datatype Usage = Usage(modified: seq<nat>, reassigned: seq<nat>, tokens: seq<nat>, onlyUsedSubFunction: bool)

  datatype Frame = Frame(kind: Kind, isFuncBody: bool, labels: map<Name, Label>, usages: map<Name, Usage>, params: seq<Name>)

  type Stack = seq<Frame>

  // -------------------------------------------------------------------- the stack

  predicate IsBody(f: Frame) {
    f.isFuncBody || f.kind == Global
  }

  /** Where the innermost function body or the global scope stands. */
  function Body(s: Stack): (i: int)
    ensures -1 <= i < |s|
    ensures i >= 0 ==> IsBody(s[i])
    ensures forall j :: i < j < |s| ==> !IsBody(s[j])
  {
    if s == [] then -1 else if IsBody(s[|s| - 1]) then |s| - 1 else Body(s[..|s| - 1])
  }

  /** The outermost scope is global, and no other is. */
  predicate Rooted(s: Stack) {
    forall i :: 0 <= i < |s| ==> (s[i].kind == Global <==> i == 0)
  }

  function Top(s: Stack): Frame
    requires s != []
  {
    s[|s| - 1]
  }

  function WithTop(s: Stack, f: Frame): Stack
    requires s != []
  {
    s[..|s| - 1] + [f]
  }

  /** `stack` */
  function Pushed(s: Stack, kind: Kind): Stack
    requires s != []
  {
    s + [Frame(kind, kind == Plain && Top(s).kind == FunctionParams, map[], map[], [])]
  }

  /** `funct.has`: a label of the current function, its parameters included unless they are excluded. */
  predicate FunctHas(s: Stack, name: Name, onlyBlockscoped: bool, excludeParams: bool) {
    if s == [] then false
    else if name in Top(s).labels && (!onlyBlockscoped || Top(s).labels[name].blockscoped) then true
    else if !excludeParams && Top(s).kind == FunctionParams then false
    else if excludeParams && |s| > 1 && s[|s| - 2].kind == FunctionParams then false
    else FunctHas(s[..|s| - 1], name, onlyBlockscoped, excludeParams)
  }

  // -------------------------------------------------------------------- unstacking

  /** The labels of `names` are no longer unused. */
  function Settled(labels: map<Name, Label>, names: set<Name>): map<Name, Label> {
    map n | n in labels :: if n in names then labels[n].(unused := false) else labels[n]
  }

  function Joined(u: Usage, v: Usage): Usage {
    Usage(u.modified + v.modified, u.reassigned + v.reassigned, u.tokens + v.tokens, false)
  }

  /** The usages of a scope after those of an inner one, for `names`, are passed on to it. */
  function Passed(outer: map<Name, Usage>, inner: map<Name, Usage>, names: set<Name>, body: bool): map<Name, Usage>
    requires names <= inner.Keys
  {
    map n | n in outer.Keys + names ::
      if n !in names then outer[n]
      else if n in outer then Joined(outer[n], inner[n])
      else if body then inner[n].(onlyUsedSubFunction := true)
      else inner[n]
  }

  /** The labels that a scope which is no part of a function header gives to the scope around it. */
  function Hoisting(s: Stack): set<Name>
    requires s != []
  {
    var top := Top(s);
    if |s| > 1 && Body(s) < |s| - 1 && top.kind != FunctionParams && top.kind != FunctionOuter
    then set n | n in top.labels && Moves(s, n)
    else {}
  }

  predicate Moves(s: Stack, n: Name)
    requires s != [] && n in Top(s).labels
  {
    !Top(s).labels[n].blockscoped && Top(s).labels[n].labelType != "exception" && !FunctHas(s[..|s| - 1], n, false, false)
  }

  /** The labels of a scope after `names` of an inner one are moved to it. */
  function Received(outer: map<Name, Label>, inner: map<Name, Label>, names: set<Name>, inFunction: bool): map<Name, Label>
    requires names <= inner.Keys
  {
    map n | n in outer.Keys + names ::
      if n !in names then outer[n]
      else if inFunction then inner[n].(useOutsideOfScope := true)
      else inner[n]
  }

  /** The uses that the innermost scope does not resolve. */
  function Unresolved(f: Frame): set<Name> {
    f.usages.Keys - f.labels.Keys
  }

  /** The scope around the innermost one, after that is gone. */
  function Outer(s: Stack): Frame
    requires |s| > 1
  {
    var top, sub := Top(s), s[|s| - 2];
    var labels := Settled(top.labels, top.usages.Keys);
    sub.(usages := Passed(sub.usages, top.usages, Unresolved(top), Body(s) == |s| - 1),
         labels := Received(sub.labels, labels, Hoisting(s), Body(s) >= 0 && s[Body(s)].kind != Global))
  }

  /** `unstack` */
  function Popped(s: Stack): Stack
    requires s != []
  {
    if |s| == 1 then [] else s[..|s| - 2] + [Outer(s)]
  }

  // ------------------------------------------------------------- labels and uses

  /** `funct.add` and `block.add` */
  function Labelled(s: Stack, name: Name, entry: Label): Stack
    requires s != []
  {
    WithTop(s, Top(s).(labels := Top(s).labels[name := entry]))
  }

  /** The kind of the scope that a declaration is meant for: the current one, or the current function body. */
  function DeclaredIn(s: Stack, blockscoped: bool): Kind
    requires s != []
  {
    if blockscoped || Body(s) < 0 then Top(s).kind else s[Body(s)].kind
  }

  /** The assignments of `addParam`: a repeated parameter changes nothing here. */
  function Parametered(s: Stack, name: Name, labelType: string): Stack
    requires s != []
  {
    if name in Top(s).labels then s
    else
      var entry := Label(labelType, false, true, false);
      WithTop(s, Top(s).(labels := Top(s).labels[name := entry], params := Top(s).params + [name]))
  }

  /** A parameter of the current function that a use refers to is no longer unused. */
  function ParamUsed(s: Stack, name: Name): Stack
    requires s != []
  {
    var b := Body(s);
    if b > 0 && name in s[b - 1].labels && s[b - 1].labels[name].labelType == "param" && !FunctHas(s, name, true, true)
    then s[b - 1 := s[b - 1].(labels := s[b - 1].labels[name := s[b - 1].labels[name].(unused := false)])]
    else s
  }

  function Fresh(f: Frame, name: Name): Usage {
    if name in f.usages then f.usages[name] else Usage([], [], [], false)
  }

  datatype Slot = Modified | Reassigned | Token

  function Listed(u: Usage, slot: Slot): seq<nat> {
    match slot
    case Modified => u.modified
    case Reassigned => u.reassigned
    case Token => u.tokens
  }

  /** The uses of a name that wait in a scope. */
  function At(f: Frame, name: Name, slot: Slot): seq<nat> {
    Listed(Fresh(f, name), slot)
  }

  function Put(u: Usage, slot: Slot, ks: seq<nat>): Usage {
    match slot
    case Modified => u.(modified := u.modified + ks)
    case Reassigned => u.(reassigned := u.reassigned + ks)
    case Token => u.(tokens := u.tokens + ks)
  }

  /** Uses are recorded in the innermost scope. */
  function Noted(s: Stack, name: Name, slot: Slot, ks: seq<nat>): Stack
    requires s != []
  {
    WithTop(s, Top(s).(usages := Top(s).usages[name := Put(Fresh(Top(s), name), slot, ks)]))
  }

  // ------------------------------------------------------------------ whole runs

  datatype Event =
    | Open(kind: Kind)
    | Close
    | Declare(name: Name, entry: Label)
    | Parameter(name: Name, labelType: string)
    /** `block.use`, with or without a token. */
    | Use(name: Name, withToken: bool)
    | Modify(name: Name)
    | Reassign(name: Name)

  /** A use as it was recorded: the name, what it does to it, and the scope it stands in. */
  datatype Recorded = Recorded(name: Name, slot: Slot, home: nat)

  /** The scope that declares the name, or none up to the global one. */
  datatype Outcome = Bound(scope: nat) | Unbound

  /**
   A run so far.  Scopes are numbered as they are opened; `ids` are the numbers of those
   on the stack, `parents` tells for each scope the one it was opened in, `closed` for
   each scope that was unstacked the names it declared then.
   */
  datatype Run = Run(stack: Stack, ids: seq<nat>, parents: seq<nat>, closed: map<nat, set<Name>>,
                     uses: seq<Recorded>, outcomes: map<nat, Outcome>)

  function Start(): Run {
    Run([Frame(Global, false, map[], map[], [])], [0], [0], map[], [], map[])
  }

  function TopId(r: Run): nat
    requires r.ids != []
  {
    r.ids[|r.ids| - 1]
  }

  function Record(r: Run, name: Name, slot: Slot): Run
    requires r.stack != [] && r.ids != []
  {
    r.(stack := Noted(r.stack, name, slot, [|r.uses|]), uses := r.uses + [Recorded(name, slot, TopId(r))])
  }

  /** What unstacking the innermost scope decides: its names are bound to it, at the global scope the rest is unbound. */
  function Decided(r: Run): map<nat, Outcome>
    requires r.stack != [] && r.ids != []
  {
    var top := Top(r.stack);
    map k | 0 <= k < |r.uses| && k in At(top, r.uses[k].name, r.uses[k].slot)
            && (r.uses[k].name in top.labels || |r.stack| == 1) ::
      if r.uses[k].name in top.labels then Bound(TopId(r)) else Unbound
  }

  predicate Legal(r: Run, e: Event) {
    && r.stack != [] && r.ids != []
    && (e.Open? ==> e.kind != Global)
  }

  function Step(r: Run, e: Event): Run
    requires Legal(r, e)
  {
    match e
    case Open(kind) =>
      r.(stack := Pushed(r.stack, kind), ids := r.ids + [|r.parents|], parents := r.parents + [TopId(r)])
    case Close =>
      r.(stack := Popped(r.stack), ids := r.ids[..|r.ids| - 1],
         closed := r.closed[TopId(r) := Top(r.stack).labels.Keys], outcomes := r.outcomes + Decided(r))
    case Declare(name, entry) => r.(stack := Labelled(r.stack, name, entry))
    case Parameter(name, labelType) => r.(stack := Parametered(r.stack, name, labelType))
    case Use(name, withToken) =>
      var used := r.(stack := ParamUsed(r.stack, name));
      if withToken then Record(used, name, Token) else used.(stack := Noted(used.stack, name, Token, []))
    case Modify(name) => Record(r, name, Modified)
    case Reassign(name) => Record(Record(r, name, Modified), name, Reassigned)
  }

  predicate AllLegal(r: Run, events: seq<Event>)
    decreases |events|
  {
    events != [] ==> Legal(r, events[0]) && AllLegal(Step(r, events[0]), events[1..])
  }

  function After(r: Run, events: seq<Event>): Run
    requires AllLegal(r, events)
    decreases |events|
  {
    if events == [] then r else After(Step(r, events[0]), events[1..])
  }
}
