/**
 Query strings of nested data, as `qs` writes and reads them with its default options.

 What is written is a tree of strings, objects and arrays.  What is read may also hold
 holes in arrays and the `true` that merging can leave.
 */
module Qs {
  import opened CodeUnits
  import opened Options
  import opened Percent

  const AMPERSAND: Unit := 0x26
  const EQUALS: Unit := 0x3D
  const OPEN: Unit := 0x5B
  const CLOSE: Unit := 0x5D

  const ARRAY_LIMIT := 20
  const DEPTH := 5
  const PARAMETER_LIMIT := 1000

  datatype Tree = Leaf(s: Str) | Object(fields: seq<Field>) | List(items: seq<Tree>)

  datatype Field = Field(key: Str, tree: Tree)

  datatype Value = Text(s: Str) | True | Obj(entries: seq<Entry>) | Arr(items: seq<Option<Value>>)

  datatype Entry = Entry(key: Str, value: Value)

  // --------------------------------------------------------------------- writing

  function Digits(n: nat): Str
    decreases n
  {
    if n < 10 then [0x30 + n] else Digits(n / 10) + [0x30 + n % 10]
  }

  function Bracketed(key: Str): Str {
    [OPEN] + key + [CLOSE]
  }

  /** One `key=value`, both percent-encoded. */
  function Part(key: Str, value: Str): Str {
    Encoded(Seen(key)) + [EQUALS] + Encoded(Seen(value))
  }

  /** The recursion of `stringify` below a prefix. */
  function Parts(prefix: Str, t: Tree): seq<Str>
    decreases t, 1, 0
  {
    match t
    case Leaf(s) => [Part(prefix, s)]
    case Object(_) => PartsOfObject(prefix, t, 0)
    case List(_) => PartsOfList(prefix, t, 0)
  }

  function PartsOfObject(prefix: Str, t: Tree, i: nat): seq<Str>
    requires t.Object? && i <= |t.fields|
    decreases t, 0, |t.fields| - i
  {
    if i == |t.fields| then []
    else Parts(prefix + Bracketed(t.fields[i].key), t.fields[i].tree) + PartsOfObject(prefix, t, i + 1)
  }

  function PartsOfList(prefix: Str, t: Tree, i: nat): seq<Str>
    requires t.List? && i <= |t.items|
    decreases t, 0, |t.items| - i
  {
    if i == |t.items| then []
    else Parts(prefix + Bracketed(Digits(i)), t.items[i]) + PartsOfList(prefix, t, i + 1)
  }

  function AllParts(fields: seq<Field>): seq<Str> {
    if fields == [] then [] else Parts(fields[0].key, fields[0].tree) + AllParts(fields[1..])
  }

  function Join(parts: seq<Str>): Str {
    if parts == [] then []
    else if |parts| == 1 then parts[0]
    else parts[0] + [AMPERSAND] + Join(parts[1..])
  }

  /** `stringify` */
  function Stringify(fields: seq<Field>): Str {
    Join(AllParts(fields))
  }

  // ------------------------------------------------------------ reading one parameter

  function Split(t: Str): (parts: seq<Str>)
    ensures parts != []
  {
    if t == [] then [[]]
    else
      var rest := Split(t[1..]);
      if t[0] == AMPERSAND then [[]] + rest else [[t[0]] + rest[0]] + rest[1..]
  }

  /** Where a character first stands. */
  function IndexOf(t: Str, c: Unit): (i: int)
    ensures -1 <= i < |t|
    ensures i >= 0 ==> t[i] == c
    ensures forall j :: 0 <= j < (if i < 0 then |t| else i) ==> t[j] != c
  {
    if t == [] then -1
    else if t[0] == c then 0
    else
      var i := IndexOf(t[1..], c);
      if i < 0 then -1 else i + 1
  }

  /** Where `]=` first stands. */
  function IndexOfClose(t: Str): (i: int)
    ensures -1 <= i && i + 1 < |t| + (if i < 0 then 1 else 0)
    ensures i >= 0 ==> t[i] == CLOSE && t[i + 1] == EQUALS
  {
    if |t| < 2 then -1
    else if t[0] == CLOSE && t[1] == EQUALS then 0
    else
      var i := IndexOfClose(t[1..]);
      if i < 0 then -1 else i + 1
  }

  /** A parameter without `=` has the empty value. */
  function ReadPart(w: Str): Entry {
    var b := IndexOfClose(w);
    var y := if b < 0 then IndexOf(w, EQUALS) else b + 1;
    if y < 0 then Entry(Decode(w), Text([])) else Entry(Decode(w[..y]), Text(Decode(w[y + 1..])))
  }

  // ------------------------------------------------------------- objects as entries

  function Place(es: seq<Entry>, key: Str): (i: nat)
    ensures i <= |es|
    ensures i < |es| ==> es[i].key == key
    ensures forall j :: 0 <= j < i ==> es[j].key != key
  {
    if es == [] || es[0].key == key then 0 else 1 + Place(es[1..], key)
  }

  predicate Has(es: seq<Entry>, key: Str) {
    Place(es, key) < |es|
  }

  function Put(es: seq<Entry>, key: Str, value: Value): seq<Entry> {
    if Has(es, key) then es[Place(es, key) := Entry(key, value)] else es + [Entry(key, value)]
  }

  /** `combine` */
  function Combine(a: Value, b: Value): Value {
    Arr((if a.Arr? then a.items else [Some(a)]) + if b.Arr? then b.items else [Some(b)])
  }

  /** The parameters by name, in the order of first occurrence; a repeated name collects its values. */
  function Collected(parts: seq<Str>, es: seq<Entry>): seq<Entry> {
    if parts == [] then es
    else
      var e := ReadPart(parts[0]);
      if Has(es, e.key) then Collected(parts[1..], Put(es, e.key, Combine(es[Place(es, e.key)].value, e.value)))
      else if e.key == Ascii("__proto__") then Collected(parts[1..], es)
      else Collected(parts[1..], Put(es, e.key, e.value))
  }

  // ---------------------------------------------------------------- reading a name

  /** What stands between an opening bracket and the next bracket, if that closes it, and what follows. */
  function Closing(t: Str): (r: Option<(Str, Str)>)
    ensures r.Some? ==> |r.value.1| < |t|
  {
    if t == [] || t[0] == OPEN then None
    else if t[0] == CLOSE then Some(([], t[1..]))
    else
      match Closing(t[1..])
      case None => None
      case Some((inner, after)) => Some(([t[0]] + inner, after))
  }

  /** The first group in brackets: what stands before it, in it, and after it. */
  datatype Group = Group(before: Str, inner: Str, after: Str)

  function NextGroup(t: Str): (g: Option<Group>)
    ensures g.Some? ==> |g.value.after| < |t|
  {
    if t == [] then None
    else if t[0] == OPEN && Closing(t[1..]).Some? then
      var c := Closing(t[1..]).value;
      Some(Group([], c.0, c.1))
    else
      match NextGroup(t[1..])
      case None => None
      case Some(g) => Some(g.(before := [t[0]] + g.before))
  }

  const PROTOTYPE_NAMES: seq<string> := [
    "constructor", "__defineGetter__", "__defineSetter__", "hasOwnProperty", "__lookupGetter__", "__lookupSetter__",
    "isPrototypeOf", "propertyIsEnumerable", "toString", "valueOf", "__proto__", "toLocaleString"]

  predicate IsPrototypeName(key: Str) {
    exists i :: 0 <= i < |PROTOTYPE_NAMES| && Ascii(PROTOTYPE_NAMES[i]) == key
  }

  /** The groups of a name, at most `depth` of them; what is left over is one more. */
  function Groups(t: Str, depth: nat): Option<seq<Str>>
    decreases depth
  {
    match NextGroup(t)
    case None => Some([])
    case Some(g) =>
      if depth == 0 then Some([Bracketed(Bracketed(g.inner) + g.after)])
      else if IsPrototypeName(g.inner) then None
      else
        match Groups(g.after, depth - 1)
        case None => None
        case Some(rest) => Some([Bracketed(g.inner)] + rest)
  }

  /** The segments of a name; none when it would touch a member of `Object.prototype`. */
  function Segments(key: Str): Option<seq<Str>> {
    var parent := match NextGroup(key) case None => key case Some(g) => g.before;
    if parent != [] && IsPrototypeName(parent) then None
    else
      match Groups(key, DEPTH)
      case None => None
      case Some(rest) => Some((if parent != [] then [parent] else []) + rest)
  }

  function Strip(s: Str): Str {
    if |s| > 1 && s[0] == OPEN && s[|s| - 1] == CLOSE then s[1..|s| - 1] else s
  }

  /** The array index that a segment stands for: a canonical numeral within the limit. */
  function ArrayIndex(u: Str): (r: Option<nat>)
    ensures r.Some? ==> r.value <= ARRAY_LIMIT
  {
    if |u| == 1 && IsDigit(u[0]) then Some(u[0] - 0x30)
    else if |u| == 2 && u[0] == 0x31 && IsDigit(u[1]) then Some(10 + (u[1] - 0x30))
    else if u == [0x32, 0x30] then Some(20)
    else None
  }

  function Holes(n: nat): (r: seq<Option<Value>>)
    ensures |r| == n && forall i :: 0 <= i < n ==> r[i] == None
  {
    if n == 0 then [] else Holes(n - 1) + [None]
  }

  function Wrap(s: Str, v: Value): Value {
    if s == [OPEN, CLOSE] then Arr(if v.Arr? then v.items else [Some(v)])
    else
      var u := Strip(s);
      if s != u && ArrayIndex(u).Some? then Arr(Holes(ArrayIndex(u).value) + [Some(v)]) else Obj([Entry(u, v)])
  }

  function Nested(segments: seq<Str>, v: Value): Value {
    if segments == [] then v else Wrap(segments[0], Nested(segments[1..], v))
  }

  /** The value of one parameter as nested objects and arrays; nothing for an empty or refused name. */
  function ParseKey(key: Str, v: Value): Option<Value> {
    if key == [] then None
    else match Segments(key) case None => None case Some(segments) => Some(Nested(segments, v))
  }

  // --------------------------------------------------------------------- merging

  predicate IsObject(v: Value) {
    v.Obj? || v.Arr?
  }

  /** `arrayToObject` */
  function IndexEntries(items: seq<Option<Value>>, i: nat): seq<Entry>
    requires i <= |items|
    decreases |items| - i
  {
    if i == |items| then []
    else (if items[i].Some? then [Entry(Digits(i), items[i].value)] else []) + IndexEntries(items, i + 1)
  }

  /** `merge` */
  function Merge(t: Value, a: Value): Value
    decreases a, 1
  {
    if a == Text([]) then t
    else if !IsObject(a) then
      if t.Arr? then Arr(t.items + [Some(a)])
      else if !IsObject(t) then Arr([Some(t), Some(a)])
      else
        var name := if a.Text? then a.s else Ascii("true");
        if IsPrototypeName(name) then t else Obj(Put(t.entries, name, True))
    else if !IsObject(t) then Arr([Some(t)] + if a.Arr? then a.items else [Some(a)])
    else if t.Arr? && a.Arr? then Arr(MergeItems(t.items, a, 0))
    else
      var es := if t.Arr? then IndexEntries(t.items, 0) else t.entries;
      Obj(if a.Arr? then MergeIndexed(es, a, 0) else MergeEntries(es, a, 0))
  }

  /** The items of the source, from the `n`-th on, go into the array. */
  function MergeItems(ts: seq<Option<Value>>, a: Value, n: nat): seq<Option<Value>>
    requires a.Arr? && n <= |a.items|
    decreases a, 0, |a.items| - n
  {
    if n == |a.items| then ts
    else
      match a.items[n]
      case None => MergeItems(ts, a, n + 1)
      case Some(x) =>
        if n < |ts| && ts[n].Some? then
          if IsObject(ts[n].value) && IsObject(x) then MergeItems(ts[n := Some(Merge(ts[n].value, x))], a, n + 1)
          else MergeItems(ts + [Some(x)], a, n + 1)
        else if n < |ts| then MergeItems(ts[n := Some(x)], a, n + 1)
        else MergeItems(ts + Holes(n - |ts|) + [Some(x)], a, n + 1)
  }

  function MergeEntries(es: seq<Entry>, a: Value, n: nat): seq<Entry>
    requires a.Obj? && n <= |a.entries|
    decreases a, 0, |a.entries| - n
  {
    if n == |a.entries| then es
    else
      var e := a.entries[n];
      MergeEntries(Put(es, e.key, if Has(es, e.key) then Merge(es[Place(es, e.key)].value, e.value) else e.value), a, n + 1)
  }

  function MergeIndexed(es: seq<Entry>, a: Value, n: nat): seq<Entry>
    requires a.Arr? && n <= |a.items|
    decreases a, 0, |a.items| - n
  {
    if n == |a.items| then es
    else
      match a.items[n]
      case None => MergeIndexed(es, a, n + 1)
      case Some(x) =>
        MergeIndexed(Put(es, Digits(n), if Has(es, Digits(n)) then Merge(es[Place(es, Digits(n))].value, x) else x), a, n + 1)
  }

  /** `compact`: holes leave the arrays at every depth. */
  function Compacted(v: Value): Value
    decreases v, 1
  {
    match v
    case Text(_) => v
    case True => v
    case Obj(es) => Obj(CompactedEntries(v, 0))
    case Arr(items) => Arr(CompactedItems(v, 0))
  }

  function CompactedEntries(v: Value, i: nat): seq<Entry>
    requires v.Obj? && i <= |v.entries|
    decreases v, 0, |v.entries| - i
  {
    if i == |v.entries| then []
    else [Entry(v.entries[i].key, Compacted(v.entries[i].value))] + CompactedEntries(v, i + 1)
  }

  function CompactedItems(v: Value, i: nat): seq<Option<Value>>
    requires v.Arr? && i <= |v.items|
    decreases v, 0, |v.items| - i
  {
    if i == |v.items| then []
    else (if v.items[i].Some? then [Some(Compacted(v.items[i].value))] else []) + CompactedItems(v, i + 1)
  }

  function MergeParsed(t: Value, es: seq<Entry>): Value
    decreases |es|
  {
    if es == [] then t
    else
      match ParseKey(es[0].key, es[0].value)
      case None => MergeParsed(t, es[1..])
      case Some(v) => MergeParsed(Merge(t, v), es[1..])
  }

  /** `parse` */
  function Parse(t: Str): Value {
    if t == [] then Obj([])
    else
      var parts := Split(t);
      var read := if |parts| <= PARAMETER_LIMIT then parts else parts[..PARAMETER_LIMIT];
      Compacted(MergeParsed(Obj([]), Collected(read, [])))
  }
}
