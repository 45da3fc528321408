/** Query strings character by character: the text that is written, and the limits of what is read. */
module QsLaws {
  import opened CodeUnits
  import opened Options
  import opened Percent
  import opened Qs
  import opened QsPaths
  import opened QsRoundTrip

  // ----------------------------------------------------------- characters of a text

  function CountOf(t: Str, c: Unit): nat {
    if t == [] then 0 else (if t[0] == c then 1 else 0) + CountOf(t[1..], c)
  }

  /** The pieces of a text between the places where a character stands. */
  function Cut(t: Str, c: Unit): (pieces: seq<Str>)
    ensures pieces != []
  {
    if t == [] then [[]]
    else
      var rest := Cut(t[1..], c);
      if t[0] == c then [[]] + rest else [[t[0]] + rest[0]] + rest[1..]
  }

  /** A letter, a digit, one of `-` `.` `_` `~`, or the percent sign. */
  predicate IsUrlCharacter(c: Unit) {
    0x30 <= c <= 0x39 || 0x41 <= c <= 0x5A || 0x61 <= c <= 0x7A || c == 0x2D || c == 0x2E || c == 0x5F || c == 0x7E || c == 0x25
  }

  predicate IsUrlText(t: Str) {
    forall i :: 0 <= i < |t| ==> IsUrlCharacter(t[i])
  }

  lemma {:induction false} PercentTextIsUrlText(t: Str)
    requires IsPercentText(t)
    ensures IsUrlText(t)
  {
    if t == [] {
    } else if t[0] == PERCENT {
      PercentTextIsUrlText(t[3..]);
      assert forall i :: 3 <= i < |t| ==> t[i] == t[3..][i - 3];
    } else {
      PercentTextIsUrlText(t[1..]);
      assert forall i :: 1 <= i < |t| ==> t[i] == t[1..][i - 1];
    }
  }

  lemma {:induction false} CutFree(a: Str, t: Str, c: Unit)
    requires c !in a
    ensures Cut(a + t, c) == [a + Cut(t, c)[0]] + Cut(t, c)[1..] && CountOf(a + t, c) == CountOf(t, c)
  {
    if a == [] {
      assert a + t == t && a + Cut(t, c)[0] == Cut(t, c)[0];
    } else {
      assert (a + t)[1..] == a[1..] + t && a[0] in a;
      CutFree(a[1..], t, c);
      assert [a[0]] + (a[1..] + Cut(t, c)[0]) == a + Cut(t, c)[0];
    }
  }

  lemma CutAt(a: Str, t: Str, c: Unit)
    requires c !in a
    ensures Cut(a + [c] + t, c) == [a] + Cut(t, c) && CountOf(a + [c] + t, c) == 1 + CountOf(t, c)
  {
    assert ([c] + t)[1..] == t;
    CutFree(a, [c] + t, c);
    assert a + [c] + t == a + ([c] + t) && a + [] == a;
  }

  // ----------------------------------------------------------------- the text written

  /** `a`, `a[b]`, `a[b][0]`: the keys after the first one between brackets. */
  function NameOf(path: seq<Key>): Str
    requires path != []
  {
    var last := path[|path| - 1];
    if |path| == 1 then KeyText(last) else NameOf(path[..|path| - 1]) + [0x5B] + KeyText(last) + [0x5D]
  }

  lemma {:induction false} TailSnoc(path: seq<Key>, k: Key)
    ensures QsPaths.Tail(path + [k]) == QsPaths.Tail(path) + [0x5B] + KeyText(k) + [0x5D]
  {
    if path == [] {
      assert (path + [k])[1..] == [];
      assert QsPaths.Tail([]) == [];
    } else {
      assert (path + [k])[1..] == path[1..] + [k];
      TailSnoc(path[1..], k);
    }
  }

  lemma {:induction false} NameIs(path: seq<Key>)
    requires path != []
    ensures PathName(path) == NameOf(path)
  {
    hide KeyText, QsPaths.Tail;
    if |path| == 1 {
      assert path[1..] == [];
      NoTail(KeyText(path[0]));
    } else {
      var init, last := path[..|path| - 1], path[|path| - 1];
      NameIs(init);
      TailSnoc(init[1..], last);
      assert init[1..] + [last] == path[1..] && init[0] == path[0];
      Regrouped(KeyText(path[0]), QsPaths.Tail(init[1..]), [0x5B], KeyText(last), [0x5D]);
    }
  }

  lemma NoTail(a: Str)
    ensures a + QsPaths.Tail([]) == a
  {
  }

  lemma Regrouped(a: Str, b: Str, c: Str, d: Str, e: Str)
    ensures a + (b + c + d + e) == a + b + c + d + e
  {
  }

  /** A name and a value with one equals sign between them, both in characters of a URL. */
  predicate IsParameter(t: Str, name: Str, value: Str) {
    && t == Encoded(Seen(name)) + [0x3D] + Encoded(Seen(value))
    && IsUrlText(Encoded(Seen(name))) && IsUrlText(Encoded(Seen(value)))
    && (WellFormed(name) ==> Decode(Encoded(Seen(name))) == name)
    && (WellFormed(value) ==> Decode(Encoded(Seen(value))) == value)
  }

  lemma PartIsParameter(name: Str, value: Str)
    ensures IsParameter(Part(name, value), name, value)
    ensures 0x26 !in Part(name, value) && CountOf(Part(name, value), 0x3D) == 1
  {
    hide Encoded, Seen, IsPercentText, Decode, WellFormed, IsUrlText;
    var a, b := Encoded(Seen(name)), Encoded(Seen(value));
    DecodeEncode(name);
    DecodeEncode(value);
    PercentTextIsUrlText(a);
    PercentTextIsUrlText(b);
    UrlTextFree(a);
    UrlTextFree(b);
    CutAt(a, b, 0x3D);
    CutFree(b, [], 0x3D);
    assert b + [] == b;
  }

  lemma UrlTextFree(t: Str)
    requires IsUrlText(t)
    ensures 0x26 !in t && 0x3D !in t
  {
  }

  lemma {:induction false} JoinCut(parts: seq<Str>)
    requires parts != [] && forall i :: 0 <= i < |parts| ==> 0x26 !in parts[i]
    ensures Cut(Join(parts), 0x26) == parts && CountOf(Join(parts), 0x26) == |parts| - 1
  {
    if |parts| == 1 {
      CutFree(parts[0], [], 0x26);
      assert parts[0] + [] == parts[0];
    } else {
      JoinCut(parts[1..]);
      CutAt(parts[0], Join(parts[1..]), 0x26);
      assert [parts[0]] + parts[1..] == parts;
    }
  }

  /**
   The text of an object: cut at its ampersands, of which there is one fewer than leaves, it
   gives for each leaf, from left to right, the name of its path, an equals sign, and its value.
   */
  lemma Written(t: Tree)
    requires t.Object?
    ensures var text, ls := Stringify(t.fields), LeavesFrom(t, 0);
            && Rooted(ls)
            && (ls == [] ==> text == [])
            && (ls != [] ==>
                  && CountOf(text, 0x26) == |ls| - 1 && |Cut(text, 0x26)| == |ls|
                  && forall i :: 0 <= i < |ls| ==>
                       IsParameter(Cut(text, 0x26)[i], NameOf(ls[i].path), ls[i].text) && CountOf(Cut(text, 0x26)[i], 0x3D) == 1)
  {
    hide Part, IsParameter;
    var ls := LeavesFrom(t, 0);
    AllPartsAre(t, 0);
    assert t.fields[0..] == t.fields;
    var parts := NamedParts(ls);
    forall i | 0 <= i < |ls|
      ensures 0x26 !in parts[i] && IsParameter(parts[i], NameOf(ls[i].path), ls[i].text) && CountOf(parts[i], 0x3D) == 1
    {
      NameIs(ls[i].path);
      PartIsParameter(PathName(ls[i].path), ls[i].text);
    }
    if ls != [] {
      JoinCut(parts);
    }
  }

  /** The number that decimal digits stand for. */
  function NumberOf(s: Str): int {
    if s == [] then 0 else 10 * NumberOf(s[..|s| - 1]) + (s[|s| - 1] as int - 0x30)
  }

  /** The key of an array item is its index in decimal digits, without a leading zero. */
  lemma {:induction false} IndexDigits(n: nat)
    ensures var s := Digits(n);
            s != [] && (forall i :: 0 <= i < |s| ==> 0x30 <= s[i] <= 0x39) && NumberOf(s) == n && (n > 0 ==> s[0] != 0x30)
    decreases n
  {
    if n < 10 {
      assert Digits(n)[..0] == [];
    } else {
      IndexDigits(n / 10);
      var s := Digits(n);
      assert s[..|s| - 1] == Digits(n / 10);
    }
  }

  // ------------------------------------------------------------------ what is read

  /** A bracket that is followed by an equals sign. */
  predicate HasCloseEquals(t: Str) {
    exists i :: 0 <= i < |t| - 1 && t[i] == 0x5D && t[i + 1] == 0x3D
  }

  lemma {:induction false} CloseFound(t: Str)
    ensures IndexOfClose(t) < 0 <==> !HasCloseEquals(t)
    ensures var i := IndexOfClose(t);
            i >= 0 ==> i + 1 < |t| && t[i] == 0x5D && t[i + 1] == 0x3D
                       && forall j :: 0 <= j < i ==> !(t[j] == 0x5D && t[j + 1] == 0x3D)
  {
    if |t| < 2 {
    } else if t[0] == CLOSE && t[1] == EQUALS {
    } else {
      CloseFound(t[1..]);
      if IndexOfClose(t[1..]) < 0 {
        forall i | 0 <= i < |t| - 1
          ensures !(t[i] == 0x5D && t[i + 1] == 0x3D)
        {
          assert i > 0 ==> t[1..][i - 1] == t[i] && t[1..][i] == t[i + 1];
        }
      }
    }
  }

  /** A parameter is cut at its equals sign and both sides are decoded; without one the value is empty. */
  lemma ParameterRead(k: Str, v: Str)
    requires 0x3D !in k && !HasCloseEquals(v)
    ensures ReadPart(k + [0x3D] + v) == Entry(Decode(k), Text(Decode(v)))
    ensures ReadPart(k) == Entry(Decode(k), Text([]))
  {
    hide Decode, HasCloseEquals;
    var w := k + [0x3D] + v;
    assert w[..|k|] == k && w[|k| + 1..] == v && w[|k|] == 0x3D;
    assert forall j :: 0 <= j < |k| ==> w[j] == k[j] && k[j] in k;
    CloseFound(w);
    CloseFound(k);
    NoCloseEquals(k);
    var b := IndexOfClose(w);
    if b >= 0 {
      CloseIn(k, v, b);
    } else {
      assert IndexOf(w, EQUALS) == |k|;
    }
  }

  lemma NoCloseEquals(k: Str)
    requires 0x3D !in k
    ensures !HasCloseEquals(k)
  {
    assert forall i :: 0 <= i < |k| ==> k[i] in k;
  }

  lemma CloseIn(k: Str, v: Str, i: nat)
    requires 0x3D !in k && !HasCloseEquals(v) && i <= |k| + |v| - 1
    ensures var w := k + [0x3D] + v;
            i + 1 < |w| && (w[i] == 0x5D && w[i + 1] == 0x3D ==> i + 1 == |k|)
  {
    var w := k + [0x3D] + v;
    if i + 1 < |k| {
      assert w[i + 1] == k[i + 1] && k[i + 1] in k;
    } else if i > |k| {
      assert w[i] == v[i - |k| - 1] && w[i + 1] == v[i - |k|];
    }
  }

  /** Numerals from 0 to 20 are array indices; larger ones are keys of objects. */
  lemma IndexLimit(n: nat)
    ensures ArrayIndex(Digits(n)) == if n <= 20 then Some(n) else None
  {
    hide Digits;
    IndexDigits(n);
    DigitsLength(n);
    if n < 10 {
      SmallDigits(n, 0);
    } else if n < 100 {
      SmallDigits(n / 10, n % 10);
    }
  }

  lemma SmallDigits(a: nat, b: nat)
    requires a < 10 && b < 10
    ensures Digits(a) == [0x30 + a] && (a > 0 ==> Digits(10 * a + b) == [0x30 + a, 0x30 + b])
  {
  }

  lemma DigitsLength(n: nat)
    ensures n < 10 <==> |Digits(n)| == 1
    ensures n < 100 <==> |Digits(n)| <= 2
  {
    assert n >= 10 ==> |Digits(n)| == |Digits(n / 10)| + 1;
    assert n >= 100 ==> |Digits(n / 10)| == |Digits(n / 100)| + 1 && |Digits(n / 100)| >= 1;
  }

  lemma GroupsStep(k: Key, t: Str, depth: nat)
    requires GoodStep(k)
    ensures Groups(Bracketed(KeyText(k)) + t, depth) ==
            if depth == 0 then Some([[0x5B] + (Bracketed(KeyText(k)) + t) + [0x5D]])
            else match Groups(t, depth - 1) case None => None case Some(rest) => Some([Bracketed(KeyText(k))] + rest)
  {
    hide KeyText, NextGroup, GoodStep;
    StepText(k);
    NextGroupAt(KeyText(k), t);
  }

  lemma {:induction false} DeepGroups(path: seq<Key>, depth: nat)
    requires |path| > depth && forall i :: 0 <= i < |path| ==> GoodStep(path[i])
    ensures Groups(QsPaths.Tail(path), depth) == Some(Segs(path[..depth]) + [[0x5B] + QsPaths.Tail(path[depth..]) + [0x5D]])
    decreases depth
  {
    hide Groups, GoodStep, KeyText;
    var last := [0x5B] + QsPaths.Tail(path[depth..]) + [0x5D];
    GroupsStep(path[0], QsPaths.Tail(path[1..]), depth);
    if depth == 0 {
      assert path[0..] == path && path[..0] == [];
      assert [] + [last] == [last];
    } else {
      DeepGroups(path[1..], depth - 1);
      assert path[1..][..depth - 1] == path[..depth][1..] && path[1..][depth - 1..] == path[depth..];
      assert path[..depth][0] == path[0];
      assert [Bracketed(KeyText(path[0]))] + (Segs(path[..depth][1..]) + [last]) == Segs(path[..depth]) + [last];
    }
  }

  /** What a name begins with before its first bracket is its first segment. */
  lemma FirstSegment(k: Str, t: Str)
    requires GoodKey(k) && NextGroup(t).Some? && NextGroup(t).value.before == []
    ensures Segments(k + t) == match Groups(t, 5) case None => None case Some(rest) => Some([k] + rest)
  {
    NextGroupAfter(k, t);
    assert k + [] == k;
  }

  /** Of a longer path the first six keys are read; what is left over is one more key, brackets and all. */
  lemma DeepName(path: seq<Key>, v: Value)
    requires |path| > 6 && path[0].Named? && GoodKey(path[0].name) && forall i :: 1 <= i < |path| ==> GoodStep(path[i])
    ensures ParseKey(PathName(path), v) == Some(Chain(path[..6] + [Named(QsPaths.Tail(path[6..]))], v))
  {
    hide Groups, Chain, GoodStep, Wrap, NextGroup, Segments;
    var k, rest := path[0].name, path[1..];
    var last := [0x5B] + QsPaths.Tail(path[6..]) + [0x5D];
    StepText(rest[0]);
    NextGroupAt(KeyText(rest[0]), QsPaths.Tail(rest[1..]));
    FirstSegment(k, QsPaths.Tail(rest));
    DeepGroups(rest, 5);
    assert rest[5..] == path[6..] && rest[..5] == path[..6][1..];
    DeepWrap(path[6..], v);
    DeepValue(path[..6], QsPaths.Tail(path[6..]), v);
  }

  lemma DeepValue(path: seq<Key>, t: Str, v: Value)
    requires |path| == 6 && path[0].Named? && GoodKey(path[0].name) && forall i :: 1 <= i < |path| ==> GoodStep(path[i])
    requires Wrap([0x5B] + t + [0x5D], v) == Obj([Entry(t, v)])
    ensures Nested([path[0].name] + (Segs(path[1..]) + [[0x5B] + t + [0x5D]]), v) == Chain(path + [Named(t)], v)
  {
    hide Chain, GoodStep, Wrap;
    var k, segs, deep := path[0].name, Segs(path[1..]) + [[0x5B] + t + [0x5D]], Obj([Entry(t, v)]);
    assert ([k] + segs)[1..] == segs;
    NestedJoin(Segs(path[1..]), [0x5B] + t + [0x5D], v);
    assert forall i :: 0 <= i < 5 ==> path[1..][i] == path[i + 1];
    NestedSegs(path[1..], deep);
    ChainJoin(path, t, v);
    FirstWrap(k, Chain(path[1..], deep));
    ChainFirst(path, deep);
  }

  lemma DeepWrap(path: seq<Key>, v: Value)
    requires path != []
    ensures var t := QsPaths.Tail(path);
            Wrap([0x5B] + t + [0x5D], v) == Obj([Entry(t, v)])
  {
    var t := QsPaths.Tail(path);
    var s := [0x5B] + t + [0x5D];
    assert t[0] == 0x5B && |t| >= 2;
    assert s[1..|s| - 1] == t;
  }

  lemma {:induction false} NestedJoin(segs: seq<Str>, last: Str, v: Value)
    ensures Nested(segs + [last], v) == Nested(segs, Wrap(last, v))
  {
    hide Wrap;
    if segs == [] {
      assert (segs + [last])[1..] == [];
    } else {
      assert (segs + [last])[0] == segs[0] && (segs + [last])[1..] == segs[1..] + [last];
      NestedJoin(segs[1..], last, v);
    }
  }

  lemma {:induction false} ChainJoin(path: seq<Key>, name: Str, v: Value)
    ensures Chain(path + [Named(name)], v) == Chain(path, Obj([Entry(name, v)]))
  {
    var p := path + [Named(name)];
    if path == [] {
      assert p[1..] == [] && p[0] == Named(name);
      assert Chain(p[1..], v) == v;
    } else {
      assert p[0] == path[0] && p[1..] == path[1..] + [Named(name)];
      ChainJoin(path[1..], name, v);
    }
  }

  lemma ChainFirst(path: seq<Key>, v: Value)
    requires path != [] && path[0].Named?
    ensures Chain(path, v) == Obj([Entry(path[0].name, Chain(path[1..], v))])
  {
  }

  lemma FirstWrap(k: Str, v: Value)
    requires GoodKey(k)
    ensures Wrap(k, v) == Obj([Entry(k, v)])
  {
    assert k[0] != OPEN;
  }

  /** A member of every object: `constructor`, `toString` and so on. */
  predicate IsObjectMember(s: string) {
    || s == "constructor" || s == "hasOwnProperty" || s == "isPrototypeOf" || s == "propertyIsEnumerable"
    || s == "toLocaleString" || s == "toString" || s == "valueOf" || s == "__proto__"
    || s == "__defineGetter__" || s == "__defineSetter__" || s == "__lookupGetter__" || s == "__lookupSetter__"
  }

  lemma MembersListed(s: string)
    ensures IsObjectMember(s) <==> exists i :: 0 <= i < |PROTOTYPE_NAMES| && PROTOTYPE_NAMES[i] == s
  {
    assert PROTOTYPE_NAMES[0] == "constructor" && PROTOTYPE_NAMES[1] == "__defineGetter__" && PROTOTYPE_NAMES[2] == "__defineSetter__";
    assert PROTOTYPE_NAMES[3] == "hasOwnProperty" && PROTOTYPE_NAMES[4] == "__lookupGetter__" && PROTOTYPE_NAMES[5] == "__lookupSetter__";
    assert PROTOTYPE_NAMES[6] == "isPrototypeOf" && PROTOTYPE_NAMES[7] == "propertyIsEnumerable" && PROTOTYPE_NAMES[8] == "toString";
    assert PROTOTYPE_NAMES[9] == "valueOf" && PROTOTYPE_NAMES[10] == "__proto__" && PROTOTYPE_NAMES[11] == "toLocaleString";
  }

  /** A name that begins with a member of every object, or has one in its first brackets, is refused. */
  lemma MemberRefused(s: string, k: Str, v: Value)
    requires IsObjectMember(s) && BracketFree(Ascii(s)) && BracketFree(k)
    ensures ParseKey(Ascii(s), v) == None && ParseKey(k + [0x5B] + Ascii(s) + [0x5D], v) == None
  {
    hide Ascii, NextGroup, BracketFree, IsObjectMember;
    MembersListed(s);
    assert IsPrototypeName(Ascii(s));
    NoGroup(Ascii(s));
    NextGroupAt(Ascii(s), []);
    NextGroupAfter(k, Bracketed(Ascii(s)) + []);
    assert k + [0x5B] + Ascii(s) + [0x5D] == k + (Bracketed(Ascii(s)) + []);
    assert k + [] == k;
  }

  lemma {:induction false} SplitIsCut(t: Str)
    ensures Split(t) == Cut(t, 0x26)
  {
    if t == [] {
    } else {
      SplitIsCut(t[1..]);
    }
  }

  /** Only the first 1000 parameters are read. */
  lemma FirstThousand(t: Str, u: Str)
    requires t != [] && u != [] && |Cut(t, 0x26)| > 1000 && Cut(u, 0x26) == Cut(t, 0x26)[..1000]
    ensures Parse(t) == Parse(u)
  {
    hide Collected, MergeParsed, Compacted;
    SplitIsCut(t);
    SplitIsCut(u);
  }

  // ---------------------------------------------------------------- repeated names

  function Texts(vs: seq<Str>): (r: seq<Option<Value>>)
    ensures |r| == |vs| && forall i :: 0 <= i < |vs| ==> r[i] == Some(Text(vs[i]))
  {
    if vs == [] then [] else [Some(Text(vs[0]))] + Texts(vs[1..])
  }

  function PartsOfName(name: Str, vs: seq<Str>): (r: seq<Str>)
    ensures |r| == |vs| && forall i :: 0 <= i < |vs| ==> r[i] == Part(name, vs[i])
  {
    if vs == [] then [] else [Part(name, vs[0])] + PartsOfName(name, vs[1..])
  }

  /** One parameter whose name is new, and one whose name was there. */
  lemma CollectedOne(part: Str, parts: seq<Str>, name: Str, v: Value)
    requires ReadPart(part) == Entry(name, v)
    ensures name != Ascii("__proto__") ==> Collected([part] + parts, []) == Collected(parts, [Entry(name, v)])
    ensures forall x :: Collected([part] + parts, [Entry(name, x)]) == Collected(parts, [Entry(name, Combine(x, v))])
  {
    hide ReadPart, Combine, Ascii;
    assert ([part] + parts)[1..] == parts;
    assert Put([], name, v) == [Entry(name, v)];
    forall x
      ensures Put([Entry(name, x)], name, Combine(x, v)) == [Entry(name, Combine(x, v))] && Has([Entry(name, x)], name)
    {
    }
  }

  lemma {:induction false} CollectedMore(name: Str, items: seq<Option<Value>>, vs: seq<Str>)
    requires WellFormed(name) && forall i :: 0 <= i < |vs| ==> WellFormed(vs[i])
    ensures Collected(PartsOfName(name, vs), [Entry(name, Arr(items))]) == [Entry(name, Arr(items + Texts(vs)))]
    decreases |vs|
  {
    hide *;
    if vs == [] {
      NoTexts(name, vs, items);
      NothingCollected([Entry(name, Arr(items))]);
    } else {
      PartRead(name, vs[0]);
      CollectedOne(Part(name, vs[0]), PartsOfName(name, vs[1..]), name, Text(vs[0]));
      CombinedText(items, vs[0]);
      CollectedMore(name, items + [Some(Text(vs[0]))], vs[1..]);
      MoreTexts(name, vs, items);
    }
  }

  lemma NoTexts(name: Str, vs: seq<Str>, items: seq<Option<Value>>)
    requires vs == []
    ensures PartsOfName(name, vs) == [] && items + Texts(vs) == items
  {
  }

  lemma MoreTexts(name: Str, vs: seq<Str>, items: seq<Option<Value>>)
    requires vs != []
    ensures PartsOfName(name, vs) == [Part(name, vs[0])] + PartsOfName(name, vs[1..])
    ensures items + [Some(Text(vs[0]))] + Texts(vs[1..]) == items + Texts(vs)
  {
    hide Part;
  }

  lemma CombinedText(items: seq<Option<Value>>, v: Str)
    ensures Combine(Arr(items), Text(v)) == Arr(items + [Some(Text(v))])
  {
  }

  lemma NothingCollected(es: seq<Entry>)
    ensures Collected([], es) == es
  {
  }

  /** The values of a repeated name are read as an array, in order. */
  lemma RepeatedName(name: Str, vs: seq<Str>)
    requires GoodKey(name) && 2 <= |vs| <= 1000 && forall i :: 0 <= i < |vs| ==> WellFormed(vs[i])
    ensures Parse(Join(PartsOfName(name, vs))) == Obj([Entry(name, Arr(Texts(vs)))])
  {
    hide *;
    var parts, value := PartsOfName(name, vs), Arr(Texts(vs));
    PartsPlainHere(name, vs);
    QsRoundTrip.SplitJoin(parts);
    JoinNotEmpty(parts);
    CollectedTwo(name, vs);
    OneName(name, value);
    OneGoodPath(name);
    NameParsed([Named(name)], value);
    OneEntry(name, value);
    TextsKept(name, vs);
    ParsedOne(Join(parts), parts, name, value);
  }

  lemma OneGoodPath(name: Str)
    requires GoodKey(name)
    ensures GoodPath([Named(name)])
  {
  }

  lemma ParsedOne(t: Str, parts: seq<Str>, name: Str, value: Value)
    requires t != [] && Split(t) == parts && |parts| <= 1000 && Collected(parts, []) == [Entry(name, value)]
    requires ParseKey(name, value) == Some(Obj([Entry(name, value)]))
    requires Merge(Obj([]), Obj([Entry(name, value)])) == Obj([Entry(name, value)])
    ensures Parse(t) == Compacted(Obj([Entry(name, value)]))
  {
    hide Split, Collected, ParseKey, Merge, Compacted;
    var es := [Entry(name, value)];
    assert es[1..] == [];
    assert MergeParsed(Obj(es), es[1..]) == Obj(es);
    assert MergeParsed(Obj([]), es) == Obj(es);
  }

  lemma PartsPlainHere(name: Str, vs: seq<Str>)
    ensures forall i :: 0 <= i < |vs| ==> QsRoundTrip.Plain(PartsOfName(name, vs)[i]) && PartsOfName(name, vs)[i] != []
  {
    hide Part;
    forall i | 0 <= i < |vs|
      ensures QsRoundTrip.Plain(PartsOfName(name, vs)[i]) && PartsOfName(name, vs)[i] != []
    {
      PartPlain(name, vs[i]);
    }
  }

  lemma CollectedTwo(name: Str, vs: seq<Str>)
    requires GoodKey(name) && |vs| >= 2 && forall i :: 0 <= i < |vs| ==> WellFormed(vs[i])
    ensures Collected(PartsOfName(name, vs), []) == [Entry(name, Arr(Texts(vs)))]
  {
    hide *;
    GoodIsWellFormed(name);
    PartRead(name, vs[0]);
    PartRead(name, vs[1]);
    OneName(name, True);
    OneGoodPath(name);
    NotProto([Named(name)]);
    var one, two := Text(vs[0]), Text(vs[1]);
    var rest := PartsOfName(name, vs[2..]);
    TwoParts(name, vs);
    CollectedOne(Part(name, vs[0]), [Part(name, vs[1])] + rest, name, one);
    CollectedOne(Part(name, vs[1]), rest, name, two);
    CollectedMore(name, [Some(one), Some(two)], vs[2..]);
  }

  lemma GoodIsWellFormed(name: Str)
    requires GoodKey(name)
    ensures WellFormed(name)
  {
  }

  lemma TwoParts(name: Str, vs: seq<Str>)
    requires |vs| >= 2
    ensures PartsOfName(name, vs) == [Part(name, vs[0])] + ([Part(name, vs[1])] + PartsOfName(name, vs[2..]))
    ensures Combine(Text(vs[0]), Text(vs[1])) == Arr([Some(Text(vs[0])), Some(Text(vs[1]))])
    ensures [Some(Text(vs[0])), Some(Text(vs[1]))] + Texts(vs[2..]) == Texts(vs)
  {
    hide Part, PartsOfName, Texts;
    var one, two := Some(Text(vs[0])), Some(Text(vs[1]));
    MoreTexts(name, vs, []);
    MoreTexts(name, vs[1..], [one]);
    assert vs[1..][1..] == vs[2..];
    assert [] + [one] == [one] && [one] + [two] == [one, two];
    assert [] + Texts(vs) == Texts(vs);
  }

  lemma OneName(name: Str, v: Value)
    ensures PathName([Named(name)]) == name && Chain([Named(name)], v) == Obj([Entry(name, v)])
  {
    var path := [Named(name)];
    assert path[1..] == [];
    assert QsPaths.Tail(path[1..]) == [];
    assert Chain(path[1..], v) == v;
  }

  lemma OneEntry(name: Str, v: Value)
    ensures Merge(Obj([]), Obj([Entry(name, v)])) == Obj([Entry(name, v)])
  {
    var a := Obj([Entry(name, v)]);
    assert MergeEntries([Entry(name, v)], a, 1) == [Entry(name, v)];
    assert Put([], name, v) == [Entry(name, v)];
  }

  lemma TextsKept(name: Str, vs: seq<Str>)
    ensures Compacted(Obj([Entry(name, Arr(Texts(vs)))])) == Obj([Entry(name, Arr(Texts(vs)))])
  {
    var v := Arr(Texts(vs));
    ItemsKept(v, vs, 0);
    assert Texts(vs)[0..] == Texts(vs);
    assert Compacted(v) == v;
    var o := Obj([Entry(name, v)]);
    assert CompactedEntries(o, 1) == [];
    assert CompactedEntries(o, 0) == [Entry(name, v)];
  }

  lemma {:induction false} ItemsKept(v: Value, vs: seq<Str>, i: nat)
    requires v == Arr(Texts(vs)) && i <= |vs|
    ensures CompactedItems(v, i) == Texts(vs)[i..]
    decreases |vs| - i
  {
    if i == |vs| {
    } else {
      ItemsKept(v, vs, i + 1);
      ItemAt(v.items, i);
      assert Compacted(v.items[i].value) == v.items[i].value;
    }
  }

  lemma ItemAt(items: seq<Option<Value>>, i: nat)
    requires i < |items|
    ensures items[i..] == [items[i]] + items[i + 1..]
  {
  }

  // ------------------------------------------------------------------ mixed values

  lemma {:induction false} HolesSkipped(ts: seq<Option<Value>>, a: Value, n: nat, m: nat)
    requires a.Arr? && n <= m <= |a.items| && forall i :: n <= i < m ==> a.items[i].None?
    ensures MergeItems(ts, a, n) == MergeItems(ts, a, m)
    decreases m - n
  {
    if n == m {
    } else {
      HolesSkipped(ts, a, n + 1, m);
    }
  }

  /**
   An item with an index that is merged into an array: two objects at one index are merged;
   where anything else stands it comes last; otherwise it takes its place, behind holes if need be.
   */
  lemma MergedItem(ts: seq<Option<Value>>, n: nat, x: Value)
    ensures var a := Arr(Holes(n) + [Some(x)]);
            Merge(Arr(ts), a) == Arr(
              if n >= |ts| then ts + Holes(n - |ts|) + [Some(x)]
              else if ts[n].None? then ts[n := Some(x)]
              else if IsObject(ts[n].value) && IsObject(x) then ts[n := Some(Merge(ts[n].value, x))]
              else ts + [Some(x)])
  {
    hide Merge;
    var a := Arr(Holes(n) + [Some(x)]);
    HolesSkipped(ts, a, 0, n);
    ItemAtEnd(ts, a, n, x);
    MergeArrays(ts, a);
  }

  lemma MergeArrays(ts: seq<Option<Value>>, a: Value)
    requires a.Arr?
    ensures Merge(Arr(ts), a) == Arr(MergeItems(ts, a, 0))
  {
    hide MergeItems;
  }

  lemma ItemAtEnd(ts: seq<Option<Value>>, a: Value, n: nat, x: Value)
    requires a.Arr? && |a.items| == n + 1 && a.items[n] == Some(x)
    ensures MergeItems(ts, a, n) ==
            if n >= |ts| then ts + Holes(n - |ts|) + [Some(x)]
            else if ts[n].None? then ts[n := Some(x)]
            else if IsObject(ts[n].value) && IsObject(x) then ts[n := Some(Merge(ts[n].value, x))]
            else ts + [Some(x)]
  {
    hide Merge, Holes;
    var end := n + 1;
    forall us
      ensures MergeItems(us, a, end) == us
    {
    }
  }

  /** A text that is merged into an array comes last; into an object it is a key, unless every object has that member; two texts make an array. */
  lemma MergedText(t: Value, s: Str)
    requires s != []
    ensures t.Arr? ==> Merge(t, Text(s)) == Arr(t.items + [Some(Text(s))])
    ensures t.Text? ==> Merge(t, Text(s)) == Arr([Some(t), Some(Text(s))])
    ensures t.Obj? ==>
              Merge(t, Text(s)) == if exists name :: IsObjectMember(name) && Ascii(name) == s then t else Obj(Put(t.entries, s, True))
    ensures Merge(t, Text([])) == t
  {
    hide Put, Ascii;
    forall name
      ensures IsObjectMember(name) <==> exists i :: 0 <= i < |PROTOTYPE_NAMES| && PROTOTYPE_NAMES[i] == name
    {
      MembersListed(name);
    }
    if IsPrototypeName(s) {
      var i :| 0 <= i < |PROTOTYPE_NAMES| && Ascii(PROTOTYPE_NAMES[i]) == s;
      assert IsObjectMember(PROTOTYPE_NAMES[i]);
    }
  }
}
