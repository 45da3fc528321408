/**
 The round trip: parsing what the printer printed gives the value back, up to the
 members named `__proto__`, which the parser cannot define.
 */
module Json5RoundTrip {
  import opened CodeUnits
  import opened Json5
  import opened Options
  import opened Json5Print

  // ---------------------------------------------------------------- the values

  predicate BoxedText(sign: Str, text: Str, finite: Str -> bool) {
    && (sign == [] || sign == [MINUS] || sign == [PLUS])
    && |text| > 15 && AllDigits(text) && text[0] != ZERO && finite(text)
  }

  predicate DistinctKeys(entries: seq<Member>) {
    forall i, j :: 0 <= i < j < |entries| ==> entries[i].key != entries[j].key
  }

  /** The values the format promises to carry: no host numbers, no non-finite ones, keys distinct. */
  predicate Plain(v: Json, finite: Str -> bool) {
    match v
    case JInt(n) => -1_000_000_000_000_000 < n < 1_000_000_000_000_000
    case JBoxed(sign, text) => BoxedText(sign, text, finite)
    case JHost(_, _) => false
    case JInfinity(_) => false
    case JNaN => false
    case JArray(items) => forall i :: 0 <= i < |items| ==> Plain(items[i], finite)
    case JObject(entries) =>
      DistinctKeys(entries) && forall i :: 0 <= i < |entries| ==> Plain(entries[i].value, finite)
    case _ => true
  }

  lemma {:induction false} PlainIsHostFree(v: Json, finite: Str -> bool)
    requires Plain(v, finite)
    ensures HostFree(v)
  {
    match v
    case JArray(items) =>
      forall i | 0 <= i < |items| ensures HostFree(items[i]) { PlainIsHostFree(items[i], finite); }
    case JObject(entries) =>
      forall i | 0 <= i < |entries| ensures HostFree(entries[i].value) { PlainIsHostFree(entries[i].value, finite); }
    case _ =>
  }

  /** The value without the members the parser cannot define. */
  function Dropped(v: Json): Json
    decreases v, 1
  {
    match v
    case JArray(items) => JArray(DroppedItems(items))
    case JObject(entries) => JObject(DroppedMembers(entries))
    case _ => v
  }

  function DroppedItems(items: seq<Json>): (r: seq<Json>)
    ensures |r| == |items|
    decreases items, 0
  {
    if items == [] then [] else [Dropped(items[0])] + DroppedItems(items[1..])
  }

  function DroppedMembers(entries: seq<Member>): seq<Member>
    decreases entries, 0
  {
    if entries == [] then []
    else (if entries[0].key == PROTO then [] else [Member(entries[0].key, Dropped(entries[0].value))])
         + DroppedMembers(entries[1..])
  }

  /** No object in the value has a member named `__proto__`. */
  predicate ProtoFree(v: Json) {
    match v
    case JArray(items) => forall i :: 0 <= i < |items| ==> ProtoFree(items[i])
    case JObject(entries) =>
      forall i :: 0 <= i < |entries| ==> entries[i].key != PROTO && ProtoFree(entries[i].value)
    case _ => true
  }

  /** No object in the value hides one of the methods the printer calls on it. */
  predicate Printable(v: Json) {
    match v
    case JArray(items) => forall i :: 0 <= i < |items| ==> Printable(items[i])
    case JObject(entries) =>
      !HidesMethod(entries) && forall i :: 0 <= i < |entries| ==> Printable(entries[i].value)
    case _ => true
  }

  // ----------------------------------------------------------------- whitespace

  predicate AllWhite(s: Str) {
    forall i :: 0 <= i < |s| ==> IsWhite(s[i])
  }

  /** Input whose first character is neither whitespace nor the start of a comment. */
  predicate Solid(t: Str) {
    t != [] && !IsWhite(t[0]) && t[0] != SLASH
  }

  lemma {:induction false} WhiteOver(ws: Str, t: Str)
    requires AllWhite(ws) && (t == [] || Solid(t))
    ensures White(ws + t) == Some(t)
  {
    if ws == [] {
      assert ws + t == t;
    } else {
      WhiteOver(ws[1..], t);
      assert (ws + t)[1..] == ws[1..] + t;
    }
  }

  lemma {:induction false} TimesWhite(s: Str, n: nat)
    requires AllWhite(s)
    ensures AllWhite(Times(s, n))
  {
    if n == 0 {
    } else {
      TimesWhite(s, n - 1);
    }
  }

  lemma IndentWhite(p: Str, depth: nat, noNewLine: bool)
    requires AllWhite(p)
    ensures AllWhite(Indent(p, depth, noNewLine))
  {
    var unit := if |p| > 10 then p[..10] else p;
    TimesWhite(unit, depth);
  }

  // -------------------------------------------------------------------- strings

  lemma HexFour(c: Unit)
    ensures var padded := [ZERO, ZERO, ZERO, ZERO] + HexText(c);
            padded[|padded| - 4..] == [HexDigit(c / 4096), HexDigit(c / 256 % 16), HexDigit(c / 16 % 16), HexDigit(c % 16)]
  {
    hide HexText, HexDigit;
    var a, b, d := c / 16, c / 256, c / 4096;
    assert b == a / 16 && d == b / 16;
    HexLast(c);
    HexLast(a);
    HexLast(b);
    if c >= 16 && a >= 16 && b >= 16 {
      HexLast(d);
    }
    HexZero();
  }

  lemma HexLast(n: nat)
    ensures HexText(n) == if n < 16 then [HexDigit(n)] else HexText(n / 16) + [HexDigit(n % 16)]
  {
  }

  lemma HexZero()
    ensures HexDigit(0) == ZERO
  {
  }

  lemma HexStep(before: Unit, v: nat, rest: Str, count: nat, a: nat)
    requires v < 16 && count < 4
    ensures HexEscape([before, HexDigit(v)] + rest, count, a) == HexEscape([HexDigit(v)] + rest, count + 1, 16 * a + v)
  {
    var t := [before, HexDigit(v)] + rest;
    assert Next(t) == [HexDigit(v)] + rest;
    assert HexValue(HexDigit(v)) == v;
  }

  lemma HexRead(w: nat, x: nat, y: nat, z: nat, rest: Str)
    requires w < 16 && x < 16 && y < 16 && z < 16
    ensures HexEscape([LOWER_U, HexDigit(w), HexDigit(x), HexDigit(y), HexDigit(z)] + rest, 0, 0)
         == (16 * (16 * (16 * w + x) + y) + z, [HexDigit(z)] + rest)
  {
    hide HexEscape;
    var r1 := [HexDigit(x), HexDigit(y), HexDigit(z)] + rest;
    assert [LOWER_U, HexDigit(w), HexDigit(x), HexDigit(y), HexDigit(z)] + rest == [LOWER_U, HexDigit(w)] + r1;
    HexStep(LOWER_U, w, r1, 0, 0);
    var r2 := [HexDigit(y), HexDigit(z)] + rest;
    assert [HexDigit(w)] + r1 == [HexDigit(w), HexDigit(x)] + r2;
    HexStep(HexDigit(w), x, r2, 1, w);
    var r3 := [HexDigit(z)] + rest;
    assert [HexDigit(x)] + r2 == [HexDigit(x), HexDigit(y)] + r3;
    HexStep(HexDigit(x), y, r3, 2, 16 * w + x);
    assert [HexDigit(y)] + r3 == [HexDigit(y), HexDigit(z)] + rest;
    HexStep(HexDigit(y), z, rest, 3, 16 * (16 * w + x) + y);
    HexEnd(r3, 16 * (16 * (16 * w + x) + y) + z);
  }

  lemma HexEnd(t: Str, a: nat)
    ensures HexEscape(t, 4, a) == (a, t)
  {
  }

  /** Every printed escape is read back as the one character it stands for. */
  lemma EscapeRead(c: Unit, rest: Str)
    ensures StringChars(Escape(c) + rest, QUOTE) == Prepend([c], StringChars(rest, QUOTE))
  {
    if |Escape(c)| == 2 {
      ShortEscapeRead(c, rest);
    } else {
      HexEscapeRead(c, rest);
    }
  }

  lemma ShortEscapeRead(c: Unit, rest: Str)
    requires |Escape(c)| == 2
    ensures StringChars(Escape(c) + rest, QUOTE) == Prepend([c], StringChars(rest, QUOTE))
  {
    var x := Escape(c)[1];
    assert Escape(c) == [BACKSLASH, x] && x != LOWER_U && x != CR && Escapee(x) == Some([c]);
    hide Escape, HexEscape, HexText, Escapee;
    var t := [BACKSLASH, x] + rest;
    assert t[1..] == [x] + rest;
    assert t[1..][1..] == rest;
  }

  lemma HexParts(c: Unit)
    ensures c / 4096 < 16
    ensures 16 * (16 * (16 * (c / 4096) + c / 256 % 16) + c / 16 % 16) + c % 16 == c
  {
    assert c / 16 == 16 * (c / 256) + c / 16 % 16;
    assert c / 256 == 16 * (c / 4096) + c / 256 % 16;
  }

  lemma StringCharsHex(t: Str, a: Unit, t3: Str)
    requires At(t, LOWER_U) && HexEscape(t, 0, 0) == (a, t3)
    ensures StringChars([BACKSLASH] + t, QUOTE) == Prepend([a], StringChars(Next(t3), QUOTE))
  {
    hide HexEscape, Prepend, Escapee;
    assert ([BACKSLASH] + t)[1..] == t;
  }

  lemma HexEscapeRead(c: Unit, rest: Str)
    requires |Escape(c)| != 2
    ensures StringChars(Escape(c) + rest, QUOTE) == Prepend([c], StringChars(rest, QUOTE))
  {
    hide *;
    HexFour(c);
    HexParts(c);
    var w, x, y, z := c / 4096, c / 256 % 16, c / 16 % 16, c % 16;
    HexEscapeText(c);
    HexRead(w, x, y, z, rest);
    var t := [LOWER_U, HexDigit(w), HexDigit(x), HexDigit(y), HexDigit(z)] + rest;
    HexAssoc([LOWER_U, HexDigit(w), HexDigit(x), HexDigit(y), HexDigit(z)], HexDigit(z), rest);
    StringCharsHex(t, c, [HexDigit(z)] + rest);
  }

  lemma HexEscapeText(c: Unit)
    requires |Escape(c)| != 2
    ensures c / 4096 < 16
    ensures Escape(c) == [BACKSLASH] + [LOWER_U, HexDigit(c / 4096), HexDigit(c / 256 % 16), HexDigit(c / 16 % 16), HexDigit(c % 16)]
  {
    hide HexText, HexDigit;
    HexFour(c);
  }

  lemma HexAssoc(body: Str, z: Unit, rest: Str)
    requires body != [] && body[0] == LOWER_U
    ensures [BACKSLASH] + body + rest == [BACKSLASH] + (body + rest)
    ensures At(body + rest, LOWER_U)
    ensures Next([z] + rest) == rest
  {
  }

  lemma PlainRead(c: Unit, rest: Str)
    requires !Escaped(c)
    ensures StringChars([c] + rest, QUOTE) == Prepend([c], StringChars(rest, QUOTE))
  {
    assert ([c] + rest)[1..] == rest;
  }

  lemma Assoc(a: Str, b: Str, c: Str)
    ensures (a + b) + c == a + (b + c)
  {
  }

  lemma {:induction false} EscapeAllRead(s: Str, rest: Str)
    ensures StringChars(EscapeAll(s) + ([QUOTE] + rest), QUOTE) == Some((s, rest))
  {
    if s == [] {
      ClosingQuote(rest);
    } else {
      var e, later := if Escaped(s[0]) then Escape(s[0]) else [s[0]], EscapeAll(s[1..]);
      EscapeAllRead(s[1..], rest);
      var tail := later + ([QUOTE] + rest);
      assert EscapeAll(s) == e + later;
      if Escaped(s[0]) {
        EscapeRead(s[0], tail);
      } else {
        PlainRead(s[0], tail);
      }
      hide *;
      Assoc(e, later, [QUOTE] + rest);
      PrependRead(s, rest);
    }
  }

  lemma ClosingQuote(rest: Str)
    ensures StringChars(EscapeAll([]) + ([QUOTE] + rest), QUOTE) == Some(([], rest))
  {
    assert [] + ([QUOTE] + rest) == [QUOTE] + rest;
    assert ([QUOTE] + rest)[1..] == rest;
  }

  lemma PrependRead(s: Str, rest: Str)
    requires s != []
    ensures Prepend([s[0]], Some((s[1..], rest))) == Some((s, rest))
  {
    assert [s[0]] + s[1..] == s;
  }

  lemma {:induction false} NothingEscaped(s: Str)
    requires forall i :: 0 <= i < |s| ==> !Escaped(s[i])
    ensures EscapeAll(s) == s
  {
    if s == [] {
    } else {
      NothingEscaped(s[1..]);
    }
  }

  lemma QuoteIsEscapeAll(s: Str)
    ensures Quote(s) == [QUOTE] + (EscapeAll(s) + [QUOTE])
  {
    if forall i :: 0 <= i < |s| ==> !Escaped(s[i]) {
      NothingEscaped(s);
    }
  }

  /** A quoted string is read back, all escapes included. */
  lemma QuoteRead(s: Str, rest: Str)
    ensures StringToken(Quote(s) + rest) == Some((s, rest))
  {
    QuoteIsEscapeAll(s);
    EscapeAllRead(s, rest);
    hide StringChars, EscapeAll, Quote;
    var body := EscapeAll(s) + [QUOTE];
    Assoc([QUOTE], body, rest);
    Assoc(EscapeAll(s), [QUOTE], rest);
    assert ([QUOTE] + (body + rest))[1..] == body + rest;
  }

  /** Whether or not a key is a word, it is printed as a quoted string. */
  lemma KeyIsQuoted(w: Str)
    ensures KeyText(w) == Quote(w)
  {
    if IsWord(w) {
      forall i | 0 <= i < |w|
        ensures !Escaped(w[i]) && w[i] != QUOTE
      {
        assert IsWordChar(w[i]);
      }
      assert !HasQuotedPart(w);
    } else {
      QuotedPart(w);
    }
  }

  lemma PlainOneLine(c: Unit)
    requires !Escaped(c)
    ensures !IsLineEnd(c)
  {
  }

  lemma ShortOneLine(c: Unit)
    requires |Escape(c)| == 2
    ensures !IsLineEnd(Escape(c)[0]) && !IsLineEnd(Escape(c)[1])
  {
    hide HexText;
  }

  lemma HexOneLine(v: nat)
    requires v < 16
    ensures !IsLineEnd(HexDigit(v)) && !IsLineEnd(BACKSLASH) && !IsLineEnd(LOWER_U)
  {
  }

  lemma EscapeOneLine(c: Unit)
    ensures var e := if Escaped(c) then Escape(c) else [c];
            forall i :: 0 <= i < |e| ==> !IsLineEnd(e[i])
  {
    hide *;
    if !Escaped(c) {
      PlainOneLine(c);
    } else if |Escape(c)| == 2 {
      ShortOneLine(c);
    } else {
      HexEscapeText(c);
      HexOneLine(c / 4096);
      HexOneLine(c / 256 % 16);
      HexOneLine(c / 16 % 16);
      HexOneLine(c % 16);
    }
  }

  lemma {:induction false} NoLineEnds(s: Str)
    ensures forall i :: 0 <= i < |EscapeAll(s)| ==> !IsLineEnd(EscapeAll(s)[i])
  {
    if s == [] {
    } else {
      NoLineEnds(s[1..]);
      EscapeOneLine(s[0]);
      hide Escaped, Escape, IsLineEnd;
      var e, rest := if Escaped(s[0]) then Escape(s[0]) else [s[0]], EscapeAll(s[1..]);
      assert EscapeAll(s) == e + rest;
    }
  }

  lemma QuotedPart(w: Str)
    ensures HasQuotedPart(Quote(w))
  {
    QuoteIsEscapeAll(w);
    NoLineEnds(w);
    hide Quote, EscapeAll;
    var q := Quote(w);
    assert q == [QUOTE] + (EscapeAll(w) + [QUOTE]);
    assert q[0] == QUOTE && q[|q| - 1] == QUOTE;
    forall k | 0 < k < |q| - 1
      ensures !IsLineEnd(q[k])
    {
      assert q[k] == EscapeAll(w)[k - 1];
    }
  }

  // -------------------------------------------------------------------- numbers

  /** Input at which a number ends. */
  predicate Stop(t: Str) {
    t != [] ==> t[0] == COMMA || t[0] == CLOSE_BRACE || t[0] == CLOSE_BRACKET || t[0] == LF
  }

  lemma {:induction false} DecimalTextDenotes(n: nat)
    ensures AllDigits(DecimalText(n)) && DecimalValue(DecimalText(n)) == n
    ensures DecimalText(n)[0] == ZERO <==> n == 0
  {
    if n >= 10 {
      DecimalTextDenotes(n / 10);
      var s := DecimalText(n);
      assert s[..|s| - 1] == DecimalText(n / 10);
      assert s[0] == DecimalText(n / 10)[0];
    } else {
      assert DecimalText(n)[..0] == [];
    }
  }

  lemma {:induction false} DecimalTextLength(n: nat, k: nat, bound: nat)
    requires k >= 1 && n < bound && IsPowerOfTen(bound, k)
    ensures |DecimalText(n)| <= k
  {
    if n < 10 {
    } else {
      assert k > 1;
      DecimalTextLength(n / 10, k - 1, bound / 10);
    }
  }

  predicate IsPowerOfTen(b: nat, k: nat) {
    if k == 0 then b == 1 else b % 10 == 0 && IsPowerOfTen(b / 10, k - 1)
  }

  lemma {:induction false} DigitsOver(d: Str, rest: Str)
    requires AllDigits(d) && (rest == [] || !IsDigit(rest[0]))
    ensures Digits(d + rest) == |d|
  {
    if d == [] {
      assert d + rest == rest;
    } else {
      DigitsOver(d[1..], rest);
      assert (d + rest)[1..] == d[1..] + rest;
    }
  }

  /** A run of digits without a superfluous zero is one numeral. */
  lemma NumeralOver(d: Str, rest: Str)
    requires d != [] && AllDigits(d) && (d[0] == ZERO ==> |d| == 1) && Stop(rest)
    ensures NumeralLength(d + rest) == Some(|d|)
    ensures (d + rest)[..|d|] == d && (d + rest)[|d|..] == rest
  {
    DigitsOver(d, rest);
    var t := d + rest;
    assert t[|d|..] == rest;
    assert t[|d| + 0..] == rest;
    if d[0] == ZERO {
      assert t[1..] == rest;
    }
    assert IsDigit(d[0]);
  }

  lemma NumberRead(sign: Str, d: Str, rest: Str, finite: Str -> bool)
    requires sign == [] || sign == [MINUS] || sign == [PLUS]
    requires d != [] && AllDigits(d) && (d[0] == ZERO ==> |d| == 1) && Stop(rest)
    ensures var t := sign + d + rest;
            && t != [] && (t[0] == MINUS || t[0] == PLUS || IsDigit(t[0]))
            && NumberToken(t, finite) ==
                 match NumeralValue(sign, d, finite) { case None => None case Some(v) => Some((v, rest)) }
  {
    var t := sign + d + rest;
    assert IsDigit(d[0]);
    var t1 := d + rest;
    assert sign == [] ==> t == t1;
    assert sign != [] ==> t[1..] == t1;
    NumeralOver(d, rest);
  }

  lemma IntRead(n: int, rest: Str, finite: Str -> bool)
    requires -1_000_000_000_000_000 < n < 1_000_000_000_000_000 && Stop(rest)
    ensures var t := IntText(n) + rest;
            && t != [] && (t[0] == MINUS || IsDigit(t[0]))
            && NumberToken(t, finite) == Some((JInt(n), rest))
  {
    var m := if n < 0 then -n else n;
    var sign: Str := if n < 0 then [MINUS] else [];
    DecimalTextDenotes(m);
    PowerOfTen15();
    DecimalTextLength(m, 15, 1_000_000_000_000_000);
    assert IntText(n) == sign + DecimalText(m);
    if m == 0 {
      assert DecimalText(0) == [ZERO];
    }
    NumberRead(sign, DecimalText(m), rest, finite);
  }

  lemma PowerOfTen15()
    ensures IsPowerOfTen(1_000_000_000_000_000, 15)
  {
    assert IsPowerOfTen(1, 0);
    assert IsPowerOfTen(1000, 3);
    assert IsPowerOfTen(1_000_000, 6);
    assert IsPowerOfTen(1_000_000_000, 9);
    assert IsPowerOfTen(1_000_000_000_000, 12);
  }

  // ---------------------------------------------------------------- the printer

  /** The first characters of printed values. */
  predicate ValueHead(t: Str) {
    t != [] && (t[0] == 0x6E || t[0] == 0x74 || t[0] == 0x66 || IsDigit(t[0]) || t[0] == MINUS || t[0] == PLUS
                || t[0] == QUOTE || t[0] == OPEN_BRACKET || t[0] == OPEN_BRACE)
  }

  lemma PrintHead(v: Json, depth: nat, p: Str, finite: Str -> bool)
    requires Plain(v, finite) && HostFree(v) && Print(v, depth, p).Some?
    ensures ValueHead(Print(v, depth, p).value)
  {
    hide PrintItems, PrintMembers;
    match v
    case JInt(n) =>
      DecimalTextDenotes(if n < 0 then -n else n);
    case JString(s) =>
      assert Quote(s)[0] == QUOTE;
    case JBoxed(sign, text) =>
      assert sign == [] ==> sign + text == text;
    case _ =>
  }

  lemma {:induction false} PrintDefined(v: Json, depth: nat, p: Str)
    requires HostFree(v)
    ensures Print(v, depth, p).Some? <==> Printable(v)
    decreases v, 1
  {
    match v
    case JArray(items) => PrintItemsDefined(items, depth + 1, p);
    case JObject(entries) => PrintMembersDefined(entries, depth + 1, p);
    case _ =>
  }

  lemma {:induction false} PrintItemsDefined(items: seq<Json>, depth: nat, p: Str)
    requires forall i :: 0 <= i < |items| ==> HostFree(items[i])
    ensures PrintItems(items, depth, p).Some? <==> forall i :: 0 <= i < |items| ==> Printable(items[i])
    decreases items, 0
  {
    if items == [] {
    } else {
      PrintDefined(items[0], depth, p);
      PrintItemsDefined(items[1..], depth, p);
      assert forall i :: 1 <= i < |items| ==> items[i] == items[1..][i - 1];
    }
  }

  lemma {:induction false} PrintMembersDefined(entries: seq<Member>, depth: nat, p: Str)
    requires forall i :: 0 <= i < |entries| ==> HostFree(entries[i].value)
    ensures PrintMembers(entries, depth, p).Some? <==> forall i :: 0 <= i < |entries| ==> Printable(entries[i].value)
    decreases entries, 0
  {
    if entries == [] {
    } else {
      PrintDefined(entries[0].value, depth, p);
      PrintMembersDefined(entries[1..], depth, p);
      assert forall i :: 1 <= i < |entries| ==> entries[i] == entries[1..][i - 1];
    }
  }

  // --------------------------------------------------------- one step of parsing

  lemma ValueAtWhite(ws: Str, t: Str, finite: Str -> bool)
    requires AllWhite(ws) && Solid(t)
    ensures ValueAt(ws + t, finite) == ValueAt(t, finite)
  {
    WhiteOver(ws, t);
    WhiteOver([], t);
    assert [] + t == t;
  }

  lemma SolidWhite(t: Str)
    requires Solid(t)
    ensures White(t) == Some(t)
  {
  }

  lemma ValueAtArray(inner: Str, finite: Str -> bool)
    requires White(inner).Some?
    ensures ValueAt([OPEN_BRACKET] + inner, finite) == ItemsAt(White(inner).value, [], finite)
  {
    var t := [OPEN_BRACKET] + inner;
    SolidWhite(t);
    hide White, ItemsAt, MembersAt;
    assert t[1..] == inner;
  }

  lemma ValueAtObject(inner: Str, finite: Str -> bool)
    requires White(inner).Some?
    ensures ValueAt([OPEN_BRACE] + inner, finite) == MembersAt(White(inner).value, [], finite)
  {
    var t := [OPEN_BRACE] + inner;
    SolidWhite(t);
    hide White, ItemsAt, MembersAt;
    assert t[1..] == inner;
  }

  lemma NoItems(rest: Str, finite: Str -> bool)
    ensures White([CLOSE_BRACKET] + rest) == Some([CLOSE_BRACKET] + rest)
    ensures ItemsAt([CLOSE_BRACKET] + rest, [], finite) == Some((JArray([]), rest))
  {
    hide ValueAt;
    assert ([CLOSE_BRACKET] + rest)[1..] == rest;
  }

  lemma NoMembers(rest: Str, finite: Str -> bool)
    ensures White([CLOSE_BRACE] + rest) == Some([CLOSE_BRACE] + rest)
    ensures MembersAt([CLOSE_BRACE] + rest, [], finite) == Some((JObject([]), rest))
  {
    hide ValueAt;
    assert ([CLOSE_BRACE] + rest)[1..] == rest;
  }

  /** One item followed by a comma. */
  lemma ItemsStep(t: Str, acc: seq<Json>, v: Json, next: Str, finite: Str -> bool)
    requires ValueHead(t) && ValueAt(t, finite) == Some((v, [COMMA] + next)) && White(next).Some?
    ensures ItemsAt(t, acc, finite) == ItemsAt(White(next).value, acc + [v], finite)
  {
    hide ValueAt;
    SolidWhite([COMMA] + next);
    assert ([COMMA] + next)[1..] == next;
  }

  lemma ItemsLast(t: Str, acc: seq<Json>, v: Json, after: Str, rest: Str, finite: Str -> bool)
    requires ValueHead(t) && ValueAt(t, finite) == Some((v, after)) && White(after) == Some([CLOSE_BRACKET] + rest)
    ensures ItemsAt(t, acc, finite) == Some((JArray(acc + [v]), rest))
  {
    hide ValueAt;
    assert ([CLOSE_BRACKET] + rest)[1..] == rest;
  }

  /** One member followed by a comma. */
  lemma MembersStep(key: Str, t: Str, acc: seq<Member>, v: Json, next: Str, finite: Str -> bool)
    requires ValueAt(t, finite) == Some((v, [COMMA] + next)) && White(next).Some?
    ensures MembersAt(KeyText(key) + [COLON] + t, acc, finite) == MembersAt(White(next).value, Assign(acc, key, v), finite)
  {
    hide ValueAt, StringToken, Assign, Quote, KeyText;
    KeyColon(key, t);
    SolidWhite([COMMA] + next);
    assert ([COMMA] + next)[1..] == next;
  }

  lemma MembersLast(key: Str, t: Str, acc: seq<Member>, v: Json, after: Str, rest: Str, finite: Str -> bool)
    requires ValueAt(t, finite) == Some((v, after)) && White(after) == Some([CLOSE_BRACE] + rest)
    ensures MembersAt(KeyText(key) + [COLON] + t, acc, finite) == Some((JObject(Assign(acc, key, v)), rest))
  {
    hide ValueAt, StringToken, Assign, Quote, KeyText;
    KeyColon(key, t);
    assert ([CLOSE_BRACE] + rest)[1..] == rest;
  }

  lemma KeyColon(key: Str, t: Str)
    ensures var all := KeyText(key) + [COLON] + t;
            && At(all, QUOTE) && Solid(all)
            && KeyAt(all) == Some((key, [COLON] + t))
            && White([COLON] + t) == Some([COLON] + t)
            && Expect([COLON] + t, COLON) == Some(t)
  {
    KeyIsQuoted(key);
    QuoteRead(key, [COLON] + t);
    assert KeyText(key) + [COLON] + t == Quote(key) + ([COLON] + t);
    assert Quote(key)[0] == QUOTE;
    SolidWhite([COLON] + t);
    assert ([COLON] + t)[1..] == t;
  }

  lemma {:induction false} FindFresh(acc: seq<Member>, key: Str)
    requires forall i :: 0 <= i < |acc| ==> acc[i].key != key
    ensures Find(acc, key) == |acc|
  {
    if acc == [] {
    } else {
      FindFresh(acc[1..], key);
    }
  }

  // -------------------------------------------------------------- the round trip

  lemma {:induction false} ValueRound(v: Json, depth: nat, p: Str, rest: Str, finite: Str -> bool)
    requires Plain(v, finite) && HostFree(v) && AllWhite(p) && Print(v, depth, p).Some? && Stop(rest)
    ensures ValueAt(Print(v, depth, p).value + rest, finite) == Some((Dropped(v), rest))
    decreases v, 1
  {
    match v
    case JArray(items) => ArrayRound(items, depth, p, rest, finite);
    case JObject(entries) => ObjectRound(entries, depth, p, rest, finite);
    case _ => LeafRound(v, depth, p, rest, finite);
  }

  lemma WordRead(w: Str, v: Json, rest: Str)
    requires w == TRUE || w == FALSE || w == NULL
    ensures Literal(w + rest, w, v) == Some((v, rest))
  {
    ExpectAllRead(w, rest);
  }

  lemma {:induction false} ExpectAllRead(w: Str, rest: Str)
    ensures ExpectAll(w + rest, w) == Some(rest)
  {
    if w == [] {
      assert w + rest == rest;
    } else {
      ExpectAllRead(w[1..], rest);
      assert (w + rest)[1..] == w[1..] + rest;
    }
  }

  lemma LeafRound(v: Json, depth: nat, p: Str, rest: Str, finite: Str -> bool)
    requires Plain(v, finite) && HostFree(v) && !v.JArray? && !v.JObject? && Stop(rest)
    ensures ValueAt(Print(v, depth, p).value + rest, finite) == Some((v, rest))
  {
    hide Literal, NumberToken, StringToken, Quote, MembersAt, ItemsAt, DecimalText, IntText;
    match v
    case JNull =>
      WordRead(NULL, v, rest);
      SolidWhite(NULL + rest);
    case JBool(b) =>
      var w := if b then TRUE else FALSE;
      WordRead(w, v, rest);
      SolidWhite(w + rest);
    case JInt(n) =>
      IntRead(n, rest, finite);
      SolidWhite(IntText(n) + rest);
    case JBoxed(sign, text) =>
      assert IsDigit(text[0]);
      NumberRead(sign, text, rest, finite);
      SolidWhite(sign + text + rest);
    case JString(s) =>
      QuoteRead(s, rest);
      QuoteIsEscapeAll(s);
      SolidWhite(Quote(s) + rest);
  }

  lemma {:induction false} ArrayRound(items: seq<Json>, depth: nat, p: Str, rest: Str, finite: Str -> bool)
    requires Plain(JArray(items), finite) && HostFree(JArray(items)) && AllWhite(p)
    requires Print(JArray(items), depth, p).Some?
    ensures ValueAt(Print(JArray(items), depth, p).value + rest, finite) == Some((JArray(DroppedItems(items)), rest))
    decreases JArray(items), 0
  {
    hide *;
    PlainItems(items, finite);
    PrintedArray(items, depth, p);
    var body, ws := PrintItems(items, depth + 1, p).value, Indent(p, depth, true);
    IndentWhite(p, depth, true);
    IndentShape(p, depth, true);
    if items == [] {
      EmptyBodies(depth + 1, p);
      NoItems(rest, finite);
      Assoc([OPEN_BRACKET], [CLOSE_BRACKET], rest);
      ValueAtArray([CLOSE_BRACKET] + rest, finite);
    } else {
      BracketText([OPEN_BRACKET], body, ws, [CLOSE_BRACKET], rest);
      ItemsRound(items, [], depth + 1, p, ws, rest, finite);
      assert [] + DroppedItems(items) == DroppedItems(items);
      ValueAtArray(body + (ws + [CLOSE_BRACKET] + rest), finite);
    }
  }

  lemma PlainItems(items: seq<Json>, finite: Str -> bool)
    requires Plain(JArray(items), finite) && HostFree(JArray(items))
    ensures forall i :: 0 <= i < |items| ==> Plain(items[i], finite) && HostFree(items[i])
  {
  }

  lemma PrintedArray(items: seq<Json>, depth: nat, p: Str)
    requires HostFree(JArray(items)) && Print(JArray(items), depth, p).Some?
    ensures PrintItems(items, depth + 1, p).Some?
    ensures Print(JArray(items), depth, p).value
         == if items == [] then [OPEN_BRACKET] + [CLOSE_BRACKET]
            else [OPEN_BRACKET] + PrintItems(items, depth + 1, p).value + Indent(p, depth, true) + [CLOSE_BRACKET]
  {
    hide Indent;
    if items == [] {
      EmptyBodies(depth + 1, p);
    }
  }

  lemma EmptyBodies(depth: nat, p: Str)
    ensures PrintItems([], depth, p) == Some([]) && DroppedItems([]) == []
    ensures PrintMembers([], depth, p) == Some([]) && DroppedMembers([]) == []
  {
  }

  lemma BracketText(open: Str, body: Str, ws: Str, close: Str, rest: Str)
    ensures open + body + ws + close + rest == open + (body + (ws + close + rest))
  {
  }

  lemma IndentShape(p: Str, depth: nat, noNewLine: bool)
    ensures p == [] ==> Indent(p, depth, noNewLine) == []
    ensures p != [] && !noNewLine ==> Indent(p, depth, noNewLine) != [] && Indent(p, depth, noNewLine)[0] == LF
  {
  }

  lemma ItemText(ind: Str, x: Str, mark: Str, next: Str, tail: Str)
    ensures ind + x + mark + next + tail == ind + (x + (mark + (next + tail)))
  {
  }

  lemma {:induction false} ItemsRound(items: seq<Json>, acc: seq<Json>, depth: nat, p: Str, ws: Str, rest: Str, finite: Str -> bool)
    requires items != [] && AllWhite(p) && AllWhite(ws) && (p == [] ==> ws == [])
    requires forall i :: 0 <= i < |items| ==> Plain(items[i], finite) && HostFree(items[i])
    requires PrintItems(items, depth, p).Some?
    ensures var w := White(PrintItems(items, depth, p).value + (ws + [CLOSE_BRACKET] + rest));
            w.Some? && ItemsAt(w.value, acc, finite) == Some((JArray(acc + DroppedItems(items)), rest))
    decreases items, 0
  {
    hide *;
    var first, more := items[0], items[1..];
    PrintItemsStep(items, depth, p);
    var ind, x := Indent(p, depth, false), Print(first, depth, p).value;
    var tail := ws + [CLOSE_BRACKET] + rest;
    var next := PrintItems(more, depth, p).value;
    var mark: Str := if |items| > 1 then [COMMA] else if p != [] then [LF] else [];
    var after := mark + (next + tail);
    var t := x + after;
    var v := Dropped(first);
    ItemText(ind, x, mark, next, tail);
    PrintHead(first, depth, p, finite);
    EmptyBodies(depth, p);
    assert |items| == 1 ==> more == [];
    ItemEnds(ws, mark, x, next, rest);
    IndentWhite(p, depth, false);
    WhiteOver(ind, t);
    ValueRound(first, depth, p, after, finite);
    assert acc + ([v] + DroppedItems(more)) == acc + [v] + DroppedItems(more);
    if |items| > 1 {
      ItemsRound(more, acc + [v], depth, p, ws, rest, finite);
      ItemsStep(t, acc, v, next + tail, finite);
    } else {
      WhiteOver(mark + ws, [CLOSE_BRACKET] + rest);
      ItemsLast(t, acc, v, after, rest, finite);
      assert acc + [v] + [] == acc + [v];
    }
  }

  lemma PrintItemsStep(items: seq<Json>, depth: nat, p: Str)
    requires items != [] && (forall i :: 0 <= i < |items| ==> HostFree(items[i])) && PrintItems(items, depth, p).Some?
    ensures var first, more := items[0], items[1..];
            && Print(first, depth, p).Some? && PrintItems(more, depth, p).Some?
            && PrintItems(items, depth, p).value
               == Indent(p, depth, false) + Print(first, depth, p).value
                  + (if |items| > 1 then [COMMA] else if p != [] then [LF] else []) + PrintItems(more, depth, p).value
            && DroppedItems(items) == [Dropped(first)] + DroppedItems(more)
  {
    hide Print, Indent, Dropped;
  }

  lemma ItemEnds(ws: Str, mark: Str, x: Str, next: Str, rest: Str)
    requires ValueHead(x) && AllWhite(ws)
    requires mark == [COMMA] || (next == [] && (mark == [LF] || (mark == [] && ws == [])))
    ensures var tail := ws + [CLOSE_BRACKET] + rest;
            var after := mark + (next + tail);
            && Stop(after) && ValueHead(x + after) && Solid(x + after)
            && (next == [] && (mark == [] || mark == [LF]) ==> AllWhite(mark + ws) && after == (mark + ws) + ([CLOSE_BRACKET] + rest))
    ensures Solid([CLOSE_BRACKET] + rest)
  {
    if next == [] && (mark == [] || mark == [LF]) {
      var tail := ws + [CLOSE_BRACKET] + rest;
      assert mark + ([] + tail) == (mark + ws) + ([CLOSE_BRACKET] + rest);
    }
  }

  lemma {:induction false} ObjectRound(entries: seq<Member>, depth: nat, p: Str, rest: Str, finite: Str -> bool)
    requires Plain(JObject(entries), finite) && HostFree(JObject(entries)) && AllWhite(p)
    requires Print(JObject(entries), depth, p).Some?
    ensures ValueAt(Print(JObject(entries), depth, p).value + rest, finite) == Some((JObject(DroppedMembers(entries)), rest))
    decreases JObject(entries), 0
  {
    hide *;
    PrintedObject(entries, depth, p);
    PlainMembers(entries, finite);
    var body, ws := PrintMembers(entries, depth + 1, p).value, Indent(p, depth, false);
    IndentWhite(p, depth, false);
    IndentShape(p, depth, false);
    if entries == [] {
      EmptyBodies(depth + 1, p);
      NoMembers(rest, finite);
      Assoc([OPEN_BRACE], [CLOSE_BRACE], rest);
      ValueAtObject([CLOSE_BRACE] + rest, finite);
    } else {
      var init := body[..|body| - 1];
      BracketText([OPEN_BRACE], init, ws, [CLOSE_BRACE], rest);
      MembersRound(entries, [], depth + 1, p, ws, rest, finite);
      assert [] + DroppedMembers(entries) == DroppedMembers(entries);
      ValueAtObject(init + (ws + [CLOSE_BRACE] + rest), finite);
    }
  }

  lemma PlainMembers(entries: seq<Member>, finite: Str -> bool)
    requires Plain(JObject(entries), finite) && HostFree(JObject(entries))
    ensures DistinctKeys(entries)
    ensures forall i :: 0 <= i < |entries| ==> Plain(entries[i].value, finite) && HostFree(entries[i].value)
  {
  }

  lemma PrintedObject(entries: seq<Member>, depth: nat, p: Str)
    requires HostFree(JObject(entries)) && Print(JObject(entries), depth, p).Some?
    ensures forall i :: 0 <= i < |entries| ==> HostFree(entries[i].value)
    ensures PrintMembers(entries, depth + 1, p).Some?
    ensures var body := PrintMembers(entries, depth + 1, p).value;
            && (body == [] <==> entries == [])
            && Print(JObject(entries), depth, p).value
               == if entries == [] then [OPEN_BRACE] + [CLOSE_BRACE]
                  else [OPEN_BRACE] + body[..|body| - 1] + Indent(p, depth, false) + [CLOSE_BRACE]
  {
    hide Indent, HidesMethod, PrintMembers;
    MembersNonEmpty(entries, depth + 1, p);
  }

  lemma MembersNonEmpty(entries: seq<Member>, depth: nat, p: Str)
    requires forall i :: 0 <= i < |entries| ==> HostFree(entries[i].value)
    requires PrintMembers(entries, depth, p).Some?
    ensures PrintMembers(entries, depth, p).value == [] <==> entries == []
  {
  }

  /** The text of the members without its last comma, one member split off. */
  lemma MemberText(ind: Str, key: Str, gap: Str, x: Str, next: Str, tail: Str)
    ensures var body := ind + key + [COLON] + gap + x + [COMMA] + next;
            var after := if next == [] then tail else [COMMA] + (next[..|next| - 1] + tail);
            body[..|body| - 1] + tail == ind + (key + [COLON] + (gap + (x + after)))
  {
    var front := ind + key + [COLON] + gap + x;
    var body := front + [COMMA] + next;
    if next == [] {
      assert body[..|body| - 1] == front;
    } else {
      assert body[..|body| - 1] == front + [COMMA] + next[..|next| - 1];
    }
  }

  lemma {:induction false} MembersRound(entries: seq<Member>, acc: seq<Member>, depth: nat, p: Str, ws: Str, rest: Str,
                                        finite: Str -> bool)
    requires entries != [] && AllWhite(p) && AllWhite(ws) && (p == [] ==> ws == []) && (p != [] ==> ws != [] && ws[0] == LF)
    requires DistinctKeys(entries)
    requires forall i, j :: 0 <= i < |acc| && 0 <= j < |entries| ==> acc[i].key != entries[j].key
    requires forall i :: 0 <= i < |entries| ==> Plain(entries[i].value, finite) && HostFree(entries[i].value)
    requires PrintMembers(entries, depth, p).Some? && |PrintMembers(entries, depth, p).value| > 0
    ensures var body := PrintMembers(entries, depth, p).value;
            var w := White(body[..|body| - 1] + (ws + [CLOSE_BRACE] + rest));
            w.Some? && MembersAt(w.value, acc, finite) == Some((JObject(acc + DroppedMembers(entries)), rest))
    decreases entries, 0
  {
    hide *;
    var first, more := entries[0], entries[1..];
    PrintMembersStep(entries, depth, p);
    var ind, x := Indent(p, depth, false), Print(first.value, depth, p).value;
    var gap: Str := if p != [] then [0x20] else [];
    var tail := ws + [CLOSE_BRACE] + rest;
    var next := PrintMembers(more, depth, p).value;
    var after := if next == [] then tail else [COMMA] + (next[..|next| - 1] + tail);
    var t := gap + (x + after);
    var v := Dropped(first.value);
    var done := Assign(acc, first.key, v);
    AssignDropped(acc, entries);
    MembersNonEmpty(more, depth, p);
    IndentWhite(p, depth, false);
    PrintHead(first.value, depth, p, finite);
    DistinctTail(acc, entries, v);
    KeyColon(first.key, t);
    MemberEnds(ws, gap, x, next, rest);
    ValueRound(first.value, depth, p, after, finite);
    MemberText(ind, KeyText(first.key), gap, x, next, tail);
    WhiteOver(ind, KeyText(first.key) + [COLON] + t);
    ValueAtWhite(gap, x + after, finite);
    if more == [] {
      WhiteOver(ws, [CLOSE_BRACE] + rest);
      Assoc(ws, [CLOSE_BRACE], rest);
      MembersLast(first.key, t, acc, v, after, rest, finite);
      EmptyBodies(depth, p);
      assert done + [] == done;
    } else {
      MembersRound(more, done, depth, p, ws, rest, finite);
      MembersStep(first.key, t, acc, v, next[..|next| - 1] + tail, finite);
    }
  }

  /** What stands around a printed member value stops it, and reads as whitespace or not. */
  lemma MemberEnds(ws: Str, gap: Str, x: Str, next: Str, rest: Str)
    requires ValueHead(x) && (gap == [] || gap == [0x20]) && (ws == [] || ws[0] == LF)
    ensures var tail := ws + [CLOSE_BRACE] + rest;
            var after := if next == [] then tail else [COMMA] + (next[..|next| - 1] + tail);
            Stop(after) && Solid(x + after)
    ensures AllWhite(gap) && Solid([CLOSE_BRACE] + rest)
  {
  }

  lemma PrintMembersStep(entries: seq<Member>, depth: nat, p: Str)
    requires entries != [] && (forall i :: 0 <= i < |entries| ==> HostFree(entries[i].value))
    requires PrintMembers(entries, depth, p).Some?
    ensures var first, more := entries[0], entries[1..];
            && Print(first.value, depth, p).Some? && PrintMembers(more, depth, p).Some?
            && PrintMembers(entries, depth, p).value
               == Indent(p, depth, false) + KeyText(first.key) + [COLON] + (if p != [] then [0x20] else [])
                  + Print(first.value, depth, p).value + [COMMA] + PrintMembers(more, depth, p).value
  {
    hide Print, Indent, KeyText;
  }

  lemma AssignFresh(acc: seq<Member>, key: Str, v: Json)
    requires forall i :: 0 <= i < |acc| ==> acc[i].key != key
    ensures Assign(acc, key, v) == if key == PROTO then acc else acc + [Member(key, v)]
  {
    hide Find;
    FindFresh(acc, key);
  }

  lemma Regrouped(acc: seq<Member>, m: Member, rest: seq<Member>)
    ensures acc + ([m] + rest) == acc + [m] + rest && acc + ([] + rest) == acc + rest
  {
  }

  lemma AssignDropped(acc: seq<Member>, entries: seq<Member>)
    requires entries != [] && forall i :: 0 <= i < |acc| ==> acc[i].key != entries[0].key
    ensures acc + DroppedMembers(entries)
         == Assign(acc, entries[0].key, Dropped(entries[0].value)) + DroppedMembers(entries[1..])
  {
    hide Dropped, Find, Assign;
    var rest := DroppedMembers(entries[1..]);
    AssignFresh(acc, entries[0].key, Dropped(entries[0].value));
    Regrouped(acc, Member(entries[0].key, Dropped(entries[0].value)), rest);
  }

  lemma DistinctTail(acc: seq<Member>, entries: seq<Member>, v: Json)
    requires entries != [] && DistinctKeys(entries)
    requires forall i, j :: 0 <= i < |acc| && 0 <= j < |entries| ==> acc[i].key != entries[j].key
    ensures var done := Assign(acc, entries[0].key, v);
            && DistinctKeys(entries[1..])
            && forall i, j :: 0 <= i < |done| && 0 <= j < |entries[1..]| ==> done[i].key != entries[1..][j].key
  {
    FindFresh(acc, entries[0].key);
  }

  lemma {:induction false} DroppedSame(v: Json)
    ensures Dropped(v) == v <==> ProtoFree(v)
    decreases v, 1
  {
    match v
    case JArray(items) => DroppedItemsSame(items);
    case JObject(entries) => DroppedMembersSame(entries);
    case _ =>
  }

  lemma {:induction false} DroppedItemsSame(items: seq<Json>)
    ensures DroppedItems(items) == items <==> forall i :: 0 <= i < |items| ==> ProtoFree(items[i])
    decreases items, 0
  {
    if items == [] {
    } else {
      var d, rest := DroppedItems(items), items[1..];
      DroppedSame(items[0]);
      DroppedItemsSame(rest);
      assert d[1..] == DroppedItems(rest);
      assert d == items <==> d[0] == items[0] && d[1..] == rest by {
        assert items == [items[0]] + rest && d == [d[0]] + d[1..];
      }
      assert forall i :: 1 <= i < |items| ==> items[i] == rest[i - 1];
    }
  }

  lemma {:induction false} DroppedMembersSame(entries: seq<Member>)
    ensures |DroppedMembers(entries)| <= |entries|
    ensures DroppedMembers(entries) == entries
       <==> forall i :: 0 <= i < |entries| ==> entries[i].key != PROTO && ProtoFree(entries[i].value)
    decreases entries, 0
  {
    if entries == [] {
    } else {
      var d, rest := DroppedMembers(entries), entries[1..];
      DroppedSame(entries[0].value);
      DroppedMembersSame(rest);
      if entries[0].key == PROTO {
        assert |d| < |entries|;
      } else {
        assert d[1..] == DroppedMembers(rest);
        assert entries == [entries[0]] + rest && d == [d[0]] + d[1..];
        assert forall i :: 1 <= i < |entries| ==> entries[i] == rest[i - 1];
      }
    }
  }

  /**
   The round trip.  For every plain value and every whitespace indent, printing fails
   exactly when some object has a member that hides a method the printer calls; the
   printed text is parsed to the value without its `__proto__` members; so it is parsed
   to the value itself exactly when there are none.
   */
  lemma RoundTrip(v: Json, indent: Str, finite: Str -> bool)
    requires Plain(v, finite) && AllWhite(indent)
    ensures HostFree(v)
    ensures Stringify(v, indent).Some? <==> Printable(v)
    ensures Printable(v) ==> ParseText(Stringify(v, indent).value, finite) == Some(Dropped(v))
    ensures Printable(v) ==> (ParseText(Stringify(v, indent).value, finite) == Some(v) <==> ProtoFree(v))
  {
    PlainIsHostFree(v, finite);
    PrintDefined(v, 0, indent);
    DroppedSame(v);
    if Printable(v) {
      var text := Stringify(v, indent).value;
      PrintHead(v, 0, indent, finite);
      ValueRound(v, 0, indent, [], finite);
      assert text + [] == text;
      ValueAtWhite([0x20], text, finite);
    }
  }

  /** The two kinds of value for which the round trip fails. */
  lemma Unfaithful(indent: Str, finite: Str -> bool)
    requires AllWhite(indent)
    ensures Stringify(JObject([Member(VALUE_OF, JNull)]), indent).None?
    ensures var v := JObject([Member(PROTO, JNull)]);
            && Plain(v, finite) && Stringify(v, indent).Some?
            && ParseText(Stringify(v, indent).value, finite) == Some(JObject([]))
  {
    hide Stringify, ParseText, DistinctKeys;
    var v, w := JObject([Member(VALUE_OF, JNull)]), JObject([Member(PROTO, JNull)]);
    assert v.entries[0].key == VALUE_OF;
    OneKey(VALUE_OF, JNull);
    OneKey(PROTO, JNull);
    RoundTrip(v, indent, finite);
    RoundTrip(w, indent, finite);
    OnlyProto(JNull);
  }

  lemma OnlyProto(v: Json)
    ensures Dropped(JObject([Member(PROTO, v)])) == JObject([])
  {
    assert [Member(PROTO, v)][1..] == [];
    assert DroppedMembers([Member(PROTO, v)]) == [];
  }

  lemma OneKey(key: Str, v: Json)
    ensures DistinctKeys([Member(key, v)])
  {
  }
}
