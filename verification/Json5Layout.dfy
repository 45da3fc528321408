/** What the printer writes, line by line and character by character. */
module Json5Layout {
  import opened CodeUnits
  import opened Json5
  import opened Json5Print
  import opened Json5RoundTrip
  import opened Options

  // -------------------------------------------------------------------- strings

  /** The characters that are printed as escapes. */
  predicate PrintsEscaped(c: Unit) {
    || c == 0x22 || c == 0x5C || c < 0x20 || 0x7F <= c < 0xA0 || c == 0xAD || 0x600 <= c <= 0x604 || c == 0x70F
    || c == 0x17B4 || c == 0x17B5 || 0x200C <= c <= 0x200F || 0x2028 <= c <= 0x202F || 0x2060 <= c <= 0x206F
    || c == 0xFEFF || 0xFFF0 <= c
  }

  /** The character of a hexadecimal digit, in lower case. */
  function LowerHex(v: nat): Unit
    requires v < 16
  {
    [0x30, 0x31, 0x32, 0x33, 0x34, 0x35, 0x36, 0x37, 0x38, 0x39, 0x61, 0x62, 0x63, 0x64, 0x65, 0x66][v]
  }

  /** How one character of a string is printed. */
  function CharacterText(c: Unit): Str {
    if !PrintsEscaped(c) then [c]
    else if c == 0x22 || c == 0x5C then [0x5C, c]
    else if c == 0x08 then [0x5C, 0x62]
    else if c == 0x09 then [0x5C, 0x74]
    else if c == 0x0A then [0x5C, 0x6E]
    else if c == 0x0C then [0x5C, 0x66]
    else if c == 0x0D then [0x5C, 0x72]
    else [0x5C, 0x75, LowerHex(c / 4096), LowerHex(c / 256 % 16), LowerHex(c / 16 % 16), LowerHex(c % 16)]
  }

  function CharactersText(s: Str): Str {
    if s == [] then [] else CharacterText(s[0]) + CharactersText(s[1..])
  }

  lemma HexDigitIs(v: nat)
    requires v < 16
    ensures HexDigit(v) == LowerHex(v)
  {
  }

  lemma CharacterPrinted(c: Unit)
    ensures Escaped(c) <==> PrintsEscaped(c)
    ensures Escaped(c) ==> Escape(c) == CharacterText(c)
  {
    hide HexText, HexDigit, LowerHex;
    HexFour(c);
    HexDigitIs(c / 4096);
    HexDigitIs(c / 256 % 16);
    HexDigitIs(c / 16 % 16);
    HexDigitIs(c % 16);
  }

  lemma {:induction false} CharactersPrinted(s: Str)
    ensures EscapeAll(s) == CharactersText(s)
  {
    hide Escape, Escaped, CharacterText, PrintsEscaped;
    if s == [] {
    } else {
      CharacterPrinted(s[0]);
      CharactersPrinted(s[1..]);
      NotEscaped(s[0]);
    }
  }

  lemma NotEscaped(c: Unit)
    ensures !PrintsEscaped(c) ==> CharacterText(c) == [c]
  {
  }

  /** Strings, and the keys of members, are printed between quotation marks, character by character. */
  lemma StringPrinted(s: Str)
    ensures Quote(s) == [0x22] + (CharactersText(s) + [0x22]) && KeyText(s) == Quote(s)
  {
    hide Quote, KeyText, CharactersText;
    QuoteIsEscapeAll(s);
    CharactersPrinted(s);
    KeyIsQuoted(s);
  }

  /** A whole number is printed as its decimal digits, without a leading zero, behind its sign. */
  lemma {:induction false} NumberPrinted(n: nat)
    ensures var s := DecimalText(n);
            && s != [] && (forall i :: 0 <= i < |s| ==> 0x30 <= s[i] <= 0x39) && (n > 0 ==> s[0] != 0x30)
            && DecimalValue(s) == n
    ensures IntText(n) == DecimalText(n) && (n > 0 ==> IntText(-(n as int)) == [0x2D] + DecimalText(n))
    decreases n
  {
    if n < 10 {
      assert DecimalText(n)[..0] == [];
    } else {
      NumberPrinted(n / 10);
      var s := DecimalText(n);
      assert s[..|s| - 1] == DecimalText(n / 10);
    }
  }

  // ---------------------------------------------------------------------- lines

  /** A line and how deep it is indented. */
  datatype Line = Line(depth: nat, text: Str)

  /** The text of a value without parts. */
  function LeafText(v: Json): Str
    requires HostFree(v) && !v.JArray? && !v.JObject?
  {
    match v
    case JNull => [0x6E, 0x75, 0x6C, 0x6C]
    case JBool(b) => if b then [0x74, 0x72, 0x75, 0x65] else [0x66, 0x61, 0x6C, 0x73, 0x65]
    case JInt(n) => IntText(n)
    case JBoxed(sign, text) => sign + text
    case JInfinity(_) => [0x6E, 0x75, 0x6C, 0x6C]
    case JNaN => [0x6E, 0x75, 0x6C, 0x6C]
    case JString(s) => Quote(s)
  }

  /**
   The lines of a value at a depth, behind `prefix` and in front of `suffix`: brackets stand
   at the end of a line and on a line of their own, with the parts one level deeper between
   them, all but the last with a comma; what is empty stands on one line.
   */
  function LinesOf(v: Json, depth: nat, prefix: Str, suffix: Str, gap: Str): seq<Line>
    requires HostFree(v)
    decreases v, 1
  {
    match v
    case JArray(items) =>
      if items == [] then [Line(depth, prefix + [0x5B, 0x5D] + suffix)]
      else [Line(depth, prefix + [0x5B])] + ItemLines(items, depth + 1, gap) + [Line(depth, [0x5D] + suffix)]
    case JObject(entries) =>
      if entries == [] then [Line(depth, prefix + [0x7B, 0x7D] + suffix)]
      else [Line(depth, prefix + [0x7B])] + MemberLines(entries, depth + 1, gap) + [Line(depth, [0x7D] + suffix)]
    case _ => [Line(depth, prefix + LeafText(v) + suffix)]
  }

  function ItemLines(items: seq<Json>, depth: nat, gap: Str): seq<Line>
    requires forall i :: 0 <= i < |items| ==> HostFree(items[i])
    decreases items, 0
  {
    if items == [] then []
    else LinesOf(items[0], depth, [], if |items| > 1 then [0x2C] else [], gap) + ItemLines(items[1..], depth, gap)
  }

  function MemberLines(entries: seq<Member>, depth: nat, gap: Str): seq<Line>
    requires forall i :: 0 <= i < |entries| ==> HostFree(entries[i].value)
    decreases entries, 0
  {
    if entries == [] then []
    else
      LinesOf(entries[0].value, depth, Quote(entries[0].key) + [0x3A] + gap, if |entries| > 1 then [0x2C] else [], gap)
      + MemberLines(entries[1..], depth, gap)
  }

  /** The indent, `depth` times. */
  function Spread(unit: Str, depth: nat): Str {
    if depth == 0 then [] else Spread(unit, depth - 1) + unit
  }

  /** Lines one below the other, each behind a line break and its indent. */
  function Below(lines: seq<Line>, unit: Str): Str {
    if lines == [] then [] else [0x0A] + Spread(unit, lines[0].depth) + lines[0].text + Below(lines[1..], unit)
  }

  /** The same lines without breaks and indents. */
  function Together(lines: seq<Line>): Str {
    if lines == [] then [] else lines[0].text + Together(lines[1..])
  }

  // ----------------------------------------------------------------- what is printed

  /** At most ten characters of the indent count. */
  function Unit10(p: Str): Str {
    if |p| > 10 then p[..10] else p
  }

  lemma {:induction false} SpreadFront(unit: Str, depth: nat)
    ensures unit + Spread(unit, depth) == Spread(unit, depth) + unit
  {
    if depth == 0 {
      assert unit + [] == [] + unit;
    } else {
      SpreadFront(unit, depth - 1);
      assert unit + (Spread(unit, depth - 1) + unit) == (unit + Spread(unit, depth - 1)) + unit;
    }
  }

  lemma {:induction false} SpreadIsTimes(unit: Str, depth: nat)
    ensures Times(unit, depth) == Spread(unit, depth)
  {
    if depth == 0 {
    } else {
      SpreadIsTimes(unit, depth - 1);
      SpreadFront(unit, depth - 1);
    }
  }

  lemma IndentIs(p: Str, depth: nat)
    requires p != []
    ensures Indent(p, depth, false) == [0x0A] + Spread(Unit10(p), depth) && Indent(p, depth, true) == Spread(Unit10(p), depth)
  {
    hide Times, Spread;
    SpreadIsTimes(Unit10(p), depth);
    assert [] + Spread(Unit10(p), depth) == Spread(Unit10(p), depth);
  }

  lemma {:induction false} BelowJoin(a: seq<Line>, b: seq<Line>, unit: Str)
    ensures Below(a + b, unit) == Below(a, unit) + Below(b, unit)
  {
    hide Spread;
    if a == [] {
      assert a + b == b;
    } else {
      assert (a + b)[0] == a[0] && (a + b)[1..] == a[1..] + b;
      BelowJoin(a[1..], b, unit);
    }
  }

  lemma BelowOne(l: Line, unit: Str)
    ensures Below([l], unit) == [0x0A] + Spread(unit, l.depth) + l.text
  {
    hide Spread;
    assert [l][1..] == [];
  }

  lemma LeafLaid(v: Json, depth: nat, prefix: Str, suffix: Str, p: Str)
    requires HostFree(v) && !v.JArray? && !v.JObject?
    ensures Print(v, depth, p) == Some(LeafText(v))
    ensures Below([Line(depth, prefix + LeafText(v) + suffix)], Unit10(p))
         == [0x0A] + Spread(Unit10(p), depth) + (prefix + LeafText(v) + suffix)
    ensures Together([Line(depth, prefix + LeafText(v) + suffix)]) == prefix + LeafText(v) + suffix
  {
    hide Unit10;
    BelowOne(Line(depth, prefix + LeafText(v) + suffix), Unit10(p));
    TogetherOne(Line(depth, prefix + LeafText(v) + suffix));
  }

  lemma TogetherOne(l: Line)
    ensures Together([l]) == l.text
  {
    assert [l][1..] == [];
    assert l.text + [] == l.text;
  }

  lemma {:induction false} TogetherJoin(a: seq<Line>, b: seq<Line>)
    ensures Together(a + b) == Together(a) + Together(b)
  {
    if a == [] {
      assert a + b == b;
    } else {
      assert (a + b)[0] == a[0] && (a + b)[1..] == a[1..] + b;
      TogetherJoin(a[1..], b);
    }
  }

  lemma Together3(a: Line, mid: seq<Line>, b: Line)
    ensures Together([a] + mid + [b]) == a.text + Together(mid) + b.text
  {
    hide Together;
    TogetherJoin([a] + mid, [b]);
    TogetherJoin([a], mid);
    TogetherOne(a);
    TogetherOne(b);
  }

  lemma Between3(a: Line, mid: seq<Line>, b: Line, unit: Str)
    ensures Below([a] + mid + [b], unit) == Below([a], unit) + Below(mid, unit) + Below([b], unit)
  {
    hide Below;
    BelowJoin([a] + mid, [b], unit);
    BelowJoin([a], mid, unit);
  }

  /** The text of a value in the middle of others: its lines, each at its depth. */
  lemma {:induction false} LaidOut(v: Json, depth: nat, prefix: Str, suffix: Str, p: Str)
    requires p != [] && HostFree(v) && Printable(v)
    ensures Print(v, depth, p).Some?
    ensures Below(LinesOf(v, depth, prefix, suffix, [0x20]), Unit10(p))
         == [0x0A] + Spread(Unit10(p), depth) + (prefix + Print(v, depth, p).value + suffix)
    decreases v, 1
  {
    hide Below, Spread, Indent, LeafText, Quote, KeyText, Unit10, HidesMethod;
    var unit := Unit10(p);
    match v
    case JArray(items) =>
      if items == [] {
        BelowOne(Line(depth, prefix + [0x5B, 0x5D] + suffix), unit);
        EmptyText(prefix, [0x5B], [0x5D], suffix);
      } else {
        ItemsLaid(items, depth + 1, p);
        IndentIs(p, depth);
        var body := Below(ItemLines(items, depth + 1, [0x20]), unit);
        Between3(Line(depth, prefix + [0x5B]), ItemLines(items, depth + 1, [0x20]), Line(depth, [0x5D] + suffix), unit);
        BelowOne(Line(depth, prefix + [0x5B]), unit);
        BelowOne(Line(depth, [0x5D] + suffix), unit);
        ListText([0x0A], Spread(unit, depth), prefix, [0x5B], body, [0x5D], suffix);
      }
    case JObject(entries) =>
      if entries == [] {
        BelowOne(Line(depth, prefix + [0x7B, 0x7D] + suffix), unit);
        EmptyText(prefix, [0x7B], [0x7D], suffix);
      } else {
        MembersLaid(entries, depth + 1, p);
        IndentIs(p, depth);
        var body := Below(MemberLines(entries, depth + 1, [0x20]), unit);
        DropLast(body, 0x2C);
        Between3(Line(depth, prefix + [0x7B]), MemberLines(entries, depth + 1, [0x20]), Line(depth, [0x7D] + suffix), unit);
        BelowOne(Line(depth, prefix + [0x7B]), unit);
        BelowOne(Line(depth, [0x7D] + suffix), unit);
        DictText([0x0A], Spread(unit, depth), prefix, [0x7B], body, [0x7D], suffix);
      }
    case _ => LeafLaid(v, depth, prefix, suffix, p);
  }

  lemma EmptyText(prefix: Str, open: Str, close: Str, suffix: Str)
    requires |open| == 1 && |close| == 1
    ensures prefix + [open[0], close[0]] + suffix == prefix + (open + [] + [] + close) + suffix
    ensures open == [open[0]] && close == [close[0]] && [open[0], close[0]] == open + [] + [] + close
  {
  }

  lemma DropLast(a: Str, c: Unit)
    ensures (a + [c])[..|a + [c]| - 1] == a && a + [c] != []
  {
  }

  lemma ListText(lf: Str, spread: Str, prefix: Str, open: Str, body: Str, close: Str, suffix: Str)
    ensures lf + spread + (prefix + open) + body + (lf + spread + (close + suffix))
         == lf + spread + (prefix + (open + (body + lf) + spread + close) + suffix)
  {
  }

  lemma DictText(lf: Str, spread: Str, prefix: Str, open: Str, body: Str, close: Str, suffix: Str)
    ensures lf + spread + (prefix + open) + body + (lf + spread + (close + suffix))
         == lf + spread + (prefix + (open + body + (lf + spread) + close) + suffix)
  {
  }

  lemma {:induction false} ItemsLaid(items: seq<Json>, depth: nat, p: Str)
    requires p != [] && items != [] && forall i :: 0 <= i < |items| ==> HostFree(items[i]) && Printable(items[i])
    ensures PrintItems(items, depth, p) == Some(Below(ItemLines(items, depth, [0x20]), Unit10(p)) + [0x0A])
    decreases items, 0
  {
    hide Below, Spread, Indent, Unit10, LinesOf, Print, HostFree, Printable;
    var unit, comma := Unit10(p), if |items| > 1 then [0x2C] else [];
    var text := Print(items[0], depth, p);
    LaidOut(items[0], depth, [], comma, p);
    IndentIs(p, depth);
    var first, rest := LinesOf(items[0], depth, [], comma, [0x20]), ItemLines(items[1..], depth, [0x20]);
    BelowJoin(first, rest, unit);
    if |items| == 1 {
      assert items[1..] == [];
      assert first + [] == first;
      LastItem([0x0A], Spread(unit, depth), text.value);
    } else {
      ItemsLaid(items[1..], depth, p);
      NextItem([0x0A], Spread(unit, depth), text.value, [0x2C], Below(rest, unit));
    }
  }

  lemma LastItem(lf: Str, spread: Str, text: Str)
    ensures lf + spread + text + lf + [] == lf + spread + ([] + text + []) + lf
  {
  }

  lemma NextItem(lf: Str, spread: Str, text: Str, comma: Str, rest: Str)
    ensures lf + spread + text + comma + (rest + lf) == lf + spread + ([] + text + comma) + rest + lf
  {
  }

  lemma {:induction false} MembersLaid(entries: seq<Member>, depth: nat, p: Str)
    requires p != [] && entries != [] && forall i :: 0 <= i < |entries| ==> HostFree(entries[i].value) && Printable(entries[i].value)
    ensures PrintMembers(entries, depth, p) == Some(Below(MemberLines(entries, depth, [0x20]), Unit10(p)) + [0x2C])
    decreases entries, 0
  {
    hide Below, Spread, Indent, Unit10, LinesOf, Print, HostFree, Printable, Quote, KeyText;
    var unit, comma := Unit10(p), if |entries| > 1 then [0x2C] else [];
    var key := Quote(entries[0].key);
    var text := Print(entries[0].value, depth, p);
    KeyIsQuoted(entries[0].key);
    LaidOut(entries[0].value, depth, key + [0x3A] + [0x20], comma, p);
    IndentIs(p, depth);
    var first, rest := LinesOf(entries[0].value, depth, key + [0x3A] + [0x20], comma, [0x20]), MemberLines(entries[1..], depth, [0x20]);
    BelowJoin(first, rest, unit);
    if |entries| == 1 {
      assert entries[1..] == [];
      assert first + [] == first;
      LastMember([0x0A], Spread(unit, depth), key, text.value);
    } else {
      MembersLaid(entries[1..], depth, p);
      NextMember([0x0A], Spread(unit, depth), key, text.value, Below(rest, unit));
    }
  }

  lemma LastMember(lf: Str, spread: Str, key: Str, text: Str)
    ensures lf + spread + key + [0x3A] + [0x20] + text + [0x2C] + [] == lf + spread + (key + [0x3A] + [0x20] + text + []) + [0x2C]
  {
  }

  lemma NextMember(lf: Str, spread: Str, key: Str, text: Str, rest: Str)
    ensures lf + spread + key + [0x3A] + [0x20] + text + [0x2C] + (rest + [0x2C])
         == lf + spread + (key + [0x3A] + [0x20] + text + [0x2C]) + rest + [0x2C]
  {
  }

  /** With an indent a value is printed in lines, each behind the indent as often as the line is deep. */
  lemma PrintedInLines(v: Json, p: Str)
    requires p != [] && HostFree(v) && Printable(v)
    ensures Stringify(v, p).Some? && [0x0A] + Stringify(v, p).value == Below(LinesOf(v, 0, [], [], [0x20]), Unit10(p))
  {
    hide Print, Below, LinesOf;
    LaidOut(v, 0, [], [], p);
    var text := Stringify(v, p).value;
    assert [0x0A] + [] + ([] + text + []) == [0x0A] + text;
  }

  // ------------------------------------------------------------------ without an indent

  lemma {:induction false} RunTogether(v: Json, depth: nat, prefix: Str, suffix: Str)
    requires HostFree(v) && Printable(v)
    ensures Print(v, depth, []).Some? && Together(LinesOf(v, depth, prefix, suffix, [])) == prefix + Print(v, depth, []).value + suffix
    decreases v, 1
  {
    hide Together, LeafText, Quote, KeyText, HidesMethod;
    match v
    case JArray(items) =>
      if items == [] {
        TogetherOne(Line(depth, prefix + [0x5B, 0x5D] + suffix));
        EmptyText(prefix, [0x5B], [0x5D], suffix);
      } else {
        ItemsTogether(items, depth + 1);
        var body := Together(ItemLines(items, depth + 1, []));
        Together3(Line(depth, prefix + [0x5B]), ItemLines(items, depth + 1, []), Line(depth, [0x5D] + suffix));
        ClosedText(prefix, [0x5B], body, [0x5D], suffix);
      }
    case JObject(entries) =>
      if entries == [] {
        TogetherOne(Line(depth, prefix + [0x7B, 0x7D] + suffix));
        EmptyText(prefix, [0x7B], [0x7D], suffix);
      } else {
        MembersTogether(entries, depth + 1);
        var body := Together(MemberLines(entries, depth + 1, []));
        DropLast(body, 0x2C);
        Together3(Line(depth, prefix + [0x7B]), MemberLines(entries, depth + 1, []), Line(depth, [0x7D] + suffix));
        ClosedText(prefix, [0x7B], body, [0x7D], suffix);
      }
    case _ => LeafLaid(v, depth, prefix, suffix, []);
  }

  lemma ClosedText(prefix: Str, open: Str, body: Str, close: Str, suffix: Str)
    ensures prefix + open + body + (close + suffix) == prefix + (open + body + [] + close) + suffix
  {
  }

  lemma {:induction false} ItemsTogether(items: seq<Json>, depth: nat)
    requires items != [] && forall i :: 0 <= i < |items| ==> HostFree(items[i]) && Printable(items[i])
    ensures PrintItems(items, depth, []) == Some(Together(ItemLines(items, depth, [])))
    decreases items, 0
  {
    hide Together, LinesOf, Print, HostFree, Printable;
    var comma := if |items| > 1 then [0x2C] else [];
    var text := Print(items[0], depth, []);
    RunTogether(items[0], depth, [], comma);
    var first, rest := LinesOf(items[0], depth, [], comma, []), ItemLines(items[1..], depth, []);
    TogetherJoin(first, rest);
    if |items| == 1 {
      assert items[1..] == [];
      assert first + [] == first;
      assert [] + text.value + [] + [] == [] + text.value + [];
    } else {
      ItemsTogether(items[1..], depth);
      assert [] + text.value + [0x2C] + Together(rest) == ([] + text.value + [0x2C]) + Together(rest);
    }
  }

  lemma {:induction false} MembersTogether(entries: seq<Member>, depth: nat)
    requires entries != [] && forall i :: 0 <= i < |entries| ==> HostFree(entries[i].value) && Printable(entries[i].value)
    ensures PrintMembers(entries, depth, []) == Some(Together(MemberLines(entries, depth, [])) + [0x2C])
    decreases entries, 0
  {
    hide Together, LinesOf, Print, HostFree, Printable, Quote, KeyText;
    var comma := if |entries| > 1 then [0x2C] else [];
    var key := Quote(entries[0].key);
    var text := Print(entries[0].value, depth, []);
    KeyIsQuoted(entries[0].key);
    RunTogether(entries[0].value, depth, key + [0x3A] + [], comma);
    var first, rest := LinesOf(entries[0].value, depth, key + [0x3A] + [], comma, []), MemberLines(entries[1..], depth, []);
    TogetherJoin(first, rest);
    if |entries| == 1 {
      assert entries[1..] == [];
      assert first + [] == first;
      OnlyMember(key, text.value);
    } else {
      MembersTogether(entries[1..], depth);
      MoreMembers(key, text.value, Together(rest));
    }
  }

  lemma OnlyMember(key: Str, text: Str)
    ensures [] + key + [0x3A] + [] + text + [0x2C] + [] == key + [0x3A] + [] + text + [] + [0x2C]
  {
  }

  lemma MoreMembers(key: Str, text: Str, rest: Str)
    ensures [] + key + [0x3A] + [] + text + [0x2C] + (rest + [0x2C]) == key + [0x3A] + [] + text + [0x2C] + rest + [0x2C]
  {
  }

  /** Without an indent the same lines are written without breaks, and without the blank behind a colon. */
  lemma PrintedTogether(v: Json)
    requires HostFree(v) && Printable(v)
    ensures Stringify(v, []) == Some(Together(LinesOf(v, 0, [], [], [])))
  {
    hide Print, Together, LinesOf;
    RunTogether(v, 0, [], []);
    var text := Print(v, 0, []).value;
    assert [] + text + [] == text;
  }

  /** The code unit of a character in ASCII. */
  function UnitOf(c: char): Unit {
    if c < 128 as char then c as int else 0
  }

  lemma {:induction false} AsciiAt(s: string, i: nat)
    requires i < |s|
    ensures |Ascii(s)| == |s| && Ascii(s)[i] == UnitOf(s[i])
  {
    if i == 0 {
      AsciiSize(s);
    } else {
      AsciiAt(s[1..], i - 1);
    }
  }

  lemma {:induction false} AsciiSize(s: string)
    ensures |Ascii(s)| == |s|
  {
    if s == "" {
    } else {
      AsciiSize(s[1..]);
    }
  }

  /** The names of two methods that the printer calls. */
  lemma MethodNames()
    ensures VALUE_OF == Ascii("valueOf") && HAS_OWN_PROPERTY == Ascii("hasOwnProperty")
  {
    hide Ascii;
    AsciiSize("valueOf");
    AsciiSize("hasOwnProperty");
    forall i | 0 <= i < 7
      ensures Ascii("valueOf")[i] == VALUE_OF[i]
    {
      AsciiAt("valueOf", i);
    }
    forall i | 0 <= i < 14
      ensures Ascii("hasOwnProperty")[i] == HAS_OWN_PROPERTY[i]
    {
      AsciiAt("hasOwnProperty", i);
    }
  }

  /** A member that the printer fails on. */
  predicate FailsAt(entries: seq<Member>, i: nat, indent: Str)
    requires i < |entries| && HostFree(entries[i].value)
  {
    entries[i].key == Ascii("valueOf") || entries[i].key == Ascii("hasOwnProperty") || Stringify(entries[i].value, indent).None?
  }

  /** Printing fails on objects with a member called `valueOf` or `hasOwnProperty`, at any depth, and on nothing else. */
  lemma PrintFails(entries: seq<Member>, indent: Str)
    requires forall i :: 0 <= i < |entries| ==> HostFree(entries[i].value)
    ensures Stringify(JObject(entries), indent).None? <==> exists i :: 0 <= i < |entries| && FailsAt(entries, i, indent)
  {
    hide Ascii, Print, HostFree;
    MethodNames();
    HostFreeObject(entries);
    PrintDefined(JObject(entries), 0, indent);
    forall i | 0 <= i < |entries|
      ensures FailsAt(entries, i, indent) <==>
              entries[i].key == VALUE_OF || entries[i].key == HAS_OWN_PROPERTY || !Printable(entries[i].value)
    {
      PrintDefined(entries[i].value, 0, indent);
    }
    if HidesMethod(entries) {
      var i :| 0 <= i < |entries| && (entries[i].key == VALUE_OF || entries[i].key == HAS_OWN_PROPERTY);
      assert FailsAt(entries, i, indent);
    }
  }

  lemma HostFreeObject(entries: seq<Member>)
    requires forall i :: 0 <= i < |entries| ==> HostFree(entries[i].value)
    ensures HostFree(JObject(entries))
  {
  }
}
