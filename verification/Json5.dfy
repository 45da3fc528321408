/**
 JSON5 values, the characters of the format, and the grammar as the parser reads it.

 Strings are sequences of UTF-16 code units.  Every function here takes the input
 that is still to be read, beginning with the current character, and returns what it
 recognises together with the rest; `None` is the parser's syntax error.
 */
module Json5 {

  import opened CodeUnits
  import opened Options

  datatype Json =
    | JNull
    | JBool(b: bool)
    | JInt(n: int)
    /** A numeral of more than 15 characters: a number object that keeps its text. */
    | JBoxed(sign: Str, text: Str)
    /** A fraction, exponent or hexadecimal numeral, converted by the host. */
    | JHost(negative: bool, text: Str)
    | JInfinity(negative: bool)
    | JNaN
    | JString(s: Str)
    | JArray(items: seq<Json>)
    | JObject(entries: seq<Member>)

  datatype Member = Member(key: Str, value: Json)

  // ---------------------------------------------------------------- characters

  const QUOTE: Unit := 0x22
  const APOSTROPHE: Unit := 0x27
  const BACKSLASH: Unit := 0x5C
  const SLASH: Unit := 0x2F
  const STAR: Unit := 0x2A
  const LF: Unit := 0x0A
  const CR: Unit := 0x0D
  const COMMA: Unit := 0x2C
  const COLON: Unit := 0x3A
  const OPEN_BRACE: Unit := 0x7B
  const CLOSE_BRACE: Unit := 0x7D
  const OPEN_BRACKET: Unit := 0x5B
  const CLOSE_BRACKET: Unit := 0x5D
  const MINUS: Unit := 0x2D
  const PLUS: Unit := 0x2B
  const DOT: Unit := 0x2E
  const ZERO: Unit := 0x30
  const LOWER_U: Unit := 0x75

  predicate IsWhite(c: Unit) {
    c == 0x20 || c == 0x09 || c == CR || c == LF || c == 0x0B || c == 0x0C || c == 0xA0 || c == 0xFEFF
  }

  predicate IsLetter(c: Unit) { 0x61 <= c <= 0x7A || 0x41 <= c <= 0x5A }

  predicate IsWordStart(c: Unit) { IsLetter(c) || c == 0x5F || c == 0x24 }

  predicate IsWordChar(c: Unit) { IsWordStart(c) || IsDigit(c) }

  // ----------------------------------------------------------------- primitives

  function Next(t: Str): Str {
    if t == [] then t else t[1..]
  }

  /** The current character is `c`. */
  predicate At(t: Str, c: Unit) {
    t != [] && t[0] == c
  }

  function Expect(t: Str, c: Unit): (r: Option<Str>)
    ensures r.Some? ==> |r.value| < |t|
  {
    if At(t, c) then Some(t[1..]) else None
  }

  function ExpectAll(t: Str, w: Str): (r: Option<Str>)
    ensures r.Some? ==> |r.value| + |w| == |t|
  {
    if w == [] then Some(t)
    else if At(t, w[0]) then ExpectAll(t[1..], w[1..])
    else None
  }

  // ------------------------------------------------- whitespace and comments

  function InlineComment(t: Str): (r: Str)
    requires t != []
    ensures |r| < |t|
  {
    var t1 := t[1..];
    if t1 == [] then []
    else if t1[0] == LF || t1[0] == CR then t1[1..]
    else InlineComment(t1)
  }

  function BlockComment(t: Str): (r: Option<Str>)
    requires t != []
    ensures r.Some? ==> |r.value| < |t|
    decreases |t|, 0
  {
    CommentStars(t[1..])
  }

  function CommentStars(t: Str): (r: Option<Str>)
    ensures r.Some? ==> |r.value| < |t|
    decreases |t|, 1
  {
    if t == [] then None
    else if t[0] == STAR then
      if At(t[1..], SLASH) then Some(t[2..]) else CommentStars(t[1..])
    else BlockComment(t)
  }

  function Comment(t: Str): (r: Option<Str>)
    requires At(t, SLASH)
    ensures r.Some? ==> |r.value| < |t|
  {
    var t1 := t[1..];
    if At(t1, SLASH) then Some(InlineComment(t1))
    else if At(t1, STAR) then BlockComment(t1)
    else None
  }

  function White(t: Str): (r: Option<Str>)
    ensures r.Some? ==> |r.value| <= |t|
    decreases |t|
  {
    if t == [] then Some(t)
    else if t[0] == SLASH then
      var c := Comment(t);
      if c.None? then None else White(c.value)
    else if IsWhite(t[0]) then White(t[1..])
    else Some(t)
  }

  // --------------------------------------------------------------------- strings

  /** The one-character escapes; a backslash before a line feed continues the line. */
  function Escapee(c: Unit): Option<Str> {
    if c == APOSTROPHE || c == QUOTE || c == BACKSLASH || c == SLASH then Some([c])
    else if c == LF then Some([])
    else if c == 0x62 then Some([0x08])
    else if c == 0x66 then Some([0x0C])
    else if c == 0x6E then Some([LF])
    else if c == 0x72 then Some([CR])
    else if c == 0x74 then Some([0x09])
    else None
  }

  /**
   The digits of a \u escape: `t` is the current character, `count` digits are read and
   make `a`.  A character that is no hex digit ends the escape early and is the new
   current character.
   */
  function HexEscape(t: Str, count: nat, a: nat): (r: (nat, Str))
    requires count <= 4
    ensures |r.1| <= |t|
    decreases 4 - count
  {
    if count == 4 then (a, t)
    else
      var t1 := Next(t);
      if t1 != [] && IsHexDigit(t1[0]) then HexEscape(t1, count + 1, 16 * a + HexValue(t1[0]))
      else (a, t1)
  }

  lemma {:induction false} HexEscapeBound(t: Str, count: nat, a: nat)
    requires count <= 4
    requires a < [1, 0x10, 0x100, 0x1000, 0x1_0000][count]
    ensures HexEscape(t, count, a).0 < 0x1_0000
    decreases 4 - count
  {
    if count < 4 && Next(t) != [] && IsHexDigit(Next(t)[0]) {
      HexEscapeBound(Next(t), count + 1, 16 * a + HexValue(Next(t)[0]));
    }
  }

  /** What follows the opening quote `q`: the string and the rest behind the closing quote. */
  function StringChars(t: Str, q: Unit): (r: Option<(Str, Str)>)
    ensures r.Some? ==> |r.value.1| < |t|
    decreases |t|
  {
    if t == [] then None
    else if t[0] == q then Some(([], t[1..]))
    else if t[0] == BACKSLASH then
      var t2 := t[1..];
      if At(t2, LOWER_U) then
        var (a, t3) := HexEscape(t2, 0, 0);
        HexEscapeBound(t2, 0, 0);
        Prepend([a], StringChars(Next(t3), q))
      else if At(t2, CR) then
        var t3 := if At(t2[1..], LF) then t2[1..] else t2;
        StringChars(Next(t3), q)
      else if t2 == [] || Escapee(t2[0]).None? then None
      else Prepend(Escapee(t2[0]).value, StringChars(t2[1..], q))
    else if t[0] == LF then None
    else Prepend([t[0]], StringChars(t[1..], q))
  }

  function Prepend(s: Str, r: Option<(Str, Str)>): Option<(Str, Str)> {
    if r.None? then None else Some((s + r.value.0, r.value.1))
  }

  function StringToken(t: Str): (r: Option<(Str, Str)>)
    ensures r.Some? ==> |r.value.1| < |t|
  {
    if At(t, QUOTE) || At(t, APOSTROPHE) then StringChars(t[1..], t[0]) else None
  }

  // ------------------------------------------------------------- words and keys

  function WordTail(t: Str): (n: nat)
    ensures n <= |t|
  {
    if t != [] && IsWordChar(t[0]) then 1 + WordTail(t[1..]) else 0
  }

  function Identifier(t: Str): (r: Option<(Str, Str)>)
    ensures r.Some? ==> |r.value.1| < |t|
  {
    if t != [] && IsWordStart(t[0]) then
      var n := 1 + WordTail(t[1..]);
      Some((t[..n], t[n..]))
    else None
  }

  const TRUE: Str := [0x74, 0x72, 0x75, 0x65]
  const FALSE: Str := [0x66, 0x61, 0x6C, 0x73, 0x65]
  const NULL: Str := [0x6E, 0x75, 0x6C, 0x6C]
  const INFINITY: Str := [0x49, 0x6E, 0x66, 0x69, 0x6E, 0x69, 0x74, 0x79]
  const NAN: Str := [0x4E, 0x61, 0x4E]

  function Literal(t: Str, w: Str, v: Json): (r: Option<(Json, Str)>)
    requires w != []
    ensures r.Some? ==> |r.value.1| < |t|
  {
    var rest := ExpectAll(t, w);
    if rest.None? then None else Some((v, rest.value))
  }

  function Word(t: Str): (r: Option<(Json, Str)>)
    ensures r.Some? ==> |r.value.1| < |t|
  {
    if At(t, 0x74) then Literal(t, TRUE, JBool(true))
    else if At(t, 0x66) then Literal(t, FALSE, JBool(false))
    else if At(t, 0x6E) then Literal(t, NULL, JNull)
    else if At(t, 0x49) then Literal(t, INFINITY, JInfinity(false))
    else if At(t, 0x4E) then Literal(t, NAN, JNaN)
    else None
  }

  // --------------------------------------------------------------------- numbers

  /** The number of leading digits. */
  function Digits(t: Str): (n: nat)
    ensures n <= |t|
    ensures forall i :: 0 <= i < n ==> IsDigit(t[i])
    ensures n < |t| ==> !IsDigit(t[n])
  {
    if t != [] && IsDigit(t[0]) then 1 + Digits(t[1..]) else 0
  }

  function HexDigits(t: Str): (n: nat)
    ensures n <= |t|
  {
    if t != [] && IsHexDigit(t[0]) then 1 + HexDigits(t[1..]) else 0
  }

  /** The length of an exponent part, 0 if there is none. */
  function Exponent(t: Str): (n: nat)
    ensures n <= |t|
  {
    if At(t, 0x65) || At(t, 0x45) then
      var signed := At(t[1..], MINUS) || At(t[1..], PLUS);
      if signed then 2 + Digits(t[2..]) else 1 + Digits(t[1..])
    else 0
  }

  function Fraction(t: Str): (n: nat)
    ensures n <= |t|
  {
    if At(t, DOT) then 1 + Digits(t[1..]) else 0
  }

  /** The length of a numeral in base ten: digits, fraction, exponent, each of which may be missing. */
  function PlainLength(t: Str): (n: nat)
    ensures n <= |t|
  {
    var whole := Digits(t);
    var point := Fraction(t[whole..]);
    whole + point + Exponent(t[whole + point..])
  }

  /** A zero that is followed by the mark of a hexadecimal numeral. */
  predicate IsHexNumeral(t: Str) {
    At(t, ZERO) && (At(Next(t), 0x78) || At(Next(t), 0x58))
  }

  /** A zero that is followed by a digit, which the parser refuses. */
  predicate IsOctal(t: Str) {
    At(t, ZERO) && Next(t) != [] && IsDigit(Next(t)[0])
  }

  /** The length of an unsigned numeral. */
  function NumeralLength(t: Str): (n: Option<nat>)
    ensures n.Some? ==> n.value <= |t|
  {
    if IsHexNumeral(t) then Some(2 + HexDigits(t[2..]))
    else if IsOctal(t) then None
    else Some(PlainLength(t))
  }

  predicate AllDigits(t: Str) {
    forall i :: 0 <= i < |t| ==> IsDigit(t[i])
  }

  function DecimalValue(t: Str): nat {
    if t == [] then 0
    else
      var last := t[|t| - 1];
      10 * DecimalValue(t[..|t| - 1]) + if IsDigit(last) then last - 0x30 else 0
  }

  /** The value of a numeral; `finite` is the host's judgement on numerals it converts. */
  function NumeralValue(sign: Str, text: Str, finite: Str -> bool): Option<Json> {
    if |text| > 15 then (if finite(text) then Some(JBoxed(sign, text)) else None)
    else if AllDigits(text) then
      var m: int := DecimalValue(text);
      Some(JInt(if sign == [MINUS] then -m else m))
    else if finite(text) then Some(JHost(sign == [MINUS], text))
    else None
  }

  function NumberToken(t: Str, finite: Str -> bool): (r: Option<(Json, Str)>)
    requires t != [] && (t[0] == MINUS || t[0] == PLUS || t[0] == DOT || IsDigit(t[0]))
    ensures r.Some? ==> |r.value.1| < |t|
  {
    var signed := t[0] == MINUS || t[0] == PLUS;
    var sign := if signed then [t[0]] else [];
    var t1 := if signed then t[1..] else t;
    if At(t1, 0x49) then Literal(t1, INFINITY, JInfinity(sign == [MINUS]))
    else if At(t1, 0x4E) then Literal(t1, NAN, JNaN)
    else
      var n := NumeralLength(t1);
      if n.None? then None
      else
        var v := NumeralValue(sign, t1[..n.value], finite);
        assert !signed ==> n.value > 0;
        if v.None? then None else Some((v.value, t1[n.value..]))
  }

  // ---------------------------------------------------------------------- values

  const PROTO: Str := [0x5F, 0x5F, 0x70, 0x72, 0x6F, 0x74, 0x6F, 0x5F, 0x5F]

  function Find(entries: seq<Member>, key: Str): (i: nat)
    ensures i <= |entries|
    ensures i < |entries| ==> entries[i].key == key
    ensures forall j :: 0 <= j < i ==> entries[j].key != key
  {
    if entries == [] then 0
    else if entries[0].key == key then 0
    else 1 + Find(entries[1..], key)
  }

  /** The property assignment `object[key] = value`, which for `__proto__` defines no property. */
  function Assign(entries: seq<Member>, key: Str, v: Json): seq<Member> {
    if key == PROTO then entries
    else
      var i := Find(entries, key);
      if i < |entries| then entries[i := Member(key, v)] else entries + [Member(key, v)]
  }

  function ValueAt(t: Str, finite: Str -> bool): (r: Option<(Json, Str)>)
    ensures r.Some? ==> |r.value.1| < |t|
    decreases |t|, 2
  {
    var w := White(t);
    if w.None? then None
    else
      var t1 := w.value;
      if At(t1, OPEN_BRACE) then
        var w1 := White(t1[1..]);
        if w1.None? then None else MembersAt(w1.value, [], finite)
      else if At(t1, OPEN_BRACKET) then
        var w1 := White(t1[1..]);
        if w1.None? then None else ItemsAt(w1.value, [], finite)
      else if At(t1, QUOTE) || At(t1, APOSTROPHE) then
        var s := StringToken(t1);
        if s.None? then None else Some((JString(s.value.0), s.value.1))
      else if t1 != [] && (t1[0] == MINUS || t1[0] == PLUS || t1[0] == DOT || IsDigit(t1[0])) then
        NumberToken(t1, finite)
      else Word(t1)
  }

  function KeyAt(t: Str): (r: Option<(Str, Str)>)
    ensures r.Some? ==> |r.value.1| < |t|
  {
    if At(t, QUOTE) || At(t, APOSTROPHE) then StringToken(t) else Identifier(t)
  }

  /** One member of an object and the whitespace behind it. */
  function MemberAt(t: Str, finite: Str -> bool): (r: Option<(Member, Str)>)
    ensures r.Some? ==> |r.value.1| < |t|
    decreases |t|, 0
  {
    var k := KeyAt(t);
    if k.None? then None
    else
      var w := White(k.value.1);
      if w.None? then None
      else
        var c := Expect(w.value, COLON);
        if c.None? then None
        else
          var v := ValueAt(c.value, finite);
          if v.None? then None
          else
            var w1 := White(v.value.1);
            if w1.None? then None else Some((Member(k.value.0, v.value.0), w1.value))
  }

  /** The members of an object, at a key or at the closing brace. */
  function MembersAt(t: Str, entries: seq<Member>, finite: Str -> bool): (r: Option<(Json, Str)>)
    ensures r.Some? ==> |r.value.1| < |t|
    decreases |t|, 1
  {
    if t == [] then None
    else if t[0] == CLOSE_BRACE then Some((JObject(entries), t[1..]))
    else
      var m := MemberAt(t, finite);
      if m.None? then None
      else
        var all := Assign(entries, m.value.0.key, m.value.0.value);
        if At(m.value.1, COMMA) then
          var w2 := White(m.value.1[1..]);
          if w2.None? then None else MembersAt(w2.value, all, finite)
        else
          var e := Expect(m.value.1, CLOSE_BRACE);
          if e.None? then None else Some((JObject(all), e.value))
  }

  /** The items of an array, at an item or at the closing bracket. */
  function ItemsAt(t: Str, items: seq<Json>, finite: Str -> bool): (r: Option<(Json, Str)>)
    ensures r.Some? ==> |r.value.1| < |t|
    decreases |t|, 3
  {
    if t == [] then None
    else if t[0] == CLOSE_BRACKET then Some((JArray(items), t[1..]))
    else if t[0] == COMMA then None
    else
      var v := ValueAt(t, finite);
      if v.None? then None
      else
        var all := items + [v.value.0];
        var w1 := White(v.value.1);
        if w1.None? then None
        else if At(w1.value, COMMA) then
          var w2 := White(w1.value[1..]);
          if w2.None? then None else ItemsAt(w2.value, all, finite)
        else
          var e := Expect(w1.value, CLOSE_BRACKET);
          if e.None? then None else Some((JArray(all), e.value))
  }

  /** The whole text: the scan starts on a blank before it, and nothing may follow the value. */
  function ParseText(s: Str, finite: Str -> bool): Option<Json> {
    var v := ValueAt([0x20] + s, finite);
    if v.None? then None
    else if White(v.value.1) == Some([]) then Some(v.value.0)
    else None
  }
}
