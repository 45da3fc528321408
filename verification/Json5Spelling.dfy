/**
 How JSON5 values may be spelled: whitespace and comments, quotes and escapes, the forms of
 numbers, words as keys, trailing commas.  A spelling is a tree with every choice in it; it
 has a text, character by character, and a meaning.

 The texts are written in front of what follows them.
 */
module Json5Spelling {
  import opened CodeUnits
  import opened Options
  import opened Json5

  // ------------------------------------------------------- whitespace and comments

  datatype Gap = Blank(c: Unit) | LineComment(text: Str, end: Unit) | BlockComment(text: Str)

  predicate IsBlank(c: Unit) {
    c == 0x20 || 0x09 <= c <= 0x0D || c == 0xA0 || c == 0xFEFF
  }

  predicate GoodGap(g: Gap) {
    match g
    case Blank(c) => IsBlank(c)
    case LineComment(text, end) => 0x0A !in text && 0x0D !in text && (end == 0x0A || end == 0x0D)
    case BlockComment(text) => forall i :: 0 <= i < |text| - 1 ==> !(text[i] == 0x2A && text[i + 1] == 0x2F)
  }

  predicate GoodGaps(gs: seq<Gap>) {
    forall i :: 0 <= i < |gs| ==> GoodGap(gs[i])
  }

  function GapText(g: Gap, rest: Str): Str {
    match g
    case Blank(c) => [c] + rest
    case LineComment(text, end) => [0x2F] + ([0x2F] + (text + ([end] + rest)))
    case BlockComment(text) => [0x2F] + ([0x2A] + (text + ([0x2A] + ([0x2F] + rest))))
  }

  function GapsText(gs: seq<Gap>, rest: Str): Str {
    if gs == [] then rest else GapText(gs[0], GapsText(gs[1..], rest))
  }

  // -------------------------------------------------------------------- strings

  /**
   A character, a short escape, four hexadecimal digits, or a line break that is skipped.
   Fewer digits also make an escape, but the character that ends it is lost.
   */
  datatype Piece =
    | Char(c: Unit)
    | Short(letter: Unit)
    | Hex(a: Unit, b: Unit, c: Unit, d: Unit)
    | Partial(digits: Str, lost: Unit)
    | Continued(newline: Str)

  predicate GoodPiece(p: Piece, quote: Unit) {
    match p
    case Char(c) => c != quote && c != 0x5C && c != 0x0A
    case Short(letter) => ShortMeaning(letter).Some?
    case Hex(a, b, c, d) => IsHex(a) && IsHex(b) && IsHex(c) && IsHex(d)
    case Partial(digits, lost) => |digits| < 4 && (forall i :: 0 <= i < |digits| ==> IsHex(digits[i])) && !IsHex(lost)
    case Continued(newline) => newline == [0x0A] || newline == [0x0D] || newline == [0x0D, 0x0A]
  }

  predicate GoodPieces(ps: seq<Piece>, quote: Unit) {
    (quote == 0x22 || quote == 0x27) && forall i :: 0 <= i < |ps| ==> GoodPiece(ps[i], quote)
  }

  predicate IsHex(c: Unit) {
    0x30 <= c <= 0x39 || 0x41 <= c <= 0x46 || 0x61 <= c <= 0x66
  }

  function HexOf(c: Unit): (v: nat)
    requires IsHex(c)
    ensures v < 16
  {
    if c <= 0x39 then c - 0x30 else if c <= 0x46 then c - 0x37 else c - 0x57
  }

  /** `'` `"` `\` and `/` stand for themselves; `b` `f` `n` `r` and `t` for control characters. */
  function ShortMeaning(letter: Unit): Option<Unit> {
    if letter == 0x27 || letter == 0x22 || letter == 0x5C || letter == 0x2F then Some(letter)
    else if letter == 0x62 then Some(0x08)
    else if letter == 0x66 then Some(0x0C)
    else if letter == 0x6E then Some(0x0A)
    else if letter == 0x72 then Some(0x0D)
    else if letter == 0x74 then Some(0x09)
    else None
  }

  /** The number of at most three hexadecimal digits. */
  function FewDigits(digits: Str): (v: Unit)
    requires |digits| < 4 && forall i :: 0 <= i < |digits| ==> IsHex(digits[i])
  {
    if |digits| == 0 then 0
    else if |digits| == 1 then HexOf(digits[0])
    else if |digits| == 2 then HexOf(digits[0]) * 0x10 + HexOf(digits[1])
    else HexOf(digits[0]) * 0x100 + HexOf(digits[1]) * 0x10 + HexOf(digits[2])
  }

  function PieceText(p: Piece, rest: Str): Str {
    match p
    case Char(c) => [c] + rest
    case Short(letter) => [0x5C] + ([letter] + rest)
    case Hex(a, b, c, d) => [0x5C] + ([0x75] + ([a] + ([b] + ([c] + ([d] + rest)))))
    case Partial(digits, lost) => [0x5C] + ([0x75] + (digits + ([lost] + rest)))
    case Continued(newline) => [0x5C] + (newline + rest)
  }

  function PieceMeaning(p: Piece, quote: Unit): (s: Str)
    requires GoodPiece(p, quote)
  {
    match p
    case Char(c) => [c]
    case Short(letter) => [ShortMeaning(letter).value]
    case Hex(a, b, c, d) =>
      var u: Unit := HexOf(a) * 0x1000 + HexOf(b) * 0x100 + HexOf(c) * 0x10 + HexOf(d);
      [u]
    case Partial(digits, _) => [FewDigits(digits)]
    case Continued(_) => []
  }

  function PiecesText(ps: seq<Piece>, rest: Str): Str {
    if ps == [] then rest else PieceText(ps[0], PiecesText(ps[1..], rest))
  }

  function PiecesMeaning(ps: seq<Piece>, quote: Unit): Str
    requires GoodPieces(ps, quote)
  {
    if ps == [] then [] else PieceMeaning(ps[0], quote) + PiecesMeaning(ps[1..], quote)
  }

  function StringText(quote: Unit, ps: seq<Piece>, rest: Str): Str {
    [quote] + PiecesText(ps, [quote] + rest)
  }

  // -------------------------------------------------------------------- numbers

  datatype Exponent = Exponent(mark: Unit, sign: Str, digits: Str)

  /** A sign may stand alone, for the number 0. */
  datatype Numeral =
    | Decimal(sign: Str, whole: Str, fraction: Option<Str>, exponent: Option<Exponent>)
    | Hexadecimal(sign: Str, x: Unit, digits: Str)
    | Infinite(sign: Str)
    | NotANumber(sign: Str)

  predicate AllNumerals(s: Str) {
    forall i :: 0 <= i < |s| ==> 0x30 <= s[i] <= 0x39
  }

  predicate IsSign(s: Str) {
    s == [] || s == [0x2D] || s == [0x2B]
  }

  /** The text without the sign. */
  function Body(n: Numeral): Str {
    match n
    case Decimal(_, whole, fraction, exponent) => whole + (FractionText(fraction) + ExponentText(exponent))
    case Hexadecimal(_, x, digits) => [0x30, x] + digits
    case Infinite(_) => [0x49, 0x6E, 0x66, 0x69, 0x6E, 0x69, 0x74, 0x79]
    case NotANumber(_) => [0x4E, 0x61, 0x4E]
  }

  function FractionText(f: Option<Str>): Str {
    match f case None => [] case Some(digits) => [0x2E] + digits
  }

  function ExponentText(e: Option<Exponent>): Str {
    match e case None => [] case Some(x) => [x.mark] + (x.sign + x.digits)
  }

  predicate GoodNumeral(n: Numeral, finite: Str -> bool) {
    && IsSign(n.sign)
    && match n
       case Decimal(sign, whole, fraction, exponent) =>
         && (sign != [] || whole != [] || fraction.Some?) && AllNumerals(whole) && (|whole| > 1 ==> whole[0] != 0x30)
         && (fraction.Some? ==> AllNumerals(fraction.value))
         && (exponent.Some? ==> (exponent.value.mark == 0x65 || exponent.value.mark == 0x45)
                                && IsSign(exponent.value.sign) && AllNumerals(exponent.value.digits))
         && (|Body(n)| > 15 || fraction.Some? || exponent.Some? ==> finite(Body(n)))
       case Hexadecimal(_, x, digits) =>
         (x == 0x78 || x == 0x58) && (forall i :: 0 <= i < |digits| ==> IsHex(digits[i])) && finite(Body(n))
       case _ => true
  }

  /** The number that decimal digits stand for. */
  function NumberOf(s: Str): int {
    if s == [] then 0 else 10 * NumberOf(s[..|s| - 1]) + (s[|s| - 1] as int - 0x30)
  }

  /** A long numeral keeps its text, digits alone are an integer, and anything else is converted by the host. */
  function NumeralMeaning(n: Numeral): Json {
    match n
    case Decimal(sign, whole, fraction, exponent) =>
      if |Body(n)| > 15 then JBoxed(sign, Body(n))
      else if fraction.None? && exponent.None? then JInt(if sign == [0x2D] then -NumberOf(whole) else NumberOf(whole))
      else JHost(sign == [0x2D], Body(n))
    case Hexadecimal(sign, _, _) => if |Body(n)| > 15 then JBoxed(sign, Body(n)) else JHost(sign == [0x2D], Body(n))
    case Infinite(sign) => JInfinity(sign == [0x2D])
    case NotANumber(_) => JNaN
  }

  // --------------------------------------------------------------------- values

  datatype Key = Quoted(quote: Unit, pieces: seq<Piece>) | Bare(word: Str)

  datatype Spelled =
    | Null
    | True
    | False
    | Number(n: Numeral)
    | Text(quote: Unit, pieces: seq<Piece>)
    | List(open: seq<Gap>, items: seq<Item>)
    | Dict(open: seq<Gap>, members: seq<Entry>)

  /** An item, what follows it, and a comma with what follows that. */
  datatype Item = Item(value: Spelled, after: seq<Gap>, comma: bool, next: seq<Gap>)

  datatype Entry = Entry(key: Key, afterKey: seq<Gap>, before: seq<Gap>, value: Spelled, after: seq<Gap>, comma: bool, next: seq<Gap>)

  predicate IsWordCharacter(c: Unit) {
    0x30 <= c <= 0x39 || 0x41 <= c <= 0x5A || 0x61 <= c <= 0x7A || c == 0x5F || c == 0x24
  }

  predicate GoodKey(k: Key) {
    match k
    case Quoted(quote, pieces) => GoodPieces(pieces, quote)
    case Bare(word) => word != [] && !(0x30 <= word[0] <= 0x39) && forall i :: 0 <= i < |word| ==> IsWordCharacter(word[i])
  }

  /** Only the last item may be without a comma behind it. */
  predicate Good(v: Spelled, finite: Str -> bool) {
    match v
    case Number(n) => GoodNumeral(n, finite)
    case Text(quote, pieces) => GoodPieces(pieces, quote)
    case List(open, items) =>
      GoodGaps(open) && forall i :: 0 <= i < |items| ==>
        && Good(items[i].value, finite) && GoodGaps(items[i].after) && GoodGaps(items[i].next)
        && (i < |items| - 1 ==> items[i].comma)
    case Dict(open, members) =>
      GoodGaps(open) && forall i :: 0 <= i < |members| ==>
        && GoodKey(members[i].key) && GoodGaps(members[i].afterKey) && GoodGaps(members[i].before)
        && Good(members[i].value, finite) && GoodGaps(members[i].after) && GoodGaps(members[i].next)
        && (i < |members| - 1 ==> members[i].comma)
    case _ => true
  }

  function KeyText(k: Key, rest: Str): Str {
    match k
    case Quoted(quote, pieces) => StringText(quote, pieces, rest)
    case Bare(word) => word + rest
  }

  function KeyMeaning(k: Key): Str
    requires GoodKey(k)
  {
    match k
    case Quoted(quote, pieces) => PiecesMeaning(pieces, quote)
    case Bare(word) => word
  }

  function TextOf(v: Spelled, rest: Str): Str
    decreases v, 1
  {
    match v
    case Null => [0x6E, 0x75, 0x6C, 0x6C] + rest
    case True => [0x74, 0x72, 0x75, 0x65] + rest
    case False => [0x66, 0x61, 0x6C, 0x73, 0x65] + rest
    case Number(n) => n.sign + (Body(n) + rest)
    case Text(quote, pieces) => StringText(quote, pieces, rest)
    case List(open, items) => [0x5B] + GapsText(open, ItemsText(items, [0x5D] + rest))
    case Dict(open, members) => [0x7B] + GapsText(open, MembersText(members, [0x7D] + rest))
  }

  function CommaText(comma: bool, next: seq<Gap>, rest: Str): Str {
    if comma then [0x2C] + GapsText(next, rest) else rest
  }

  function ItemsText(items: seq<Item>, rest: Str): Str
    decreases items, 0
  {
    if items == [] then rest
    else TextOf(items[0].value, GapsText(items[0].after, CommaText(items[0].comma, items[0].next, ItemsText(items[1..], rest))))
  }

  function MembersText(members: seq<Entry>, rest: Str): Str
    decreases members, 0
  {
    if members == [] then rest
    else
      var m := members[0];
      var later := GapsText(m.after, CommaText(m.comma, m.next, MembersText(members[1..], rest)));
      KeyText(m.key, GapsText(m.afterKey, [0x3A] + GapsText(m.before, TextOf(m.value, later))))
  }

  /** A member is added at the end, or replaces the one with its key where that stands. */
  function With(entries: seq<Member>, key: Str, value: Json): seq<Member> {
    if entries == [] then [Member(key, value)]
    else if entries[0].key == key then [Member(key, value)] + entries[1..]
    else [entries[0]] + With(entries[1..], key, value)
  }

  function Meaning(v: Spelled, finite: Str -> bool): Json
    requires Good(v, finite)
    decreases v, 1
  {
    match v
    case Null => JNull
    case True => JBool(true)
    case False => JBool(false)
    case Number(n) => NumeralMeaning(n)
    case Text(quote, pieces) => JString(PiecesMeaning(pieces, quote))
    case List(_, items) => JArray(ItemsMeaning(items, finite))
    case Dict(_, members) => JObject(MembersMeaning(members, [], finite))
  }

  function ItemsMeaning(items: seq<Item>, finite: Str -> bool): seq<Json>
    requires forall i :: 0 <= i < |items| ==> Good(items[i].value, finite)
    decreases items, 0
  {
    if items == [] then [] else [Meaning(items[0].value, finite)] + ItemsMeaning(items[1..], finite)
  }

  /** Members from left to right; one called `__proto__` defines nothing. */
  function MembersMeaning(members: seq<Entry>, entries: seq<Member>, finite: Str -> bool): seq<Member>
    requires forall i :: 0 <= i < |members| ==> GoodKey(members[i].key) && Good(members[i].value, finite)
    decreases members, 0
  {
    if members == [] then entries
    else
      var key := KeyMeaning(members[0].key);
      var proto := key == [0x5F, 0x5F, 0x70, 0x72, 0x6F, 0x74, 0x6F, 0x5F, 0x5F];
      MembersMeaning(members[1..], if proto then entries else With(entries, key, Meaning(members[0].value, finite)), finite)
  }

  /** A comment at the very end needs no line break. */
  datatype Ending = Nothing | Remark(text: Str)

  predicate GoodEnding(e: Ending) {
    e.Remark? ==> 0x0A !in e.text && 0x0D !in e.text
  }

  function EndingText(e: Ending): Str {
    match e case Nothing => [] case Remark(text) => [0x2F] + ([0x2F] + text)
  }

  /** A value with gaps before and behind it. */
  function WholeText(before: seq<Gap>, v: Spelled, after: seq<Gap>, e: Ending): Str {
    GapsText(before, TextOf(v, GapsText(after, EndingText(e))))
  }
}
