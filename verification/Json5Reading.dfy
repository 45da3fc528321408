/** Every spelling of a value is parsed to its meaning. */
module Json5Reading {
  import opened CodeUnits
  import opened Options
  import opened Json5
  import opened Json5Spelling

  lemma Cons(c: Unit, t: Str)
    ensures ([c] + t)[0] == c && ([c] + t)[1..] == t && [c] + t != []
  {
  }

  // ------------------------------------------------------- whitespace and comments

  lemma {:induction false} LineCommentRead(c: Unit, text: Str, end: Unit, rest: Str)
    requires 0x0A !in text && 0x0D !in text && (end == 0x0A || end == 0x0D)
    ensures InlineComment([c] + (text + ([end] + rest))) == rest
    decreases |text|
  {
    Cons(c, text + ([end] + rest));
    if text == [] {
      assert text + ([end] + rest) == [end] + rest;
      Cons(end, rest);
    } else {
      assert text[0] in text;
      assert text + ([end] + rest) == [text[0]] + (text[1..] + ([end] + rest));
      LineCommentRead(text[0], text[1..], end, rest);
    }
  }

  lemma {:induction false} LastCommentRead(c: Unit, text: Str)
    requires 0x0A !in text && 0x0D !in text
    ensures InlineComment([c] + text) == []
    decreases |text|
  {
    Cons(c, text);
    if text != [] {
      assert text[0] in text && text == [text[0]] + text[1..];
      LastCommentRead(text[0], text[1..]);
    }
  }

  lemma {:induction false} BlockCommentRead(text: Str, rest: Str)
    requires GoodGap(BlockComment(text))
    ensures CommentStars(text + ([0x2A] + ([0x2F] + rest))) == Some(rest)
    decreases |text|
  {
    var tail := [0x2A] + ([0x2F] + rest);
    var t := text + tail;
    Cons(0x2A, [0x2F] + rest);
    Cons(0x2F, rest);
    if text == [] {
      assert t == tail;
      assert t[2..] == rest;
    } else {
      assert t[1..] == text[1..] + tail && t[0] == text[0];
      assert |text| > 1 ==> t[1] == text[1];
      assert |text| == 1 ==> t[1] == 0x2A;
      forall i | 0 <= i < |text[1..]| - 1
        ensures !(text[1..][i] == 0x2A && text[1..][i + 1] == 0x2F)
      {
        assert text[1..][i] == text[i + 1] && text[1..][i + 1] == text[i + 2];
      }
      BlockCommentRead(text[1..], rest);
    }
  }

  lemma GapRead(g: Gap, rest: Str)
    requires GoodGap(g)
    ensures White(GapText(g, rest)) == White(rest)
  {
    match g
    case Blank(c) => Cons(c, rest);
    case LineComment(text, end) =>
      var t := [0x2F] + (text + ([end] + rest));
      Cons(0x2F, t);
      Cons(0x2F, text + ([end] + rest));
      LineCommentRead(0x2F, text, end, rest);
    case BlockComment(text) =>
      var t := text + ([0x2A] + ([0x2F] + rest));
      Cons(0x2F, [0x2A] + t);
      Cons(0x2A, t);
      BlockCommentRead(text, rest);
  }

  lemma {:induction false} GapsRead(gs: seq<Gap>, rest: Str)
    requires GoodGaps(gs)
    ensures White(GapsText(gs, rest)) == White(rest)
  {
    hide White, GapText;
    if gs == [] {
    } else {
      GapRead(gs[0], GapsText(gs[1..], rest));
      GapsRead(gs[1..], rest);
    }
  }

  /** Text that a scan for whitespace stops at. */
  predicate Solid(t: Str) {
    t != [] && !IsBlank(t[0]) && t[0] != 0x2F
  }

  lemma SolidRead(t: Str)
    requires Solid(t) || t == []
    ensures White(t) == Some(t)
  {
  }

  lemma EndingRead(e: Ending)
    requires GoodEnding(e)
    ensures White(EndingText(e)) == Some([])
  {
    if e.Remark? {
      Cons(0x2F, [0x2F] + e.text);
      Cons(0x2F, e.text);
      LastCommentRead(0x2F, e.text);
    }
  }

  /** What may follow a value: nothing, a gap, a comma, or the end of what it is in. */
  predicate Stops(t: Str) {
    t == [] || IsBlank(t[0]) || t[0] == 0x2F || t[0] == 0x2C || t[0] == 0x5D || t[0] == 0x7D || t[0] == 0x3A
  }

  lemma GapsStop(gs: seq<Gap>, rest: Str)
    requires GoodGaps(gs) && Stops(rest)
    ensures Stops(GapsText(gs, rest))
  {
    if gs != [] {
      assert GoodGap(gs[0]);
    }
  }

  // -------------------------------------------------------------------- strings

  lemma HexSame(c: Unit)
    ensures IsHex(c) == IsHexDigit(c) && (IsHex(c) ==> HexOf(c) == HexValue(c))
  {
  }

  lemma HexStep(before: Unit, x: Unit, rest: Str, count: nat, a: nat)
    requires IsHex(x) && count < 4
    ensures HexEscape([before] + ([x] + rest), count, a) == HexEscape([x] + rest, count + 1, 16 * a + HexOf(x))
  {
    Cons(before, [x] + rest);
    Cons(x, rest);
    HexSame(x);
  }

  lemma HexRead(a: Unit, b: Unit, c: Unit, d: Unit, rest: Str)
    requires IsHex(a) && IsHex(b) && IsHex(c) && IsHex(d)
    ensures HexEscape([0x75] + ([a] + ([b] + ([c] + ([d] + rest)))), 0, 0)
         == (HexOf(a) * 0x1000 + HexOf(b) * 0x100 + HexOf(c) * 0x10 + HexOf(d), [d] + rest)
  {
    hide HexEscape, HexOf;
    var r3 := [d] + rest;
    var r2 := [c] + r3;
    var r1 := [b] + r2;
    HexStep(0x75, a, r1, 0, 0);
    HexStep(a, b, r2, 1, HexOf(a));
    HexStep(b, c, r3, 2, 16 * HexOf(a) + HexOf(b));
    HexStep(c, d, rest, 3, 16 * (16 * HexOf(a) + HexOf(b)) + HexOf(c));
    HexDone(r3, 16 * (16 * (16 * HexOf(a) + HexOf(b)) + HexOf(c)) + HexOf(d));
  }

  lemma HexDone(t: Str, a: nat)
    ensures HexEscape(t, 4, a) == (a, t)
  {
  }

  lemma PieceRead(p: Piece, quote: Unit, rest: Str)
    requires GoodPiece(p, quote) && (quote == 0x22 || quote == 0x27) && rest != [] && rest[0] != 0x0A
    ensures StringChars(PieceText(p, rest), quote) == Prepend(PieceMeaning(p, quote), StringChars(rest, quote))
  {
    match p
    case Char(c) => Cons(c, rest);
    case Short(letter) => ShortRead(letter, quote, rest);
    case Hex(a, b, c, d) => HexPieceRead(a, b, c, d, quote, rest);
    case Partial(digits, lost) => PartialRead(digits, lost, quote, rest);
    case Continued(newline) => ContinuedRead(newline, quote, rest);
  }

  lemma ShortRead(letter: Unit, quote: Unit, rest: Str)
    requires ShortMeaning(letter).Some? && (quote == 0x22 || quote == 0x27)
    ensures StringChars([0x5C] + ([letter] + rest), quote) == Prepend([ShortMeaning(letter).value], StringChars(rest, quote))
  {
    Cons(0x5C, [letter] + rest);
    Cons(letter, rest);
    assert Escapee(letter) == Some([ShortMeaning(letter).value]);
    hide Escapee, ShortMeaning, HexEscape;
  }

  lemma HexPieceRead(a: Unit, b: Unit, c: Unit, d: Unit, quote: Unit, rest: Str)
    requires IsHex(a) && IsHex(b) && IsHex(c) && IsHex(d) && (quote == 0x22 || quote == 0x27)
    ensures StringChars(PieceText(Hex(a, b, c, d), rest), quote)
         == Prepend(PieceMeaning(Hex(a, b, c, d), quote), StringChars(rest, quote))
  {
    hide HexEscape, HexOf, Prepend, IsHex;
    var t := [0x75] + ([a] + ([b] + ([c] + ([d] + rest))));
    Cons(0x5C, t);
    Cons(0x75, [a] + ([b] + ([c] + ([d] + rest))));
    HexRead(a, b, c, d, rest);
    Cons(d, rest);
  }

  lemma {:induction false} HexCutShort(before: Unit, ds: Str, lost: Unit, rest: Str, count: nat, a: nat)
    requires count + |ds| < 4 && (forall i :: 0 <= i < |ds| ==> IsHex(ds[i])) && !IsHex(lost)
    ensures HexEscape([before] + (ds + ([lost] + rest)), count, a).1 == [lost] + rest
    ensures |ds| == 0 ==> HexEscape([before] + (ds + ([lost] + rest)), count, a).0 == a
    ensures |ds| == 1 ==> HexEscape([before] + (ds + ([lost] + rest)), count, a).0 == 16 * a + HexOf(ds[0])
    ensures |ds| == 2 ==> HexEscape([before] + (ds + ([lost] + rest)), count, a).0 == 16 * (16 * a + HexOf(ds[0])) + HexOf(ds[1])
    ensures |ds| == 3 ==>
              HexEscape([before] + (ds + ([lost] + rest)), count, a).0 == 16 * (16 * (16 * a + HexOf(ds[0])) + HexOf(ds[1])) + HexOf(ds[2])
    decreases |ds|
  {
    hide HexOf;
    if ds == [] {
      assert ds + ([lost] + rest) == [lost] + rest;
      Cons(before, [lost] + rest);
      Cons(lost, rest);
      HexSame(lost);
    } else {
      hide HexEscape, IsHex;
      assert ds + ([lost] + rest) == [ds[0]] + (ds[1..] + ([lost] + rest));
      HexStep(before, ds[0], ds[1..] + ([lost] + rest), count, a);
      HexCutShort(ds[0], ds[1..], lost, rest, count + 1, 16 * a + HexOf(ds[0]));
    }
  }

  lemma PartialRead(digits: Str, lost: Unit, quote: Unit, rest: Str)
    requires GoodPiece(Partial(digits, lost), quote) && (quote == 0x22 || quote == 0x27)
    ensures StringChars(PieceText(Partial(digits, lost), rest), quote)
         == Prepend(PieceMeaning(Partial(digits, lost), quote), StringChars(rest, quote))
  {
    hide HexEscape, HexOf, Prepend, IsHex;
    var t := [0x75] + (digits + ([lost] + rest));
    Cons(0x5C, t);
    Cons(0x75, digits + ([lost] + rest));
    HexCutShort(0x75, digits, lost, rest, 0, 0);
    Cons(lost, rest);
  }

  lemma ContinuedRead(newline: Str, quote: Unit, rest: Str)
    requires newline == [0x0A] || newline == [0x0D] || newline == [0x0D, 0x0A]
    requires (quote == 0x22 || quote == 0x27) && rest != [] && rest[0] != 0x0A
    ensures StringChars([0x5C] + (newline + rest), quote) == Prepend([], StringChars(rest, quote))
  {
    hide HexEscape;
    Cons(0x5C, newline + rest);
    NothingBefore(StringChars(rest, quote));
    if newline == [0x0D, 0x0A] {
      assert (newline + rest)[1..] == [0x0A] + rest;
      Cons(0x0A, rest);
    } else {
      Cons(newline[0], rest);
      assert newline + rest == [newline[0]] + rest;
    }
  }

  lemma NothingBefore(r: Option<(Str, Str)>)
    ensures Prepend([], r) == r
  {
    assert r.Some? ==> [] + r.value.0 == r.value.0;
  }

  lemma PiecesHead(ps: seq<Piece>, quote: Unit, rest: Str)
    requires GoodPieces(ps, quote) && rest != [] && rest[0] != 0x0A
    ensures PiecesText(ps, rest) != [] && PiecesText(ps, rest)[0] != 0x0A
  {
    if ps != [] {
      assert GoodPiece(ps[0], quote);
    }
  }

  lemma {:induction false} PiecesRead(ps: seq<Piece>, quote: Unit, rest: Str)
    requires GoodPieces(ps, quote)
    ensures StringChars(PiecesText(ps, [quote] + rest), quote) == Some((PiecesMeaning(ps, quote), rest))
  {
    hide PieceText, GoodPiece, PieceMeaning;
    if ps == [] {
      Cons(quote, rest);
    } else {
      hide StringChars;
      PiecesHead(ps[1..], quote, [quote] + rest);
      PieceRead(ps[0], quote, PiecesText(ps[1..], [quote] + rest));
      PiecesRead(ps[1..], quote, rest);
    }
  }

  lemma StringRead(quote: Unit, ps: seq<Piece>, rest: Str)
    requires GoodPieces(ps, quote)
    ensures StringToken(StringText(quote, ps, rest)) == Some((PiecesMeaning(ps, quote), rest))
  {
    hide StringChars, PiecesText, PiecesMeaning;
    Cons(quote, PiecesText(ps, [quote] + rest));
    PiecesRead(ps, quote, rest);
  }

  // -------------------------------------------------------------------- numbers

  predicate NoNumeral(t: Str) {
    t == [] || !(0x30 <= t[0] <= 0x39)
  }

  lemma {:induction false} DigitsOver(ds: Str, t: Str)
    requires AllNumerals(ds) && NoNumeral(t)
    ensures Digits(ds + t) == |ds|
  {
    if ds == [] {
      assert ds + t == t;
    } else {
      assert ds + t == [ds[0]] + (ds[1..] + t);
      Cons(ds[0], ds[1..] + t);
      DigitsOver(ds[1..], t);
    }
  }

  lemma {:induction false} HexDigitsOver(ds: Str, t: Str)
    requires (forall i :: 0 <= i < |ds| ==> IsHex(ds[i])) && (t == [] || !IsHex(t[0]))
    ensures HexDigits(ds + t) == |ds|
  {
    if ds == [] {
      assert ds + t == t;
    } else {
      assert ds + t == [ds[0]] + (ds[1..] + t);
      Cons(ds[0], ds[1..] + t);
      HexDigitsOver(ds[1..], t);
    }
  }

  lemma StopsNumbers(t: Str)
    requires Stops(t)
    ensures NoNumeral(t) && (t == [] || !IsHex(t[0])) && !At(t, 0x2E) && !At(t, 0x65) && !At(t, 0x45) && !At(t, 0x78) && !At(t, 0x58)
  {
  }

  predicate GoodExponent(e: Option<Exponent>) {
    e.Some? ==> (e.value.mark == 0x65 || e.value.mark == 0x45) && IsSign(e.value.sign) && AllNumerals(e.value.digits)
  }

  lemma ExponentPlain(mark: Unit, ds: Str, rest: Str)
    requires (mark == 0x65 || mark == 0x45) && AllNumerals(ds) && Stops(rest)
    ensures Json5.Exponent([mark] + (ds + rest)) == 1 + |ds|
  {
    hide Digits;
    StopsNumbers(rest);
    Cons(mark, ds + rest);
    SignFree(ds, rest);
    DigitsOver(ds, rest);
  }

  lemma ExponentSigned(mark: Unit, sign: Unit, ds: Str, rest: Str)
    requires (mark == 0x65 || mark == 0x45) && (sign == 0x2D || sign == 0x2B) && AllNumerals(ds) && Stops(rest)
    ensures Json5.Exponent([mark] + ([sign] + (ds + rest))) == 2 + |ds|
  {
    hide Digits;
    StopsNumbers(rest);
    var t := [mark] + ([sign] + (ds + rest));
    Cons(mark, [sign] + (ds + rest));
    Cons(sign, ds + rest);
    assert t[2..] == t[1..][1..];
    DigitsOver(ds, rest);
  }

  lemma ExponentRead(e: Option<Exponent>, rest: Str)
    requires GoodExponent(e) && Stops(rest)
    ensures Json5.Exponent(ExponentText(e) + rest) == |ExponentText(e)|
  {
    hide Json5.Exponent, AllNumerals, Stops;
    if e.None? {
      NoExponent(rest);
    } else {
      var x := e.value;
      Appended([x.mark], x.sign, x.digits, rest);
      if x.sign == [] {
        ExponentPlain(x.mark, x.digits, rest);
      } else {
        ExponentSigned(x.mark, x.sign[0], x.digits, rest);
      }
    }
  }

  lemma NoExponent(rest: Str)
    requires Stops(rest)
    ensures [] + rest == rest && Json5.Exponent(rest) == 0
  {
    StopsNumbers(rest);
  }

  lemma Appended(mark: Str, sign: Str, ds: Str, rest: Str)
    ensures mark + (sign + ds) + rest == mark + (sign + (ds + rest))
    ensures sign == [] ==> sign + (ds + rest) == ds + rest && sign + ds == ds
    ensures |sign| == 1 ==> sign == [sign[0]]
  {
  }

  lemma SignFree(ds: Str, rest: Str)
    requires AllNumerals(ds) && Stops(rest)
    ensures !At(ds + rest, 0x2D) && !At(ds + rest, 0x2B)
  {
  }

  lemma FractionRead(f: Option<Str>, t: Str)
    requires (f.Some? ==> AllNumerals(f.value)) && NoNumeral(t) && !At(t, 0x2E)
    ensures Fraction(FractionText(f) + t) == |FractionText(f)|
  {
    if f.Some? {
      DigitsOver(f.value, t);
      assert FractionText(f) + t == [0x2E] + (f.value + t);
      Cons(0x2E, f.value + t);
    } else {
      assert FractionText(f) + t == t;
    }
  }

  /** The whole numeral is taken, and nothing behind it. */
  lemma DecimalLength(n: Numeral, rest: Str)
    requires n.Decimal? && AllNumerals(n.whole) && (n.fraction.Some? ==> AllNumerals(n.fraction.value)) && GoodExponent(n.exponent)
    requires Stops(rest)
    ensures PlainLength(Body(n) + rest) == |Body(n)|
  {
    hide Json5.Exponent, Fraction, Digits, ExponentText, FractionText;
    var e := ExponentText(n.exponent) + rest;
    var f := FractionText(n.fraction) + e;
    var t := Body(n) + rest;
    assert t == n.whole + f;
    ExponentHead(n.exponent, rest);
    FractionHead(n.fraction, e);
    DigitsOver(n.whole, f);
    assert t[|n.whole|..] == f;
    FractionRead(n.fraction, e);
    assert t[|n.whole| + |FractionText(n.fraction)|..] == e;
    ExponentRead(n.exponent, rest);
  }

  lemma ExponentHead(e: Option<Exponent>, rest: Str)
    requires GoodExponent(e) && Stops(rest)
    ensures NoNumeral(ExponentText(e) + rest) && !At(ExponentText(e) + rest, 0x2E)
  {
    StopsNumbers(rest);
    if e.Some? {
      assert (ExponentText(e) + rest)[0] == e.value.mark;
    } else {
      assert [] + rest == rest;
    }
  }

  lemma FractionHead(f: Option<Str>, t: Str)
    requires NoNumeral(t)
    ensures NoNumeral(FractionText(f) + t)
  {
    if f.Some? {
      assert (FractionText(f) + t)[0] == 0x2E;
    } else {
      assert [] + t == t;
    }
  }

  lemma {:induction false} SameNumber(s: Str)
    requires AllNumerals(s)
    ensures DecimalValue(s) == NumberOf(s)
  {
    if s == [] {
    } else {
      SameNumber(s[..|s| - 1]);
    }
  }

  /** The text of a decimal numeral is not taken for another form. */
  lemma DecimalOnly(n: Numeral, rest: Str)
    requires n.Decimal? && AllNumerals(n.whole) && (|n.whole| > 1 ==> n.whole[0] != 0x30)
    requires GoodExponent(n.exponent) && Stops(rest)
    ensures var t := Body(n) + rest;
            && !IsHexNumeral(t) && !IsOctal(t) && !At(t, 0x49) && !At(t, 0x4E)
            && (n.whole != [] || n.fraction.Some? ==> t != [] && (t[0] == 0x2E || 0x30 <= t[0] <= 0x39))
  {
    hide ExponentText, FractionText, GoodExponent, Stops;
    var e := ExponentText(n.exponent) + rest;
    var f := FractionText(n.fraction) + e;
    assert Body(n) + rest == n.whole + f;
    ExponentMark(n.exponent, rest);
    FractionMark(n.fraction, e);
    WholeOnly(n.whole, f);
  }

  /** Nothing that would make a numeral hexadecimal or octal, or a word. */
  predicate Harmless(t: Str) {
    t == [] || (t[0] != 0x78 && t[0] != 0x58 && !(0x30 <= t[0] <= 0x39) && t[0] != 0x49 && t[0] != 0x4E)
  }

  lemma FractionMark(f: Option<Str>, t: Str)
    requires Harmless(t)
    ensures Harmless(FractionText(f) + t) && (f.Some? ==> At(FractionText(f) + t, 0x2E))
  {
    if f.None? {
      assert [] + t == t;
    }
  }

  lemma WholeOnly(whole: Str, f: Str)
    requires AllNumerals(whole) && (|whole| > 1 ==> whole[0] != 0x30) && Harmless(f)
    ensures var t := whole + f;
            && !IsHexNumeral(t) && !IsOctal(t) && !At(t, 0x49) && !At(t, 0x4E)
            && (whole != [] || At(f, 0x2E) ==> t != [] && (t[0] == 0x2E || 0x30 <= t[0] <= 0x39))
  {
    if whole == [] {
      assert whole + f == f;
    } else if |whole| == 1 {
      assert whole + f == [whole[0]] + f;
      Cons(whole[0], f);
    }
  }

  lemma ExponentMark(e: Option<Exponent>, rest: Str)
    requires GoodExponent(e) && Stops(rest)
    ensures Harmless(ExponentText(e) + rest)
  {
    StopsNumbers(rest);
    if e.Some? {
      assert (ExponentText(e) + rest)[0] == e.value.mark;
    } else {
      assert [] + rest == rest;
    }
  }

  /** A numeral without its sign, as the parser takes it, and its value. */
  lemma BodyRead(n: Numeral, rest: Str, finite: Str -> bool)
    requires GoodNumeral(n, finite) && (n.Decimal? || n.Hexadecimal?) && Stops(rest)
    ensures var t := Body(n) + rest;
            && (n.sign == [] ==> t != [] && (t[0] == 0x2E || 0x30 <= t[0] <= 0x39)) && !At(t, 0x49) && !At(t, 0x4E)
            && NumeralLength(t) == Some(|Body(n)|) && t[..|Body(n)|] == Body(n) && t[|Body(n)|..] == rest
    ensures NumeralValue(n.sign, Body(n), finite) == Some(NumeralMeaning(n))
  {
    hide PlainLength, ExponentText, FractionText;
    if n.Decimal? {
      DecimalLength(n, rest);
      DecimalOnly(n, rest);
      DecimalMeaning(n, finite);
    } else {
      HexNumeralRead(n, rest, finite);
    }
  }

  lemma DecimalMeaning(n: Numeral, finite: Str -> bool)
    requires GoodNumeral(n, finite) && n.Decimal?
    ensures NumeralValue(n.sign, Body(n), finite) == Some(NumeralMeaning(n))
  {
    var b := Body(n);
    if n.fraction.None? && n.exponent.None? {
      assert b == n.whole;
      SameNumber(n.whole);
      assert AllDigits(b);
    } else {
      NotAllDigits(n);
    }
  }

  lemma NotAllDigits(n: Numeral)
    requires n.Decimal? && (n.fraction.Some? || n.exponent.Some?)
    requires n.exponent.Some? ==> n.exponent.value.mark == 0x65 || n.exponent.value.mark == 0x45
    ensures !AllDigits(Body(n))
  {
    assert Body(n)[|n.whole|] == if n.fraction.Some? then 0x2E else n.exponent.value.mark;
  }

  lemma HexNumeralRead(n: Numeral, rest: Str, finite: Str -> bool)
    requires GoodNumeral(n, finite) && n.Hexadecimal? && Stops(rest)
    ensures var t := Body(n) + rest;
            && t != [] && t[0] == 0x30
            && NumeralLength(t) == Some(|Body(n)|) && t[..|Body(n)|] == Body(n) && t[|Body(n)|..] == rest
    ensures NumeralValue(n.sign, Body(n), finite) == Some(NumeralMeaning(n))
  {
    hide HexDigits, PlainLength;
    var t := Body(n) + rest;
    assert t[0] == 0x30 && t[1] == n.x && t[2..] == n.digits + rest;
    assert t[1..][0] == n.x;
    StopsNumbers(rest);
    HexDigitsOver(n.digits, rest);
    assert Body(n)[1] == n.x && !IsDigit(n.x);
    assert !AllDigits(Body(n));
  }

  lemma SignedToken(n: Numeral, rest: Str, finite: Str -> bool)
    requires GoodNumeral(n, finite) && (n.Decimal? || n.Hexadecimal?) && Stops(rest)
    ensures var t := n.sign + (Body(n) + rest);
            && t != [] && (t[0] == MINUS || t[0] == PLUS || t[0] == DOT || IsDigit(t[0]))
            && NumberToken(t, finite) == Some((NumeralMeaning(n), rest))
  {
    hide NumeralLength, NumeralValue, NumeralMeaning, Body, Literal;
    BodyRead(n, rest, finite);
    if n.sign == [] {
      assert n.sign + (Body(n) + rest) == Body(n) + rest;
    } else {
      assert n.sign + (Body(n) + rest) == [n.sign[0]] + (Body(n) + rest);
      Cons(n.sign[0], Body(n) + rest);
    }
  }

  // ---------------------------------------------------------------------- words

  lemma {:induction false} WordOver(w: Str, rest: Str)
    ensures ExpectAll(w + rest, w) == Some(rest)
  {
    if w == [] {
      assert w + rest == rest;
    } else {
      assert w + rest == [w[0]] + (w[1..] + rest);
      Cons(w[0], w[1..] + rest);
      WordOver(w[1..], rest);
    }
  }

  lemma NumberWordRead(n: Numeral, rest: Str, finite: Str -> bool)
    requires GoodNumeral(n, finite) && (n.Infinite? || n.NotANumber?)
    ensures var t := n.sign + (Body(n) + rest);
            && t != []
            && (n.sign != [] ==> (t[0] == MINUS || t[0] == PLUS) && NumberToken(t, finite) == Some((NumeralMeaning(n), rest)))
            && (n.sign == [] ==> (t[0] == 0x49 || t[0] == 0x4E) && Word(t) == Some((NumeralMeaning(n), rest)))
  {
    hide ExpectAll, NumeralLength, NumeralValue;
    WordOver(Body(n), rest);
    assert (Body(n) + rest)[0] == Body(n)[0];
    if n.sign == [] {
      assert n.sign + (Body(n) + rest) == Body(n) + rest;
    } else {
      assert n.sign + (Body(n) + rest) == [n.sign[0]] + (Body(n) + rest);
      Cons(n.sign[0], Body(n) + rest);
    }
  }

  lemma ThreeWordsRead(rest: Str)
    ensures Word([0x6E, 0x75, 0x6C, 0x6C] + rest) == Some((JNull, rest))
    ensures Word([0x74, 0x72, 0x75, 0x65] + rest) == Some((JBool(true), rest))
    ensures Word([0x66, 0x61, 0x6C, 0x73, 0x65] + rest) == Some((JBool(false), rest))
  {
    hide ExpectAll;
    WordOver([0x6E, 0x75, 0x6C, 0x6C], rest);
    WordOver([0x74, 0x72, 0x75, 0x65], rest);
    WordOver([0x66, 0x61, 0x6C, 0x73, 0x65], rest);
  }

  // ----------------------------------------------------------------------- keys

  predicate NoWord(t: Str) {
    t == [] || !IsWordCharacter(t[0])
  }

  lemma {:induction false} TailOver(w: Str, t: Str)
    requires (forall i :: 0 <= i < |w| ==> IsWordCharacter(w[i])) && NoWord(t)
    ensures WordTail(w + t) == |w|
  {
    if w == [] {
      assert w + t == t;
    } else {
      assert w + t == [w[0]] + (w[1..] + t);
      Cons(w[0], w[1..] + t);
      TailOver(w[1..], t);
    }
  }

  lemma KeyRead(k: Key, rest: Str)
    requires GoodKey(k) && Stops(rest)
    ensures KeyAt(KeyText(k, rest)) == Some((KeyMeaning(k), rest))
    ensures Solid(KeyText(k, rest)) && KeyText(k, rest)[0] != 0x7D
  {
    match k
    case Quoted(quote, pieces) =>
      hide StringToken, PiecesText, PiecesMeaning;
      StringRead(quote, pieces, rest);
      Cons(quote, PiecesText(pieces, [quote] + rest));
    case Bare(word) => BareRead(word, rest);
  }

  lemma BareRead(word: Str, rest: Str)
    requires GoodKey(Bare(word)) && Stops(rest)
    ensures KeyAt(word + rest) == Some((word, rest)) && Solid(word + rest) && (word + rest)[0] != 0x7D
  {
    hide WordTail;
    var t := word + rest;
    assert t == [word[0]] + (word[1..] + rest);
    Cons(word[0], word[1..] + rest);
    TailOver(word[1..], rest);
    assert t[..|word|] == word && t[|word|..] == rest;
  }

  lemma {:induction false} WithIsAssign(entries: seq<Member>, key: Str, v: Json)
    requires key != [0x5F, 0x5F, 0x70, 0x72, 0x6F, 0x74, 0x6F, 0x5F, 0x5F]
    ensures With(entries, key, v) == Assign(entries, key, v)
  {
    if entries == [] {
    } else if entries[0].key == key {
      assert entries == [entries[0]] + entries[1..];
    } else {
      WithIsAssign(entries[1..], key, v);
      assert entries == [entries[0]] + entries[1..];
    }
  }

  // --------------------------------------------------------------------- values

  /** A value begins with a character that ends no gap and closes nothing. */
  predicate Begins(t: Str) {
    Solid(t) && t[0] != 0x2C && t[0] != 0x5D && t[0] != 0x7D
  }

  lemma NumberRead(n: Numeral, rest: Str, finite: Str -> bool)
    requires GoodNumeral(n, finite) && Stops(rest)
    ensures var t := n.sign + (Body(n) + rest);
            Begins(t) && ValueAt(t, finite) == Some((NumeralMeaning(n), rest))
  {
    hide NumberToken, NumeralMeaning, Body, GoodNumeral, MembersAt, ItemsAt, Word;
    if n.Decimal? || n.Hexadecimal? {
      SignedToken(n, rest, finite);
    } else {
      NumberWordRead(n, rest, finite);
    }
    SolidRead(n.sign + (Body(n) + rest));
  }

  lemma WordRead(v: Spelled, rest: Str, finite: Str -> bool)
    requires v.Null? || v.True? || v.False?
    ensures Begins(TextOf(v, rest)) && ValueAt(TextOf(v, rest), finite) == Some((Meaning(v, finite), rest))
  {
    hide Word, MembersAt, ItemsAt, NumberToken;
    ThreeWordsRead(rest);
    SolidRead(TextOf(v, rest));
  }

  lemma TextRead(quote: Unit, ps: seq<Piece>, rest: Str, finite: Str -> bool)
    requires GoodPieces(ps, quote)
    ensures var t := StringText(quote, ps, rest);
            Begins(t) && ValueAt(t, finite) == Some((JString(PiecesMeaning(ps, quote)), rest))
  {
    hide StringToken, MembersAt, ItemsAt, NumberToken, PiecesText, PiecesMeaning;
    StringRead(quote, ps, rest);
    Cons(quote, PiecesText(ps, [quote] + rest));
    SolidRead(StringText(quote, ps, rest));
  }

  /** The text of a value is read as its meaning, up to where it ends. */
  lemma {:induction false} ValueRead(v: Spelled, rest: Str, finite: Str -> bool)
    requires Good(v, finite) && Stops(rest)
    ensures Begins(TextOf(v, rest)) && ValueAt(TextOf(v, rest), finite) == Some((Meaning(v, finite), rest))
    decreases v, 1, 0
  {
    hide ValueAt, GoodNumeral, GoodPieces, Stops, Begins, PiecesMeaning, NumeralMeaning;
    match v
    case Number(n) => NumberRead(n, rest, finite);
    case Text(quote, pieces) => TextRead(quote, pieces, rest, finite);
    case List(open, items) =>
      ItemsRead(items, rest, [], finite);
      ListRead(open, ItemsText(items, [0x5D] + rest), finite);
      assert [] + ItemsMeaning(items, finite) == ItemsMeaning(items, finite);
    case Dict(open, members) =>
      GoodMembersIs(v, finite);
      MembersRead(members, rest, [], finite);
      DictRead(open, MembersText(members, [0x7D] + rest), finite);
    case _ => WordRead(v, rest, finite);
  }

  lemma ListRead(open: seq<Gap>, t: Str, finite: Str -> bool)
    requires GoodGaps(open) && Solid(t)
    ensures var u := [0x5B] + GapsText(open, t);
            Begins(u) && ValueAt(u, finite) == ItemsAt(t, [], finite)
  {
    hide MembersAt, ItemsAt, NumberToken, Word, StringToken;
    var u := [0x5B] + GapsText(open, t);
    Cons(0x5B, GapsText(open, t));
    SolidRead(u);
    GapsRead(open, t);
    SolidRead(t);
  }

  lemma DictRead(open: seq<Gap>, t: Str, finite: Str -> bool)
    requires GoodGaps(open) && Solid(t)
    ensures var u := [0x7B] + GapsText(open, t);
            Begins(u) && ValueAt(u, finite) == MembersAt(t, [], finite)
  {
    hide MembersAt, ItemsAt, NumberToken, Word, StringToken;
    var u := [0x7B] + GapsText(open, t);
    Cons(0x7B, GapsText(open, t));
    SolidRead(u);
    GapsRead(open, t);
    SolidRead(t);
  }

  lemma CommaStops(comma: bool, next: seq<Gap>, rest: Str)
    requires comma || Stops(rest)
    ensures Stops(CommaText(comma, next, rest))
  {
  }

  lemma {:induction false} ItemsRead(items: seq<Item>, rest: Str, acc: seq<Json>, finite: Str -> bool)
    requires GoodItems(items, finite)
    ensures var t := ItemsText(items, [0x5D] + rest);
            Solid(t) && ItemsAt(t, acc, finite) == Some((JArray(acc + ItemsMeaning(items, finite)), rest))
    decreases items, 0, 0
  {
    hide ValueAt, Good, Stops, Begins, TextOf, GoodGaps;
    if items == [] {
      NoItems(rest, acc, finite);
    } else {
      var i, more := items[0], items[1..];
      ItemsTail(items, finite);
      var t := ItemsText(more, [0x5D] + rest);
      var all := acc + [Meaning(i.value, finite)];
      ItemsRead(more, rest, all, finite);
      assert !i.comma ==> more == [];
      CommaOrClose(i.comma, t, rest);
      CommaStops(i.comma, i.next, t);
      GapsStop(i.after, CommaText(i.comma, i.next, t));
      ValueRead(i.value, GapsText(i.after, CommaText(i.comma, i.next, t)), finite);
      OneItem(i, t, rest, acc, finite);
      assert acc + [Meaning(i.value, finite)] + ItemsMeaning(more, finite) == acc + ItemsMeaning(items, finite);
    }
  }

  predicate GoodItems(items: seq<Item>, finite: Str -> bool) {
    forall i :: 0 <= i < |items| ==>
      && Good(items[i].value, finite) && GoodGaps(items[i].after) && GoodGaps(items[i].next)
      && (i < |items| - 1 ==> items[i].comma)
  }

  lemma ItemsTail(items: seq<Item>, finite: Str -> bool)
    requires GoodItems(items, finite) && items != []
    ensures GoodItems(items[1..], finite) && Good(items[0].value, finite) && GoodGaps(items[0].after) && GoodGaps(items[0].next)
    ensures |items| > 1 ==> items[0].comma
  {
    hide Good, GoodGaps;
    assert forall i :: 0 <= i < |items| - 1 ==> items[1..][i] == items[i + 1];
  }

  lemma NoItems(rest: Str, acc: seq<Json>, finite: Str -> bool)
    ensures Solid([0x5D] + rest) && ItemsAt([0x5D] + rest, acc, finite) == Some((JArray(acc + []), rest))
  {
    Cons(0x5D, rest);
    assert acc + [] == acc;
  }

  /** After an item without a comma the array ends. */
  lemma CommaOrClose(comma: bool, t: Str, rest: Str)
    requires !comma ==> t == [0x5D] + rest
    ensures comma || Stops(t)
  {
    Cons(0x5D, rest);
  }

  lemma OneItem(i: Item, t: Str, rest: Str, acc: seq<Json>, finite: Str -> bool)
    requires Good(i.value, finite) && GoodGaps(i.after) && GoodGaps(i.next) && Solid(t) && (!i.comma ==> t == [0x5D] + rest)
    requires var u := GapsText(i.after, CommaText(i.comma, i.next, t));
             Begins(TextOf(i.value, u)) && ValueAt(TextOf(i.value, u), finite) == Some((Meaning(i.value, finite), u))
    ensures var u := TextOf(i.value, GapsText(i.after, CommaText(i.comma, i.next, t)));
            var all := acc + [Meaning(i.value, finite)];
            Solid(u) && ItemsAt(u, acc, finite) == if i.comma then ItemsAt(t, all, finite) else Some((JArray(all), rest))
  {
    hide ValueAt, TextOf, Good, Meaning, White, GapsText, GoodGaps;
    var x := CommaText(i.comma, i.next, t);
    GapsRead(i.after, x);
    SolidRead(x);
    if i.comma {
      Cons(0x2C, GapsText(i.next, t));
      SolidRead([0x2C] + GapsText(i.next, t));
      GapsRead(i.next, t);
      SolidRead(t);
    } else {
      Cons(0x5D, rest);
    }
  }

  predicate GoodMembers(members: seq<Entry>, finite: Str -> bool) {
    forall i :: 0 <= i < |members| ==> GoodMember(members[i], finite) && (i < |members| - 1 ==> members[i].comma)
  }

  predicate GoodMember(m: Entry, finite: Str -> bool) {
    && GoodKey(m.key) && GoodGaps(m.afterKey) && GoodGaps(m.before)
    && Good(m.value, finite) && GoodGaps(m.after) && GoodGaps(m.next)
  }

  lemma GoodMembersIs(v: Spelled, finite: Str -> bool)
    requires v.Dict? && Good(v, finite)
    ensures GoodMembers(v.members, finite)
  {
    hide GoodKey, GoodGaps;
  }

  lemma MembersTail(members: seq<Entry>, finite: Str -> bool)
    requires GoodMembers(members, finite) && members != []
    ensures GoodMembers(members[1..], finite) && GoodMember(members[0], finite) && (|members| > 1 ==> members[0].comma)
  {
    hide GoodMember;
    assert forall i :: 0 <= i < |members| - 1 ==> members[1..][i] == members[i + 1];
  }

  function MemberText(m: Entry, rest: Str): Str {
    KeyText(m.key, GapsText(m.afterKey, [0x3A] + GapsText(m.before, TextOf(m.value, rest))))
  }

  /** One member and the gaps behind it. */
  lemma MemberRead(m: Entry, x: Str, finite: Str -> bool)
    requires GoodMember(m, finite) && Solid(x)
    requires var u := GapsText(m.after, x);
             Begins(TextOf(m.value, u)) && ValueAt(TextOf(m.value, u), finite) == Some((Meaning(m.value, finite), u))
    ensures var t := MemberText(m, GapsText(m.after, x));
            && Solid(t) && t[0] != 0x7D
            && MemberAt(t, finite) == Some((Member(KeyMeaning(m.key), Meaning(m.value, finite)), x))
  {
    hide TextOf, Good, Meaning, GapsText, GoodGaps, KeyAt, KeyText, KeyMeaning, GoodKey;
    var u := GapsText(m.after, x);
    var value := TextOf(m.value, u);
    var colon := [0x3A] + GapsText(m.before, value);
    Cons(0x3A, GapsText(m.before, value));
    GapsStop(m.afterKey, colon);
    KeyRead(m.key, GapsText(m.afterKey, colon));
    GapsRead(m.afterKey, colon);
    SolidRead(colon);
    BeforeValue(m.before, value, finite);
    GapsRead(m.after, x);
    SolidRead(x);
  }

  /** Gaps in front of a value are skipped. */
  lemma BeforeValue(gs: seq<Gap>, t: Str, finite: Str -> bool)
    requires GoodGaps(gs) && Solid(t)
    ensures ValueAt(GapsText(gs, t), finite) == ValueAt(t, finite)
  {
    hide GapsText, GoodGaps, MembersAt, ItemsAt, NumberToken, Word, StringToken;
    GapsRead(gs, t);
    SolidRead(t);
  }

  lemma MembersStep(m: Entry, t: Str, rest: Str, acc: seq<Member>, finite: Str -> bool)
    requires GoodGaps(m.next) && Solid(t) && (!m.comma ==> t == [0x7D] + rest)
    requires var x := CommaText(m.comma, m.next, t);
             var u := MemberText(m, GapsText(m.after, x));
             && GoodKey(m.key) && Good(m.value, finite) && Solid(u) && u[0] != 0x7D
             && MemberAt(u, finite) == Some((Member(KeyMeaning(m.key), Meaning(m.value, finite)), x))
    ensures var u := MemberText(m, GapsText(m.after, CommaText(m.comma, m.next, t)));
            var all := Assign(acc, KeyMeaning(m.key), Meaning(m.value, finite));
            MembersAt(u, acc, finite) == if m.comma then MembersAt(t, all, finite) else Some((JObject(all), rest))
  {
    hide MemberAt, MemberText, Good, Meaning, GapsText, GoodGaps, Assign, GoodKey, KeyMeaning;
    if m.comma {
      Cons(0x2C, GapsText(m.next, t));
      GapsRead(m.next, t);
      SolidRead(t);
    } else {
      Cons(0x7D, rest);
    }
  }

  lemma CommaSolid(comma: bool, next: seq<Gap>, t: Str, rest: Str)
    requires Solid(t) && (!comma ==> t == [0x7D] + rest)
    ensures Solid(CommaText(comma, next, t)) && Stops(CommaText(comma, next, t))
  {
    Cons(0x7D, rest);
  }

  lemma NoMembers(rest: Str, acc: seq<Member>, finite: Str -> bool)
    ensures Solid([0x7D] + rest) && MembersAt([0x7D] + rest, acc, finite) == Some((JObject(acc), rest))
  {
    Cons(0x7D, rest);
  }

  lemma Assigned(acc: seq<Member>, key: Str, v: Json)
    ensures Assign(acc, key, v) == if key == [0x5F, 0x5F, 0x70, 0x72, 0x6F, 0x74, 0x6F, 0x5F, 0x5F] then acc else With(acc, key, v)
  {
    if key != [0x5F, 0x5F, 0x70, 0x72, 0x6F, 0x74, 0x6F, 0x5F, 0x5F] {
      WithIsAssign(acc, key, v);
    }
  }

  lemma {:induction false} MembersRead(members: seq<Entry>, rest: Str, acc: seq<Member>, finite: Str -> bool)
    requires GoodMembers(members, finite)
    ensures forall i :: 0 <= i < |members| ==> GoodKey(members[i].key) && Good(members[i].value, finite)
    ensures var t := MembersText(members, [0x7D] + rest);
            Solid(t) && MembersAt(t, acc, finite) == Some((JObject(MembersMeaning(members, acc, finite)), rest))
    decreases members, 0, 0
  {
    hide ValueAt, Good, Stops, Begins, TextOf, GoodGaps, KeyText, KeyMeaning, GoodKey, With, Assign, MembersAt, MemberAt, GapsText;
    AllGood(members, finite);
    if members == [] {
      NoMembers(rest, acc, finite);
    } else {
      var m, more := members[0], members[1..];
      MembersTail(members, finite);
      var t := MembersText(more, [0x7D] + rest);
      Assigned(acc, KeyMeaning(m.key), Meaning(m.value, finite));
      var all := Assign(acc, KeyMeaning(m.key), Meaning(m.value, finite));
      MembersRead(more, rest, all, finite);
      assert !m.comma ==> more == [];
      CommaSolid(m.comma, m.next, t, rest);
      var x := CommaText(m.comma, m.next, t);
      GapsStop(m.after, x);
      ValueRead(m.value, GapsText(m.after, x), finite);
      MemberRead(m, x, finite);
      MembersStep(m, t, rest, acc, finite);
    }
  }

  lemma AllGood(members: seq<Entry>, finite: Str -> bool)
    requires GoodMembers(members, finite)
    ensures forall i :: 0 <= i < |members| ==> GoodKey(members[i].key) && Good(members[i].value, finite)
  {
    hide GoodKey, Good;
    forall i | 0 <= i < |members|
      ensures GoodKey(members[i].key) && Good(members[i].value, finite)
    {
      assert GoodMember(members[i], finite);
    }
  }

  /** Every spelling of a value, with gaps around it, is parsed to its meaning. */
  lemma SpellingParsed(before: seq<Gap>, v: Spelled, after: seq<Gap>, e: Ending, finite: Str -> bool)
    requires GoodGaps(before) && Good(v, finite) && GoodGaps(after) && GoodEnding(e)
    ensures ParseText(WholeText(before, v, after, e), finite) == Some(Meaning(v, finite))
  {
    hide TextOf, Good, Meaning, GoodGaps, ValueAt, GapsText, White, EndingText;
    var end := GapsText(after, EndingText(e));
    EndingStops(e);
    GapsStop(after, EndingText(e));
    ValueRead(v, end, finite);
    FirstBlank(before, TextOf(v, end), finite);
    GapsRead(after, EndingText(e));
    EndingRead(e);
  }

  lemma EndingStops(e: Ending)
    ensures Stops(EndingText(e))
  {
    if e.Remark? {
      Cons(0x2F, [0x2F] + e.text);
    }
  }

  lemma FirstBlank(before: seq<Gap>, t: Str, finite: Str -> bool)
    requires GoodGaps(before) && Begins(t)
    ensures ValueAt([0x20] + GapsText(before, t), finite) == ValueAt(t, finite)
  {
    hide GoodGaps, ValueAt;
    var gs := [Blank(0x20)] + before;
    assert gs[1..] == before;
    assert GapsText(gs, t) == [0x20] + GapsText(before, t);
    GapsCons(before);
    BeforeValue(gs, t, finite);
  }

  lemma GapsCons(gs: seq<Gap>)
    requires GoodGaps(gs)
    ensures GoodGaps([Blank(0x20)] + gs)
  {
  }
}
