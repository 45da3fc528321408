/** Nothing but the spellings of values is parsed. */
module Json5Complete {
  import opened CodeUnits
  import opened Options
  import opened Json5
  import opened Json5Spelling
  import opened Json5Reading

  lemma Uncons(t: Str)
    requires t != []
    ensures t == [t[0]] + t[1..]
  {
  }

  // ------------------------------------------------------- whitespace and comments

  lemma {:induction false} InlineSpelled(t: Str) returns (text: Str, closed: bool, end: Unit)
    requires t != []
    ensures 0x0A !in text && 0x0D !in text
    ensures closed ==> (end == 0x0A || end == 0x0D) && t == [t[0]] + (text + ([end] + InlineComment(t)))
    ensures !closed ==> t == [t[0]] + text && InlineComment(t) == []
    decreases |t|
  {
    hide InlineComment;
    InlineUnfold(t);
    var t1 := t[1..];
    text, closed, end := [], false, 0x0A;
    Uncons(t);
    if t1 == [] {
    } else {
      Uncons(t1);
      if t1[0] == 0x0A || t1[0] == 0x0D {
        closed, end := true, t1[0];
        assert [] + t1 == t1;
      } else {
        var x, c, n := InlineSpelled(t1);
        text, closed, end := [t1[0]] + x, c, n;
        Shifted([t1[0]], x, [end] + InlineComment(t1));
      }
    }
  }

  lemma InlineUnfold(t: Str)
    requires t != []
    ensures t[1..] == [] ==> InlineComment(t) == []
    ensures t[1..] != [] && (t[1] == 0x0A || t[1] == 0x0D) ==> InlineComment(t) == t[1..][1..]
    ensures t[1..] != [] && t[1] != 0x0A && t[1] != 0x0D ==> InlineComment(t) == InlineComment(t[1..])
  {
  }

  lemma {:induction false} StarsSpelled(t: Str) returns (text: Str)
    requires CommentStars(t).Some?
    ensures GoodGap(BlockComment(text)) && t == text + ([0x2A] + ([0x2F] + CommentStars(t).value))
    ensures text != [] ==> t != [] && text[0] == t[0]
    decreases |t|
  {
    Uncons(t);
    if t[0] == 0x2A && At(t[1..], 0x2F) {
      text := [];
      StarSlash(t);
    } else {
      var x := StarsSpelled(t[1..]);
      text := [t[0]] + x;
      assert CommentStars(t) == CommentStars(t[1..]);
      assert text + ([0x2A] + ([0x2F] + CommentStars(t).value)) == [t[0]] + (x + ([0x2A] + ([0x2F] + CommentStars(t).value)));
      GoodBlock(t[0], x);
    }
  }

  lemma StarSlash(t: Str)
    requires |t| >= 2 && t[0] == 0x2A && t[1] == 0x2F
    ensures t == [] + ([0x2A] + ([0x2F] + t[2..]))
  {
  }

  lemma GoodBlock(c: Unit, x: Str)
    requires GoodGap(BlockComment(x)) && !(c == 0x2A && At(x, 0x2F))
    ensures GoodGap(BlockComment([c] + x))
  {
    var text := [c] + x;
    forall i | 0 <= i < |text| - 1
      ensures !(text[i] == 0x2A && text[i + 1] == 0x2F)
    {
      assert i > 0 ==> text[i] == x[i - 1] && text[i + 1] == x[i];
    }
  }

  /** What a scan for whitespace skips is gaps; a line comment without a line break can only be the last thing. */
  lemma {:induction false} WhiteSpelled(t: Str) returns (gs: seq<Gap>, e: Ending)
    requires White(t).Some?
    ensures GoodGaps(gs) && GoodEnding(e)
    ensures White(t).value == [] || (Solid(White(t).value) && e.Nothing?)
    ensures t == GapsText(gs, White(t).value + EndingText(e))
    decreases |t|
  {
    gs, e := [], Nothing;
    if t == [] {
    } else if t[0] == 0x2F {
      var g, rest;
      g, rest, e := CommentSpelled(t);
      if e.Nothing? {
        var more, f := WhiteSpelled(rest);
        gs, e := [g] + more, f;
        assert gs[1..] == more;
        GoodCons(g, more);
      } else {
        assert [] + EndingText(e) == EndingText(e);
      }
    } else if IsBlank(t[0]) {
      Uncons(t);
      var more, f := WhiteSpelled(t[1..]);
      gs, e := [Blank(t[0])] + more, f;
      assert gs[1..] == more;
      GoodCons(Blank(t[0]), more);
    } else {
      assert t + [] == t;
    }
  }

  lemma GoodCons(g: Gap, gs: seq<Gap>)
    requires GoodGap(g) && GoodGaps(gs)
    ensures GoodGaps([g] + gs)
  {
  }

  lemma CommentSpelled(t: Str) returns (g: Gap, rest: Str, e: Ending)
    requires t != [] && t[0] == 0x2F && White(t).Some?
    ensures e.Nothing? ==> GoodGap(g) && t == GapText(g, rest) && |rest| < |t| && White(rest) == White(t)
    ensures e.Remark? ==> GoodEnding(e) && t == EndingText(e) && White(t) == Some([])
  {
    Uncons(t);
    var t1 := t[1..];
    g, rest, e := Blank(0x20), [], Nothing;
    Uncons(t1);
    if t1[0] == 0x2F {
      var text, closed, end := InlineSpelled(t1);
      if closed {
        g, rest := LineComment(text, end), InlineComment(t1);
      } else {
        e := Remark(text);
      }
    } else {
      var text := StarsSpelled(t1[1..]);
      g, rest := BlockComment(text), CommentStars(t1[1..]).value;
    }
  }

  // -------------------------------------------------------------------- strings

  /** The digits of an escape, from the one after the current character on. */
  lemma {:induction false} HexSpelled(t: Str, count: nat, a: nat) returns (ds: Str, u: Str)
    requires t != [] && count <= 4
    ensures count + |ds| <= 4 && forall i :: 0 <= i < |ds| ==> IsHex(ds[i])
    ensures t == [t[0]] + (ds + u)
    ensures count + |ds| < 4 ==> HexEscape(t, count, a).1 == u && (u == [] || !IsHex(u[0]))
    ensures count + |ds| == 4 ==> HexEscape(t, count, a).1 == [if ds == [] then t[0] else ds[|ds| - 1]] + u
    decreases 4 - count
  {
    hide HexEscape, IsHex, HexValue, IsHexDigit;
    HexUnfold(t, count, a);
    ds, u := [], t[1..];
    Uncons(t);
    assert [] + u == u;
    if count < 4 && u != [] && IsHex(u[0]) {
      HexSame(u[0]);
      var ds', u' := HexSpelled(u, count + 1, 16 * a + HexValue(u[0]));
      ds := [u[0]] + ds';
      Uncons(u);
      Shifted([u[0]], ds', u');
      u := u';
      assert ds' != [] ==> ds[|ds| - 1] == ds'[|ds'| - 1];
    }
  }

  lemma HexUnfold(t: Str, count: nat, a: nat)
    requires t != [] && count <= 4
    ensures count == 4 ==> HexEscape(t, count, a).1 == t
    ensures count < 4 && t[1..] != [] && IsHex(t[1]) ==>
              IsHexDigit(t[1]) && HexEscape(t, count, a) == HexEscape(t[1..], count + 1, 16 * a + HexValue(t[1]))
    ensures count < 4 && (t[1..] == [] || !IsHex(t[1])) ==> HexEscape(t, count, a).1 == t[1..]
  {
    if |t| > 1 {
      HexSame(t[1]);
    }
  }

  /** One escape. */
  lemma EscapeSpelled(t: Str, quote: Unit) returns (p: Piece, rest: Str)
    requires t != [] && t[0] == 0x5C && StringChars(t, quote).Some? && (quote == 0x22 || quote == 0x27)
    ensures GoodPiece(p, quote) && t == PieceText(p, rest) && |rest| < |t| && StringChars(rest, quote).Some?
  {
    Uncons(t);
    var t2 := t[1..];
    if At(t2, 0x75) {
      p, rest := UnicodeSpelled(t2, quote);
    } else if At(t2, 0x0D) {
      Uncons(t2);
      if At(t2[1..], 0x0A) {
        Uncons(t2[1..]);
        p, rest := Continued([0x0D, 0x0A]), t2[2..];
        TwoUnits(t2);
      } else {
        p, rest := Continued([0x0D]), t2[1..];
      }
    } else {
      Uncons(t2);
      rest := t2[1..];
      p := if t2[0] == 0x0A then Continued([0x0A]) else Short(t2[0]);
      assert t2[0] != 0x0A ==> Escapee(t2[0]).Some? && ShortMeaning(t2[0]).Some?;
    }
  }

  lemma TwoUnits(t: Str)
    requires |t| >= 2
    ensures t == [t[0], t[1]] + t[2..] && t[1..][1..] == t[2..]
  {
  }

  lemma UnicodeSpelled(t2: Str, quote: Unit) returns (p: Piece, rest: Str)
    requires At(t2, 0x75) && StringChars([0x5C] + t2, quote).Some? && (quote == 0x22 || quote == 0x27)
    ensures GoodPiece(p, quote) && [0x5C] + t2 == PieceText(p, rest) && |rest| < |t2| + 1 && StringChars(rest, quote).Some?
  {
    hide HexEscape;
    Cons(0x5C, t2);
    var ds, u := HexSpelled(t2, 0, 0);
    if |ds| == 4 {
      p, rest := Hex(ds[0], ds[1], ds[2], ds[3]), u;
      FourUnits(ds, u);
      Cons(ds[3], u);
    } else {
      assert u != [];
      Uncons(u);
      p, rest := Partial(ds, u[0]), u[1..];
    }
  }

  lemma FourUnits(ds: Str, u: Str)
    requires |ds| == 4
    ensures ds + u == [ds[0]] + ([ds[1]] + ([ds[2]] + ([ds[3]] + u)))
  {
  }

  lemma {:induction false} StringSpelled(t: Str, quote: Unit) returns (ps: seq<Piece>)
    requires StringChars(t, quote).Some? && (quote == 0x22 || quote == 0x27)
    ensures GoodPieces(ps, quote) && t == PiecesText(ps, [quote] + StringChars(t, quote).value.1)
    decreases |t|
  {
    hide HexEscape, GoodPiece, PieceText;
    Uncons(t);
    ps := [];
    if t[0] == quote {
    } else {
      var p, rest;
      if t[0] == 0x5C {
        p, rest := EscapeSpelled(t, quote);
      } else {
        p, rest := Char(t[0]), t[1..];
        CharSpelled(t, quote);
      }
      var more := StringSpelled(rest, quote);
      SameRest(p, rest, quote, more);
      ps := [p] + more;
      assert ps[1..] == more;
    }
  }

  lemma CharSpelled(t: Str, quote: Unit)
    requires t != [] && t[0] != quote && t[0] != 0x5C && StringChars(t, quote).Some? && (quote == 0x22 || quote == 0x27)
    ensures GoodPiece(Char(t[0]), quote) && t == PieceText(Char(t[0]), t[1..]) && StringChars(t[1..], quote).Some?
  {
    Uncons(t);
  }

  /** What follows the closing quote is the same from either end. */
  lemma SameRest(p: Piece, rest: Str, quote: Unit, more: seq<Piece>)
    requires GoodPiece(p, quote) && (quote == 0x22 || quote == 0x27) && StringChars(rest, quote).Some?
    requires GoodPieces(more, quote) && rest == PiecesText(more, [quote] + StringChars(rest, quote).value.1)
    ensures GoodPieces([p] + more, quote)
    ensures StringChars(PieceText(p, rest), quote).Some?
    ensures StringChars(PieceText(p, rest), quote).value.1 == StringChars(rest, quote).value.1
  {
    hide StringChars, PieceText, GoodPiece;
    PiecesHead(more, quote, [quote] + StringChars(rest, quote).value.1);
    PieceRead(p, quote, rest);
  }

  lemma TokenSpelled(t: Str) returns (quote: Unit, ps: seq<Piece>)
    requires StringToken(t).Some?
    ensures GoodPieces(ps, quote) && t == StringText(quote, ps, StringToken(t).value.1)
  {
    hide StringChars;
    Uncons(t);
    quote := t[0];
    ps := StringSpelled(t[1..], quote);
  }

  // -------------------------------------------------------------------- numbers

  lemma DigitsSpelled(t: Str)
    ensures AllNumerals(t[..Digits(t)]) && t == t[..Digits(t)] + t[Digits(t)..]
  {
    hide Digits;
    forall i | 0 <= i < Digits(t)
      ensures 0x30 <= t[i] <= 0x39
    {
      assert IsDigit(t[i]);
    }
  }

  lemma {:induction false} HexDigitsSpelled(t: Str)
    ensures forall i :: 0 <= i < HexDigits(t) ==> IsHex(t[i])
  {
    if t == [] || !IsHexDigit(t[0]) {
    } else {
      HexSame(t[0]);
      HexDigitsSpelled(t[1..]);
      assert forall i :: 0 < i < HexDigits(t) ==> t[i] == t[1..][i - 1];
    }
  }

  lemma FractionSpelled(t: Str) returns (f: Option<Str>)
    ensures (f.Some? ==> AllNumerals(f.value)) && t == FractionText(f) + t[Fraction(t)..]
    ensures f.None? <==> Fraction(t) == 0
  {
    hide Digits;
    f := None;
    if At(t, 0x2E) {
      Uncons(t);
      DigitsSpelled(t[1..]);
      var n := Digits(t[1..]);
      f := Some(t[1..][..n]);
      assert t[1..][n..] == t[1 + n..];
      Shifted([0x2E], t[1..][..n], t[1 + n..]);
    } else {
      assert [] + t[0..] == t;
    }
  }

  lemma Shifted(a: Str, b: Str, c: Str)
    ensures a + (b + c) == a + b + c
  {
  }

  lemma ExponentSpelled(t: Str) returns (e: Option<Exponent>)
    ensures GoodExponent(e) && t == ExponentText(e) + t[Json5.Exponent(t)..]
    ensures e.None? <==> Json5.Exponent(t) == 0
  {
    hide Digits;
    e := None;
    if At(t, 0x65) || At(t, 0x45) {
      Uncons(t);
      if At(t[1..], 0x2D) || At(t[1..], 0x2B) {
        Uncons(t[1..]);
        DigitsSpelled(t[2..]);
        var n := Digits(t[2..]);
        e := Some(Exponent(t[0], [t[1]], t[2..][..n]));
        SignedParts(t, n);
      } else {
        DigitsSpelled(t[1..]);
        var n := Digits(t[1..]);
        e := Some(Exponent(t[0], [], t[1..][..n]));
        PlainParts(t, n);
      }
    } else {
      assert [] + t[0..] == t;
    }
  }

  lemma SignedParts(t: Str, n: nat)
    requires 2 + n <= |t|
    ensures t == [t[0]] + ([t[1]] + t[2..][..n]) + t[2 + n..]
  {
  }

  lemma PlainParts(t: Str, n: nat)
    requires 1 + n <= |t|
    ensures t == [t[0]] + ([] + t[1..][..n]) + t[1 + n..]
  {
  }

  lemma PlainSpelled(t: Str) returns (whole: Str, f: Option<Str>, e: Option<Exponent>)
    ensures AllNumerals(whole) && (f.Some? ==> AllNumerals(f.value)) && GoodExponent(e)
    ensures var body := whole + (FractionText(f) + ExponentText(e));
            |body| == PlainLength(t) && t == body + t[PlainLength(t)..]
    ensures |whole| == Digits(t) && (whole != [] ==> whole[0] == t[0]) && (f.Some? <==> At(t[|whole|..], 0x2E))
  {
    hide Fraction, Json5.Exponent, ExponentText, FractionText, AllNumerals, GoodExponent, Digits, PlainLength, At;
    DigitsSpelled(t);
    whole := t[..Digits(t)];
    var t1 := t[Digits(t)..];
    f := FractionSpelled(t1);
    var t2 := t1[Fraction(t1)..];
    PlainParted(t, Digits(t), t1, Fraction(t1), t2);
    FractionMarked(t1);
    e := ExponentSpelled(t2);
    var t3 := t2[Json5.Exponent(t2)..];
    ThreeParts(t, |whole|, Fraction(t1), Json5.Exponent(t2));
    Lengths(whole, FractionText(f), ExponentText(e), t1, t2, t3);
  }

  lemma PlainParted(t: Str, a: nat, u: Str, b: nat, v: Str)
    requires a == Digits(t) && u == t[a..] && b == Fraction(u) && v == u[b..]
    ensures PlainLength(t) == a + b + Json5.Exponent(v)
  {
    hide Fraction, Json5.Exponent, Digits;
    assert v == t[a + b..];
  }

  lemma ThreeParts(t: Str, a: nat, b: nat, c: nat)
    requires a + b + c <= |t|
    ensures t[a..][b..] == t[a + b..] && t[a..][b..][c..] == t[a + b + c..] && t == t[..a] + t[a..]
  {
  }

  lemma Lengths(a: Str, b: Str, c: Str, t1: Str, t2: Str, t3: Str)
    requires t1 == b + t2 && t2 == c + t3
    ensures a + t1 == (a + (b + c)) + t3
    ensures |b| == |t1| - |t2| && |c| == |t2| - |t3|
  {
  }

  lemma FractionMarked(t: Str)
    ensures Fraction(t) == 0 <==> !At(t, 0x2E)
  {
  }

  /** A numeral without its sign. */
  lemma BodySpelled(t: Str, sign: Str, finite: Str -> bool) returns (n: Numeral)
    requires IsSign(sign) && NumeralLength(t).Some? && NumeralValue(sign, t[..NumeralLength(t).value], finite).Some?
    requires sign == [] ==> t != [] && (t[0] == 0x2E || IsDigit(t[0]))
    ensures GoodNumeral(n, finite) && n.sign == sign && t == Body(n) + t[NumeralLength(t).value..]
  {
    if IsHexNumeral(t) {
      n := HexadecimalSpelled(t, sign, finite);
    } else {
      n := DecimalSpelled(t, sign, finite);
    }
  }

  lemma HexadecimalSpelled(t: Str, sign: Str, finite: Str -> bool) returns (n: Numeral)
    requires IsSign(sign) && IsHexNumeral(t) && NumeralValue(sign, t[..2 + HexDigits(t[2..])], finite).Some?
    ensures GoodNumeral(n, finite) && n.sign == sign && t == Body(n) + t[2 + HexDigits(t[2..])..]
  {
    var k := HexDigits(t[2..]);
    HexDigitsSpelled(t[2..]);
    n := Hexadecimal(sign, t[1], t[2..][..k]);
    assert t == [t[0], t[1]] + t[2..][..k] + t[2 + k..];
    assert Body(n) == t[..2 + k];
    assert !IsDigit(Body(n)[1]);
    assert !AllDigits(Body(n));
  }

  lemma DecimalSpelled(t: Str, sign: Str, finite: Str -> bool) returns (n: Numeral)
    requires IsSign(sign) && !IsHexNumeral(t) && !IsOctal(t) && NumeralValue(sign, t[..PlainLength(t)], finite).Some?
    requires sign == [] ==> t != [] && (t[0] == 0x2E || IsDigit(t[0]))
    ensures GoodNumeral(n, finite) && n.sign == sign && t == Body(n) + t[PlainLength(t)..]
  {
    hide PlainLength;
    var whole, f, e := PlainSpelled(t);
    n := Decimal(sign, whole, f, e);
    assert Body(n) == t[..PlainLength(t)];
    NotOctal(t, whole);
    if f.Some? || e.Some? {
      NotAllDigits(n);
    }
    if sign == [] {
      StartsNumber(t, whole);
    }
  }

  lemma NotOctal(t: Str, whole: Str)
    requires !IsOctal(t) && |whole| == Digits(t) && AllNumerals(whole) && (whole != [] ==> whole[0] == t[0])
    ensures |whole| > 1 ==> whole[0] != 0x30
  {
    assert |whole| > 1 ==> Digits(t[1..]) > 0;
  }

  lemma StartsNumber(t: Str, whole: Str)
    requires |whole| == Digits(t) && t != [] && (t[0] == 0x2E || IsDigit(t[0]))
    ensures whole != [] || At(t[|whole|..], 0x2E)
  {
  }

  lemma {:induction false} WordSpelled(t: Str, w: Str)
    requires ExpectAll(t, w).Some?
    ensures t == w + ExpectAll(t, w).value
  {
    if w == [] {
      assert [] + t == t;
    } else {
      Uncons(t);
      WordSpelled(t[1..], w[1..]);
      assert w == [w[0]] + w[1..];
      Shifted([w[0]], w[1..], ExpectAll(t, w).value);
    }
  }

  lemma NumberSpelled(t: Str, finite: Str -> bool) returns (n: Numeral)
    requires t != [] && (t[0] == MINUS || t[0] == PLUS || t[0] == DOT || IsDigit(t[0])) && NumberToken(t, finite).Some?
    ensures GoodNumeral(n, finite) && t == n.sign + (Body(n) + NumberToken(t, finite).value.1)
  {
    hide NumeralLength, NumeralValue, ExpectAll, GoodNumeral, Body;
    var signed := t[0] == MINUS || t[0] == PLUS;
    var sign := if signed then [t[0]] else [];
    var t1 := if signed then t[1..] else t;
    assert t == sign + t1;
    if At(t1, 0x49) {
      WordSpelled(t1, INFINITY);
      n := Infinite(sign);
      NumberWords(sign, finite);
    } else if At(t1, 0x4E) {
      WordSpelled(t1, NAN);
      n := NotANumber(sign);
      NumberWords(sign, finite);
    } else {
      n := BodySpelled(t1, sign, finite);
    }
  }

  lemma NumberWords(sign: Str, finite: Str -> bool)
    requires IsSign(sign)
    ensures GoodNumeral(Infinite(sign), finite) && Body(Infinite(sign)) == INFINITY
    ensures GoodNumeral(NotANumber(sign), finite) && Body(NotANumber(sign)) == NAN
  {
  }

  /** The words, also those that are numbers. */
  lemma LiteralSpelled(t: Str, finite: Str -> bool) returns (v: Spelled)
    requires Word(t).Some?
    ensures Good(v, finite) && t == TextOf(v, Word(t).value.1)
  {
    hide ExpectAll;
    var rest := Word(t).value.1;
    if At(t, 0x74) {
      WordSpelled(t, TRUE);
      v := Spelled.True;
    } else if At(t, 0x66) {
      WordSpelled(t, FALSE);
      v := False;
    } else if At(t, 0x6E) {
      WordSpelled(t, NULL);
      v := Null;
    } else if At(t, 0x49) {
      WordSpelled(t, INFINITY);
      v := Number(Infinite([]));
      assert [] + (INFINITY + rest) == INFINITY + rest;
    } else {
      WordSpelled(t, NAN);
      v := Number(NotANumber([]));
      assert [] + (NAN + rest) == NAN + rest;
    }
  }

  lemma {:induction false} TailSpelled(t: Str)
    ensures forall i :: 0 <= i < WordTail(t) ==> IsWordCharacter(t[i])
  {
    if t == [] || !IsWordChar(t[0]) {
    } else {
      TailSpelled(t[1..]);
      assert forall i :: 0 < i < WordTail(t) ==> t[i] == t[1..][i - 1];
    }
  }

  lemma KeySpelled(t: Str) returns (k: Key)
    requires KeyAt(t).Some?
    ensures GoodKey(k) && t == KeyText(k, KeyAt(t).value.1)
  {
    hide StringToken, WordTail;
    if At(t, QUOTE) || At(t, APOSTROPHE) {
      var quote, ps := TokenSpelled(t);
      k := Quoted(quote, ps);
    } else {
      TailSpelled(t[1..]);
      var n := 1 + WordTail(t[1..]);
      k := Bare(t[..n]);
      assert forall i :: 0 < i < n ==> t[i] == t[1..][i - 1];
      assert t == t[..n] + t[n..];
    }
  }

  // --------------------------------------------------------------------- values

  /** The gaps between two tokens; nothing can be hidden in a comment without an end. */
  lemma BetweenSpelled(t: Str) returns (gs: seq<Gap>)
    requires White(t).Some? && White(t).value != []
    ensures GoodGaps(gs) && t == GapsText(gs, White(t).value) && Solid(White(t).value)
  {
    var e;
    gs, e := WhiteSpelled(t);
    assert White(t).value + [] == White(t).value;
  }

  /** A value and the gaps before it. */
  lemma {:induction false} ValueSpelled(t: Str, finite: Str -> bool) returns (gs: seq<Gap>, v: Spelled)
    requires ValueAt(t, finite).Some?
    ensures GoodGaps(gs) && Good(v, finite) && t == GapsText(gs, TextOf(v, ValueAt(t, finite).value.1))
    ensures Solid(t) ==> gs == []
    decreases |t|, 2
  {
    hide Good, GoodGaps, GapsText, White;
    ValueNotEmpty(t, finite);
    var t1 := White(t).value;
    gs := BetweenSpelled(t);
    if Solid(t) {
      SolidRead(t);
      gs := [];
      NoGaps(t);
    }
    SolidRead(t1);
    ValueSame(t, t1, finite);
    v := StartSpelled(t1, finite);
  }

  lemma NoGaps(t: Str)
    ensures GoodGaps([]) && GapsText([], t) == t
  {
  }

  lemma ValueNotEmpty(t: Str, finite: Str -> bool)
    requires ValueAt(t, finite).Some?
    ensures White(t).Some? && White(t).value != [] && |White(t).value| <= |t|
  {
    hide White, NumberToken, StringToken, MembersAt, ItemsAt;
  }

  lemma ValueSame(t: Str, t1: Str, finite: Str -> bool)
    requires White(t) == Some(t1) && White(t1) == Some(t1)
    ensures ValueAt(t, finite) == ValueAt(t1, finite)
  {
    hide White, NumberToken, StringToken, MembersAt, ItemsAt, Word;
  }

  /** A value that the text begins with. */
  lemma {:induction false} StartSpelled(t: Str, finite: Str -> bool) returns (v: Spelled)
    requires Solid(t) && ValueAt(t, finite).Some?
    ensures Good(v, finite) && t == TextOf(v, ValueAt(t, finite).value.1)
    decreases |t|, 1
  {
    hide White, NumberToken, StringToken, MembersAt, ItemsAt, Word, GoodNumeral, GoodPieces;
    SolidRead(t);
    Uncons(t);
    if At(t, 0x7B) {
      v := DictSpelled(t, finite);
    } else if At(t, 0x5B) {
      v := ListSpelled(t, finite);
    } else if At(t, QUOTE) || At(t, APOSTROPHE) {
      var quote, ps := TokenSpelled(t);
      v := Text(quote, ps);
    } else if t[0] == MINUS || t[0] == PLUS || t[0] == DOT || IsDigit(t[0]) {
      var n := NumberSpelled(t, finite);
      v := Number(n);
    } else {
      v := LiteralSpelled(t, finite);
    }
  }

  lemma {:induction false} ListSpelled(t: Str, finite: Str -> bool) returns (v: Spelled)
    requires Solid(t) && At(t, 0x5B) && ValueAt(t, finite).Some?
    ensures Good(v, finite) && t == TextOf(v, ValueAt(t, finite).value.1)
    decreases |t|, 0
  {
    hide White, NumberToken, StringToken, MembersAt, Word, GoodGaps, GapsText;
    SolidRead(t);
    Uncons(t);
    var gs := BetweenSpelled(t[1..]);
    var items := ItemsSpelled(White(t[1..]).value, [], finite);
    v := List(gs, items);
    GoodList(gs, items, finite);
  }

  lemma GoodList(gs: seq<Gap>, items: seq<Item>, finite: Str -> bool)
    requires GoodGaps(gs) && GoodItems(items, finite)
    ensures Good(List(gs, items), finite)
  {
    hide GoodGaps;
  }

  lemma {:induction false} DictSpelled(t: Str, finite: Str -> bool) returns (v: Spelled)
    requires Solid(t) && At(t, 0x7B) && ValueAt(t, finite).Some?
    ensures Good(v, finite) && t == TextOf(v, ValueAt(t, finite).value.1)
    decreases |t|, 0
  {
    hide White, NumberToken, StringToken, ItemsAt, Word, GoodGaps, GapsText;
    SolidRead(t);
    Uncons(t);
    var gs := BetweenSpelled(t[1..]);
    var members := MembersSpelled(White(t[1..]).value, [], finite);
    v := Dict(gs, members);
    GoodDict(gs, members, finite);
  }

  lemma GoodDict(gs: seq<Gap>, members: seq<Entry>, finite: Str -> bool)
    requires GoodGaps(gs) && GoodMembers(members, finite)
    ensures Good(Dict(gs, members), finite)
  {
    hide GoodGaps, GoodKey;
    assert forall i :: 0 <= i < |members| ==> GoodMember(members[i], finite);
  }

  /** The items of an array up to its end. */
  lemma {:induction false} ItemsSpelled(t: Str, acc: seq<Json>, finite: Str -> bool) returns (items: seq<Item>)
    requires Solid(t) && ItemsAt(t, acc, finite).Some?
    ensures GoodItems(items, finite) && t == ItemsText(items, [0x5D] + ItemsAt(t, acc, finite).value.1)
    decreases |t|, 3
  {
    hide White, ValueAt, GoodGaps, GapsText, Good, TextOf;
    Uncons(t);
    items := [];
    if t[0] == 0x5D {
    } else {
      var gs, v := ValueSpelled(t, finite);
      NoGaps(TextOf(v, ValueAt(t, finite).value.1));
      var r1 := ValueAt(t, finite).value.1;
      var all := acc + [ValueAt(t, finite).value.0];
      var after := BetweenSpelled(r1);
      var w1 := White(r1).value;
      Uncons(w1);
      if At(w1, 0x2C) {
        ItemsNotEmpty(White(w1[1..]), all, finite);
        var next := BetweenSpelled(w1[1..]);
        var more := ItemsSpelled(White(w1[1..]).value, all, finite);
        items := [Item(v, after, true, next)] + more;
        assert items[1..] == more;
        ConsItem(Item(v, after, true, next), more, finite);
      } else {
        NoGaps([]);
        items := [Item(v, after, false, [])];
        assert items[1..] == [];
        ConsItem(items[0], [], finite);
        assert [items[0]] + [] == items;
      }
    }
  }

  lemma ItemsNotEmpty(w: Option<Str>, acc: seq<Json>, finite: Str -> bool)
    requires w.Some? && ItemsAt(w.value, acc, finite).Some?
    ensures w.value != []
  {
  }

  lemma ConsItem(i: Item, more: seq<Item>, finite: Str -> bool)
    requires Good(i.value, finite) && GoodGaps(i.after) && GoodGaps(i.next) && GoodItems(more, finite) && (more != [] ==> i.comma)
    ensures GoodItems([i] + more, finite)
  {
    hide Good, GoodGaps;
    var items := [i] + more;
    assert forall k :: 0 < k < |items| ==> items[k] == more[k - 1];
  }

  /** One member and what follows it. */
  lemma {:induction false} MemberSpelled(t: Str, finite: Str -> bool) returns (m: Entry)
    requires Solid(t) && MemberAt(t, finite).Some? && MemberAt(t, finite).value.1 != []
    ensures m.next == [] && !m.comma && GoodMember(m, finite)
    ensures var x := MemberAt(t, finite).value.1;
            Solid(x) && t == MemberText(m, GapsText(m.after, x))
    decreases |t|, 0
  {
    hide White, ValueAt, GoodGaps, GapsText, Good, TextOf, KeyAt, GoodKey, KeyText;
    var k := KeySpelled(t);
    var r := KeyAt(t).value.1;
    var afterKey := BetweenSpelled(r);
    var c := White(r).value;
    Uncons(c);
    var before, v := ValueSpelled(c[1..], finite);
    var r1 := ValueAt(c[1..], finite).value.1;
    var after := BetweenSpelled(r1);
    NoGaps([]);
    m := Entry(k, afterKey, before, v, after, false, []);
  }

  /** The members of an object up to its end. */
  lemma {:induction false} MembersSpelled(t: Str, acc: seq<Member>, finite: Str -> bool) returns (members: seq<Entry>)
    requires Solid(t) && MembersAt(t, acc, finite).Some?
    ensures GoodMembers(members, finite) && t == MembersText(members, [0x7D] + MembersAt(t, acc, finite).value.1)
    decreases |t|, 1
  {
    hide White, ValueAt, GoodGaps, GapsText, Good, TextOf, MemberAt, GoodMember, KeyText, Assign;
    Uncons(t);
    members := [];
    if t[0] == 0x7D {
    } else {
      var m := MemberSpelled(t, finite);
      var x := MemberAt(t, finite).value.1;
      var all := Assign(acc, MemberAt(t, finite).value.0.key, MemberAt(t, finite).value.0.value);
      Uncons(x);
      if At(x, 0x2C) {
        MembersNotEmpty(White(x[1..]), all, finite);
        var next := BetweenSpelled(x[1..]);
        var more := MembersSpelled(White(x[1..]).value, all, finite);
        var e := m.(comma := true, next := next);
        members := [e] + more;
        assert members[1..] == more;
        ConsMember(m, e, more, finite);
      } else {
        members := [m];
        assert members[1..] == [];
        NoGaps([]);
        ConsMember(m, m, [], finite);
        assert [m] + [] == members;
      }
    }
  }

  lemma MembersNotEmpty(w: Option<Str>, acc: seq<Member>, finite: Str -> bool)
    requires w.Some? && MembersAt(w.value, acc, finite).Some?
    ensures w.value != []
  {
  }

  lemma ConsMember(m: Entry, e: Entry, more: seq<Entry>, finite: Str -> bool)
    requires GoodMember(m, finite) && e == m.(comma := e.comma, next := e.next) && GoodGaps(e.next)
    requires GoodMembers(more, finite) && (more != [] ==> e.comma)
    ensures GoodMembers([e] + more, finite)
  {
    hide Good, GoodGaps, GoodKey;
    var members := [e] + more;
    assert forall k :: 0 < k < |members| ==> members[k] == more[k - 1];
    assert GoodMember(e, finite);
  }

  // ---------------------------------------------------------------- the whole text

  /** The text is a spelling of a value with gaps around it. */
  predicate IsSpelling(s: Str, finite: Str -> bool, before: seq<Gap>, v: Spelled, after: seq<Gap>, e: Ending) {
    GoodGaps(before) && Good(v, finite) && GoodGaps(after) && GoodEnding(e) && s == WholeText(before, v, after, e)
  }

  /**
   The texts that are parsed are the spellings of values, and nothing else; each is parsed to
   what it means.
   */
  lemma ParsedIffSpelled(s: Str, finite: Str -> bool)
    ensures ParseText(s, finite).Some? <==> exists before, v, after, e :: IsSpelling(s, finite, before, v, after, e)
    ensures forall before, v, after, e :: IsSpelling(s, finite, before, v, after, e) ==>
              ParseText(s, finite) == Some(Meaning(v, finite))
  {
    hide ParseText, Good, Meaning, WholeText, GoodGaps, GoodEnding;
    forall before, v, after, e | IsSpelling(s, finite, before, v, after, e)
      ensures ParseText(s, finite) == Some(Meaning(v, finite))
    {
      SpellingParsed(before, v, after, e, finite);
    }
    if ParseText(s, finite).Some? {
      var before, v, after, e := WholeSpelled(s, finite);
      assert IsSpelling(s, finite, before, v, after, e);
    }
  }

  lemma WholeSpelled(s: Str, finite: Str -> bool) returns (before: seq<Gap>, v: Spelled, after: seq<Gap>, e: Ending)
    requires ParseText(s, finite).Some?
    ensures IsSpelling(s, finite, before, v, after, e)
  {
    hide White, ValueAt, GoodGaps, GapsText, Good, TextOf, EndingText, GoodEnding;
    var t := [0x20] + s;
    var gs;
    gs, v := ValueSpelled(t, finite);
    var rest := ValueAt(t, finite).value.1;
    after, e := WhiteSpelled(rest);
    assert [] + EndingText(e) == EndingText(e);
    EndingStops(e);
    GapsStop(after, EndingText(e));
    ValueRead(v, rest, finite);
    before := BlankFirst(gs, TextOf(v, rest), s);
  }

  lemma BlankFirst(gs: seq<Gap>, t: Str, s: Str) returns (before: seq<Gap>)
    requires GoodGaps(gs) && [0x20] + s == GapsText(gs, t) && Begins(t)
    ensures GoodGaps(before) && s == GapsText(before, t)
  {
    Cons(0x20, s);
    assert gs != [];
    assert GoodGap(gs[0]);
    assert GapText(gs[0], GapsText(gs[1..], t))[0] == 0x20;
    before := gs[1..];
    assert gs[0].Blank?;
    Cons(gs[0].c, GapsText(gs[1..], t));
  }
}
