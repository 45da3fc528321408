/**
 The parser: a cursor over the text, moved in place.  Each method is the procedure of
 the same job in the source and is proved to compute what the grammar of `Json5` says
 about the input still to be read.
 */
module Json5Parser {
  import opened CodeUnits
  import opened Json5
  import opened Options

  class Parser {
    /** The text behind one blank, where the scan starts. */
    const data: Str
    /** The host's `isFinite(Number(text))` on numerals it converts. */
    const finite: Str -> bool
    /** The index of the current character, and that character; none at the end. */
    var at: nat
    var r: Str

    ghost predicate Valid()
      reads this
    {
      at <= |data| && r == if at < |data| then [data[at]] else []
    }

    ghost function Rest(): Str
      requires Valid()
      reads this
    {
      data[at..]
    }

    constructor (text: Str, finite: Str -> bool)
      ensures Valid() && Rest() == [0x20] + text && this.finite == finite
    {
      data := [0x20] + text;
      this.finite := finite;
      at := 0;
      r := [0x20];
    }

    lemma Look()
      requires Valid()
      ensures r == Head(Rest()) && |Rest()| == |data| - at
    {
    }

    /** `u()` */
    method Advance()
      requires Valid()
      modifies this
      ensures Valid() && Rest() == Next(old(Rest()))
      ensures at == old(at) + if old(Rest()) != [] then 1 else 0
    {
      if at < |data| {
        at := at + 1;
      }
      r := if at < |data| then [data[at]] else [];
    }

    /** `u(c)`: the current character must be `c`. */
    method Skip(c: Unit) returns (ok: bool)
      requires Valid()
      modifies this
      ensures Valid() && ok == Expect(old(Rest()), c).Some?
      ensures ok ==> Rest() == Expect(old(Rest()), c).value && at > old(at)
      ensures !ok ==> at == old(at)
    {
      ok := r == [c];
      if ok {
        Advance();
      }
    }

    function Peek(): Str
      requires Valid()
      reads this
      ensures Peek() == if |Rest()| > 1 then [Rest()[1]] else []
    {
      if at + 1 < |data| then [data[at + 1]] else []
    }

    // ------------------------------------------------- whitespace and comments

    method ReadInlineComment()
      requires Valid() && Rest() != []
      modifies this
      ensures Valid() && Rest() == InlineComment(old(Rest())) && at > old(at)
    {
      while true
        invariant Valid() && Rest() != [] && at >= old(at)
        invariant InlineComment(Rest()) == InlineComment(old(Rest()))
        decreases |data| - at
      {
        Advance();
        if r == [LF] || r == [CR] {
          Advance();
          return;
        }
        if r == [] {
          return;
        }
      }
    }

    method ReadBlockComment() returns (ok: bool)
      requires Valid() && Rest() != []
      modifies this
      ensures Valid() && ok == BlockComment(old(Rest())).Some?
      ensures ok ==> Rest() == BlockComment(old(Rest())).value && at > old(at)
    {
      while true
        invariant Valid() && Rest() != [] && at >= old(at)
        invariant BlockComment(Rest()) == BlockComment(old(Rest()))
        decreases |data| - at
      {
        Advance();
        while r == [STAR]
          invariant Valid() && at > old(at)
          invariant CommentStars(Rest()) == BlockComment(old(Rest()))
          decreases |data| - at
        {
          Advance();
          if r == [SLASH] {
            Advance();
            return true;
          }
        }
        if r == [] {
          return false;
        }
      }
    }

    method ReadComment() returns (ok: bool)
      requires Valid() && At(Rest(), SLASH)
      modifies this
      ensures Valid() && ok == Comment(old(Rest())).Some?
      ensures ok ==> Rest() == Comment(old(Rest())).value && at > old(at)
    {
      Advance();
      if r == [SLASH] {
        ReadInlineComment();
        ok := true;
      } else if r == [STAR] {
        ok := ReadBlockComment();
      } else {
        ok := false;
      }
    }

    method ReadWhite() returns (ok: bool)
      requires Valid()
      modifies this
      ensures Valid() && ok == White(old(Rest())).Some?
      ensures ok ==> Rest() == White(old(Rest())).value && at >= old(at)
    {
      while r != []
        invariant Valid() && at >= old(at)
        invariant White(Rest()) == White(old(Rest()))
        decreases |data| - at
      {
        if r == [SLASH] {
          var closed := ReadComment();
          if !closed {
            return false;
          }
        } else if IsWhite(r[0]) {
          Advance();
        } else {
          return true;
        }
      }
      ok := true;
    }

    // -------------------------------------------------------- strings and words

    /** The digits of a \u escape; the value as far as it was read. */
    method ReadHex() returns (a: Unit)
      requires Valid()
      modifies this
      ensures Valid() && (a, Rest()) == HexEscape(old(Rest()), 0, 0) && at >= old(at)
    {
      var value: nat := 0;
      var t := 0;
      HexEscapeBound(Rest(), 0, 0);
      while t < 4
        invariant 0 <= t <= 4 && Valid() && at >= old(at)
        invariant HexEscape(Rest(), t, value) == HexEscape(old(Rest()), 0, 0)
      {
        Advance();
        if r == [] || !IsHexDigit(r[0]) {
          break;
        }
        value := 16 * value + HexValue(r[0]);
        t := t + 1;
      }
      a := value;
    }

    method ReadString() returns (s: Option<Str>)
      requires Valid()
      modifies this
      ensures Valid() && s.Some? == StringToken(old(Rest())).Some?
      ensures s.Some? ==> StringToken(old(Rest())) == Some((s.value, Rest())) && at > old(at)
    {
      hide StringChars, HexEscape, Rest, Next, Escapee, Prepend;
      ghost var all := Rest();
      Look();
      if r != [QUOTE] && r != [APOSTROPHE] {
        return None;
      }
      var q, text: Str := r[0], [];
      Advance();
      Look();
      ghost var start := Rest();
      StringStart(all, start);
      PrependNothing(StringChars(start, q));
      while r != []
        invariant Valid() && at > old(at)
        invariant StringChars(start, q) == Prepend(text, StringChars(Rest(), q))
        decreases |data| - at
      {
        ghost var t := Rest();
        Look();
        assert t != [];
        if r == [q] {
          StringEnds(t, q);
          Advance();
          PrependEnd(text, Rest());
          return Some(text);
        }
        if r == [BACKSLASH] {
          Advance();
          Look();
          ghost var t2 := Rest();
          if r == [LOWER_U] {
            StringHex(t, q);
            var a := ReadHex();
            PrependTwice(text, [a], StringChars(Next(Rest()), q));
            text := text + [a];
          } else if r == [CR] {
            StringCr(t, q);
            PeekNext();
            if Peek() == [LF] {
              Advance();
            }
          } else {
            StringEscape(t, q);
            if r == [] || Escapee(r[0]).None? {
              PrependNone(text);
              return None;
            }
            PrependTwice(text, Escapee(r[0]).value, StringChars(Next(Rest()), q));
            text := text + Escapee(r[0]).value;
          }
        } else {
          StringPlain(t, q);
          if r == [LF] {
            PrependNone(text);
            return None;
          }
          PrependTwice(text, [r[0]], StringChars(Next(Rest()), q));
          text := text + r;
        }
        Advance();
      }
      Look();
      StringUnended(q);
      PrependNone(text);
      s := None;
    }

    lemma PeekNext()
      requires Valid()
      ensures Peek() == Head(Next(Rest()))
    {
    }

    method ReadIdentifier() returns (w: Option<Str>)
      requires Valid()
      modifies this
      ensures Valid() && w.Some? == Identifier(old(Rest())).Some?
      ensures w.Some? ==> Identifier(old(Rest())) == Some((w.value, Rest())) && at > old(at)
    {
      hide Rest, IsWordStart, IsWordChar;
      Look();
      if r == [] || !IsWordStart(r[0]) {
        return None;
      }
      ghost var t := Rest();
      var e := r;
      Advance();
      Look();
      while r != [] && IsWordChar(r[0])
        invariant Valid() && r == Head(Rest()) && at == old(at) + |e| && 1 <= |e| <= |t|
        invariant e == t[..|e|] && Rest() == t[|e|..]
        invariant |e| + WordTail(Rest()) == 1 + WordTail(t[1..])
        decreases |data| - at
      {
        e := e + r;
        Advance();
        Look();
      }
      w := Some(e);
    }

    method ReadLiteral(word: Str, v: Json) returns (j: Option<Json>)
      requires Valid() && word != []
      modifies this
      ensures Valid() && j.Some? == Literal(old(Rest()), word, v).Some?
      ensures j.Some? ==> Literal(old(Rest()), word, v) == Some((j.value, Rest())) && at > old(at)
    {
      var i := 0;
      while i < |word|
        invariant 0 <= i <= |word| && Valid() && at == old(at) + i
        invariant ExpectAll(Rest(), word[i..]) == ExpectAll(old(Rest()), word)
      {
        assert word[i..][0] == word[i] && word[i..][1..] == word[i + 1..];
        var ok := Skip(word[i]);
        if !ok {
          return None;
        }
        i := i + 1;
      }
      j := Some(v);
    }

    method ReadWord() returns (j: Option<Json>)
      requires Valid()
      modifies this
      ensures Valid() && j.Some? == Word(old(Rest())).Some?
      ensures j.Some? ==> Word(old(Rest())) == Some((j.value, Rest())) && at > old(at)
    {
      if r == [0x74] {
        j := ReadLiteral(TRUE, JBool(true));
      } else if r == [0x66] {
        j := ReadLiteral(FALSE, JBool(false));
      } else if r == [0x6E] {
        j := ReadLiteral(NULL, JNull);
      } else if r == [0x49] {
        j := ReadLiteral(INFINITY, JInfinity(false));
      } else if r == [0x4E] {
        j := ReadLiteral(NAN, JNaN);
      } else {
        j := None;
      }
    }

    // ------------------------------------------------------------------ numbers

    method ReadDigits() returns (n: Str)
      requires Valid()
      modifies this
      ensures Valid() && |n| == Digits(old(Rest())) && at == old(at) + |n|
      ensures n == old(Rest())[..|n|] && Rest() == old(Rest())[|n|..]
    {
      hide Rest, IsDigit;
      ghost var t := Rest();
      Look();
      n := [];
      while r != [] && IsDigit(r[0])
        invariant Valid() && r == Head(Rest()) && at == old(at) + |n| && |n| <= |t|
        invariant n == t[..|n|] && Rest() == t[|n|..]
        invariant |n| + Digits(Rest()) == Digits(t)
        decreases |data| - at
      {
        n := n + r;
        Advance();
        Look();
      }
    }

    method ReadHexDigits() returns (n: Str)
      requires Valid()
      modifies this
      ensures Valid() && |n| == HexDigits(old(Rest())) && at == old(at) + |n|
      ensures n == old(Rest())[..|n|] && Rest() == old(Rest())[|n|..]
    {
      ghost var t := Rest();
      n := [];
      while r != [] && IsHexDigit(r[0])
        invariant Valid() && at == old(at) + |n| && |n| <= |t|
        invariant n == t[..|n|] && Rest() == t[|n|..]
        invariant |n| + HexDigits(Rest()) == HexDigits(t)
        decreases |data| - at
      {
        n := n + r;
        Advance();
      }
    }

    /** The fraction part of a numeral, if there is one. */
    method ReadFraction() returns (n: Str)
      requires Valid()
      modifies this
      ensures Valid() && |n| == Fraction(old(Rest())) && at == old(at) + |n|
      ensures n == old(Rest())[..|n|] && Rest() == old(Rest())[|n|..]
    {
      hide Digits, Rest;
      ghost var t := Rest();
      Look();
      n := [];
      if r == [DOT] {
        n := r;
        Advance();
        Look();
        var digits := ReadDigits();
        ReadOn(t, 1, |digits|);
        n := n + digits;
      }
    }

    /** The exponent part of a numeral, if there is one. */
    method ReadExponent() returns (n: Str)
      requires Valid()
      modifies this
      ensures Valid() && |n| == Exponent(old(Rest())) && at == old(at) + |n|
      ensures n == old(Rest())[..|n|] && Rest() == old(Rest())[|n|..]
    {
      hide *;
      ghost var t := Rest();
      Look();
      ExponentIs(t);
      n := [];
      if r == [0x65] || r == [0x45] {
        n := r;
        Advance();
        AfterFirst(t);
        var sign := ReadSign();
        ReadOn(t, 1, |sign|);
        n := n + sign;
        var digits := ReadDigits();
        ReadOn(t, |n|, |digits|);
        n := n + digits;
      }
    }

    method ReadSign() returns (n: Str)
      requires Valid()
      modifies this
      ensures Valid() && |n| == (if At(old(Rest()), MINUS) || At(old(Rest()), PLUS) then 1 else 0) && at == old(at) + |n|
      ensures |n| <= |old(Rest())| && n == old(Rest())[..|n|] && Rest() == old(Rest())[|n|..]
    {
      hide Rest;
      ghost var t := Rest();
      Look();
      n := [];
      if r == [MINUS] || r == [PLUS] {
        n := n + r;
        Advance();
      }
    }

    method ReadPlainNumeral() returns (n: Str)
      requires Valid()
      modifies this
      ensures Valid() && |n| == PlainLength(old(Rest())) && at == old(at) + |n|
      ensures n == old(Rest())[..|n|] && Rest() == old(Rest())[|n|..]
    {
      hide Digits, Fraction, Exponent, Rest;
      ghost var t := Rest();
      var whole := ReadDigits();
      var point := ReadFraction();
      ReadOn(t, |whole|, |point|);
      var exponent := ReadExponent();
      ReadOn(t, |whole| + |point|, |exponent|);
      n := whole + point + exponent;
    }

    method ReadHexNumeral() returns (n: Str)
      requires Valid() && IsHexNumeral(Rest())
      modifies this
      ensures Valid() && |n| == 2 + HexDigits(old(Rest())[2..]) && at == old(at) + |n|
      ensures n == old(Rest())[..|n|] && Rest() == old(Rest())[|n|..]
    {
      hide HexDigits, Rest;
      ghost var t := Rest();
      Look();
      n := r;
      Advance();
      Look();
      n := n + r;
      Advance();
      TwoRead(t);
      var digits := ReadHexDigits();
      ReadOn(t, 2, |digits|);
      n := n + digits;
    }

    /** An unsigned numeral; `None` for a zero followed by a digit. */
    method ReadNumeral() returns (n: Option<Str>)
      requires Valid()
      modifies this
      ensures Valid() && n.Some? == NumeralLength(old(Rest())).Some?
      ensures n.Some? ==> |n.value| == NumeralLength(old(Rest())).value && at == old(at) + |n.value|
      ensures n.Some? ==> n.value == old(Rest())[..|n.value|] && Rest() == old(Rest())[|n.value|..]
    {
      hide HexDigits, PlainLength, Rest, Next, IsDigit;
      Look();
      PeekNext();
      if r == [ZERO] && (Peek() == [0x78] || Peek() == [0x58]) {
        var hex := ReadHexNumeral();
        return Some(hex);
      }
      if r == [ZERO] && Peek() != [] && IsDigit(Peek()[0]) {
        return None;
      }
      var plain := ReadPlainNumeral();
      n := Some(plain);
    }

    method ReadNumber() returns (j: Option<Json>)
      requires Valid() && r != [] && (r[0] == MINUS || r[0] == PLUS || r[0] == DOT || IsDigit(r[0]))
      modifies this
      ensures Valid() && j.Some? == NumberToken(old(Rest()), finite).Some?
      ensures j.Some? ==> NumberToken(old(Rest()), finite) == Some((j.value, Rest())) && at > old(at)
    {
      hide NumeralLength, NumeralValue, Literal, Rest;
      Look();
      var sign: Str := [];
      if r == [MINUS] || r == [PLUS] {
        sign := r;
        Advance();
      }
      Look();
      if r == [0x49] {
        j := ReadLiteral(INFINITY, JInfinity(sign == [MINUS]));
      } else if r == [0x4E] {
        j := ReadLiteral(NAN, JNaN);
      } else {
        var n := ReadNumeral();
        if n.None? {
          return None;
        }
        j := NumeralValue(sign, n.value, finite);
      }
    }

    // ------------------------------------------------------------------- values

    method ReadValue() returns (j: Option<Json>)
      requires Valid()
      modifies this
      ensures Valid() && j.Some? == ValueAt(old(Rest()), finite).Some?
      ensures j.Some? ==> ValueAt(old(Rest()), finite) == Some((j.value, Rest())) && at > old(at)
      decreases |data| - at, 2
    {
      hide White, StringToken, NumberToken, Word, MembersAt, ItemsAt;
      var ok := ReadWhite();
      if !ok {
        return None;
      }
      if r == [OPEN_BRACE] {
        j := ReadObject();
      } else if r == [OPEN_BRACKET] {
        j := ReadArray();
      } else if r == [QUOTE] || r == [APOSTROPHE] {
        var s := ReadString();
        j := if s.None? then None else Some(JString(s.value));
      } else if r != [] && (r[0] == MINUS || r[0] == PLUS || r[0] == DOT || IsDigit(r[0])) {
        j := ReadNumber();
      } else {
        j := ReadWord();
      }
    }

    method ReadKey() returns (k: Option<Str>)
      requires Valid()
      modifies this
      ensures Valid() && k.Some? == KeyAt(old(Rest())).Some?
      ensures k.Some? ==> KeyAt(old(Rest())) == Some((k.value, Rest())) && at > old(at)
    {
      hide StringToken, Identifier;
      if r == [QUOTE] || r == [APOSTROPHE] {
        k := ReadString();
      } else {
        k := ReadIdentifier();
      }
    }

    /** The part of the object procedure that reads one member and the whitespace behind it. */
    method ReadMember() returns (m: Option<Member>)
      requires Valid()
      modifies this
      ensures Valid() && m.Some? == MemberAt(old(Rest()), finite).Some?
      ensures m.Some? ==> MemberAt(old(Rest()), finite) == Some((m.value, Rest())) && at > old(at)
      decreases |data| - at, 0
    {
      hide White, KeyAt, ValueAt, Rest;
      var k := ReadKey();
      if k.None? {
        return None;
      }
      var ok := ReadWhite();
      if !ok {
        return None;
      }
      ok := Skip(COLON);
      if !ok {
        return None;
      }
      var v := ReadValue();
      if v.None? {
        return None;
      }
      ok := ReadWhite();
      if !ok {
        return None;
      }
      m := Some(Member(k.value, v.value));
    }

    method ReadObject() returns (j: Option<Json>)
      requires Valid() && At(Rest(), OPEN_BRACE)
      modifies this
      ensures Valid()
      ensures var w := White(old(Rest())[1..]);
              if w.None? then j.None?
              else
                && j.Some? == MembersAt(w.value, [], finite).Some?
                && (j.Some? ==> MembersAt(w.value, [], finite) == Some((j.value, Rest())) && at > old(at))
      decreases |data| - at, 1
    {
      hide White, MemberAt, Assign, Rest;
      Advance();
      var ok := ReadWhite();
      if !ok {
        return None;
      }
      ghost var start := Rest();
      var entries: seq<Member> := [];
      Look();
      while r != []
        invariant Valid() && at > old(at) && r == Head(Rest())
        invariant MembersAt(Rest(), entries, finite) == MembersAt(start, [], finite)
        decreases |data| - at
      {
        if r == [CLOSE_BRACE] {
          Advance();
          return Some(JObject(entries));
        }
        var m := ReadMember();
        if m.None? {
          return None;
        }
        Look();
        entries := Assign(entries, m.value.key, m.value.value);
        if r != [COMMA] {
          ok := Skip(CLOSE_BRACE);
          return if ok then Some(JObject(entries)) else None;
        }
        Advance();
        ok := ReadWhite();
        if !ok {
          return None;
        }
        Look();
      }
      j := None;
    }

    method ReadArray() returns (j: Option<Json>)
      requires Valid() && At(Rest(), OPEN_BRACKET)
      modifies this
      ensures Valid()
      ensures var w := White(old(Rest())[1..]);
              if w.None? then j.None?
              else
                && j.Some? == ItemsAt(w.value, [], finite).Some?
                && (j.Some? ==> ItemsAt(w.value, [], finite) == Some((j.value, Rest())) && at > old(at))
      decreases |data| - at, 1
    {
      hide White, ValueAt, Rest;
      Advance();
      var ok := ReadWhite();
      if !ok {
        return None;
      }
      ghost var start := Rest();
      var items: seq<Json> := [];
      Look();
      while r != []
        invariant Valid() && at > old(at) && r == Head(Rest())
        invariant ItemsAt(Rest(), items, finite) == ItemsAt(start, [], finite)
        decreases |data| - at
      {
        if r == [CLOSE_BRACKET] {
          Advance();
          return Some(JArray(items));
        }
        if r == [COMMA] {
          return None;
        }
        var v := ReadValue();
        if v.None? {
          return None;
        }
        items := items + [v.value];
        ok := ReadWhite();
        if !ok {
          return None;
        }
        Look();
        if r != [COMMA] {
          ok := Skip(CLOSE_BRACKET);
          return if ok then Some(JArray(items)) else None;
        }
        Advance();
        ok := ReadWhite();
        if !ok {
          return None;
        }
        Look();
      }
      j := None;
    }
  }

  /** `parse(text)` */
  method Parse(text: Str, finite: Str -> bool) returns (j: Option<Json>)
    ensures j == ParseText(text, finite)
  {
    hide White, ValueAt;
    var p := new Parser(text, finite);
    var v := p.ReadValue();
    if v.None? {
      return None;
    }
    var ok := p.ReadWhite();
    if !ok || p.r != [] {
      return None;
    }
    j := v;
  }

  function Head(t: Str): Str {
    if t == [] then [] else [t[0]]
  }

  lemma ExponentIs(t: Str)
    ensures Exponent(t) ==
            if Head(t) == [0x65] || Head(t) == [0x45]
            then var k := if At(t[1..], MINUS) || At(t[1..], PLUS) then 1 else 0; 1 + k + Digits(t[1 + k..])
            else 0
    ensures Head(t) != [] ==> t != []
    ensures t == t[0..] && t[..0] == []
  {
    hide Digits;
  }

  lemma AfterFirst(t: Str)
    requires t != []
    ensures Next(t) == t[1..] && t[..1] == Head(t)
  {
  }

  /** The two pieces of a text that was read in two steps. */
  lemma ReadOn(t: Str, a: nat, n: nat)
    requires a + n <= |t|
    ensures t[..a] + t[a..][..n] == t[..a + n] && t[a..][n..] == t[a + n..]
  {
  }

  lemma TwoRead(t: Str)
    requires |t| >= 2
    ensures Head(t) + Head(Next(t)) == t[..2] && Next(Next(t)) == t[2..]
  {
  }

  // ------------------------------------------- one character of a string literal

  lemma StringStart(all: Str, start: Str)
    requires (At(all, QUOTE) || At(all, APOSTROPHE)) && start == Next(all)
    ensures StringToken(all) == StringChars(start, all[0])
  {
  }

  lemma StringUnended(q: Unit)
    ensures StringChars([], q) == None
  {
  }

  lemma PrependNone(s: Str)
    ensures Prepend(s, None) == None
  {
  }

  lemma PrependEnd(s: Str, rest: Str)
    ensures Prepend(s, Some(([], rest))) == Some((s, rest))
  {
    assert s + [] == s;
  }

  lemma StringEnds(t: Str, q: Unit)
    requires At(t, q)
    ensures StringChars(t, q) == Some(([], Next(t)))
  {
  }

  lemma StringPlain(t: Str, q: Unit)
    requires t != [] && t[0] != q && t[0] != BACKSLASH
    ensures StringChars(t, q) == if t[0] == LF then None else Prepend([t[0]], StringChars(Next(t), q))
  {
  }

  lemma StringHex(t: Str, q: Unit)
    requires At(t, BACKSLASH) && q != BACKSLASH && At(Next(t), LOWER_U)
    ensures var (a, t3) := HexEscape(Next(t), 0, 0);
            a < 0x1_0000 && StringChars(t, q) == Prepend([a], StringChars(Next(t3), q))
  {
    hide HexEscape;
    HexEscapeBound(t[1..], 0, 0);
  }

  lemma StringCr(t: Str, q: Unit)
    requires At(t, BACKSLASH) && q != BACKSLASH && At(Next(t), CR)
    ensures var t2 := Next(t);
            StringChars(t, q) == StringChars(Next(if At(Next(t2), LF) then Next(t2) else t2), q)
  {
  }

  lemma StringEscape(t: Str, q: Unit)
    requires At(t, BACKSLASH) && q != BACKSLASH && !At(Next(t), LOWER_U) && !At(Next(t), CR)
    ensures var t2 := Next(t);
            StringChars(t, q) == if t2 == [] || Escapee(t2[0]).None? then None
                                 else Prepend(Escapee(t2[0]).value, StringChars(Next(t2), q))
  {
    hide Escapee;
  }

  lemma PrependNothing(s: Option<(Str, Str)>)
    ensures Prepend([], s) == s
  {
    if s.Some? {
      assert [] + s.value.0 == s.value.0;
    }
  }

  lemma PrependTwice(a: Str, b: Str, s: Option<(Str, Str)>)
    ensures Prepend(a, Prepend(b, s)) == Prepend(a + b, s)
  {
    if s.Some? {
      assert a + (b + s.value.0) == a + b + s.value.0;
    }
  }
}
