/** Percent-encoding and base 64 by their characters, with the test vectors of RFC 4648. */
module EncodingLaws {
  import opened CodeUnits
  import opened Options
  import opened Percent
  import opened Base64

  // ------------------------------------------------------------- percent-encoding

  const UPPER_HEX: string := "0123456789ABCDEF"

  /** An ASCII character stands for itself if it is a letter, a digit, `-`, `.`, `_` or `~`, else for a percent sign and two digits. */
  lemma AsciiEncoded(c: Unit)
    requires c < 0x80
    ensures var plain := 0x30 <= c <= 0x39 || 0x41 <= c <= 0x5A || 0x61 <= c <= 0x7A || c == 0x2D || c == 0x2E || c == 0x5F || c == 0x7E;
            Percent.Encoded(Seen([c])) == if plain then [c] else [0x25, UPPER_HEX[c / 16] as int, UPPER_HEX[c % 16] as int]
  {
    hide Triplet, Escaped, Utf8;
    assert [c][1..] == [] && Seen([c]) == [c];
    EncodedCons(c, []);
    assert [c] + [] == [c];
    assert Escaped(Utf8(c)) + Percent.Encoded([]) == Escaped(Utf8(c));
    EscapedPoint(c);
    HexCharacters(c / 16);
    HexCharacters(c % 16);
    TripletIs(c);
  }

  lemma TripletIs(b: Byte)
    ensures Triplet(b) == [0x25, UpperHex(b / 16), UpperHex(b % 16)]
  {
  }

  lemma HexCharacters(d: nat)
    requires d < 16
    ensures UpperHex(d) == UPPER_HEX[d] as int
  {
  }

  /** A character beyond ASCII becomes the triplets of its UTF-8 bytes. */
  lemma ManyBytes(c: Unit)
    requires c >= 0x80 && !(0xD800 <= c < 0xE000)
    ensures Percent.Encoded(Seen([c])) ==
            if c < 0x800 then Triplet(0xC0 + c / 0x40) + Triplet(0x80 + c % 0x40)
            else Triplet(0xE0 + c / 0x1000) + Triplet(0x80 + c / 0x40 % 0x40) + Triplet(0x80 + c % 0x40)
  {
    hide Triplet, Escaped, Utf8;
    assert [c][1..] == [] && Seen([c]) == [c];
    EncodedCons(c, []);
    assert [c] + [] == [c];
    assert Escaped(Utf8(c)) + Percent.Encoded([]) == Escaped(Utf8(c));
    EscapedPoint(c);
  }

  /** A surrogate and the unit after it make one code point of four bytes, whatever that unit is. */
  lemma SurrogateTakesNext(u: Unit, s: Str)
    requires 0xD800 <= u < 0xE000
    ensures var t, v := Seen([u] + s), if s == [] then 0 else s[0];
            t != [] && t[0] == 0x1_0000 + u % 0x400 * 0x400 + v % 0x400 && t[1..] == Seen(if s == [] then [] else s[1..])
  {
    hide Paired, Seen;
    PairIs(u, if s == [] then 0 else s[0]);
    PairSeen(u, s);
  }

  lemma PairSeen(u: Unit, s: Str)
    requires IsSurrogate(u)
    ensures var t := Seen([u] + s);
            t != [] && t[0] == Paired(u, if s == [] then 0 else s[0]) && t[1..] == Seen(if s == [] then [] else s[1..])
  {
    hide Paired;
    var rest := [u] + s;
    assert rest[0] == u && rest[1..] == s;
    if s == [] {
      assert |rest| == 1;
    } else {
      assert rest[1] == s[0] && rest[2..] == s[1..];
    }
  }

  lemma PairIs(u: Unit, v: Unit)
    ensures Paired(u, v) == 0x1_0000 + u % 0x400 * 0x400 + v % 0x400
  {
  }

  lemma {:induction false} NoPercentSign(t: Str)
    requires 0x25 !in t
    ensures DecodeUri(t) == Some(t)
  {
    if t == [] {
    } else {
      assert t[0] in t;
      NoPercentSign(t[1..]);
      assert [t[0]] + t[1..] == t;
    }
  }

  /** A plus sign is read as a space; what holds no percent sign is otherwise kept. */
  lemma PlusIsSpace(t: Str)
    requires 0x25 !in t
    ensures |Decode(t)| == |t| && forall i :: 0 <= i < |t| ==> Decode(t)[i] == if t[i] == 0x2B then 0x20 else t[i]
  {
    assert forall i :: 0 <= i < |t| ==> t[i] in t;
    NoPercentSign(PlusToSpace(t));
  }

  lemma {:induction false} CutOff(a: Str)
    requires 0x25 !in a
    ensures DecodeUri(a + [0x25]) == None
  {
    if a == [] {
      assert a + [0x25] == [0x25];
    } else {
      assert a[0] in a;
      assert (a + [0x25])[0] == a[0] && (a + [0x25])[1..] == a[1..] + [0x25];
      CutOff(a[1..]);
    }
  }

  /** Text with an escape that breaks off is kept as it is, but for plus signs. */
  lemma BrokenIsKept(a: Str)
    requires 0x25 !in a
    ensures |Decode(a + [0x25])| == |a| + 1 && Decode(a + [0x25])[|a|] == 0x25
    ensures forall i :: 0 <= i < |a| ==> Decode(a + [0x25])[i] == if a[i] == 0x2B then 0x20 else a[i]
  {
    var t := a + [0x25];
    var r := PlusToSpace(t);
    assert forall i :: 0 <= i < |a| ==> a[i] in a;
    assert r == r[..|a|] + [0x25];
    assert 0x25 !in r[..|a|];
    CutOff(r[..|a|]);
  }

  // ------------------------------------------------------------------- base 64

  /** Capital letters, small letters, digits, `+` and `/`. */
  lemma Alphabet(d: nat)
    requires d < 64
    ensures Digit(d) as char ==
            if d <= 25 then 'A' + d as char
            else if d <= 51 then 'a' + (d - 26) as char
            else if d <= 61 then '0' + (d - 52) as char
            else if d == 62 then '+' else '/'
  {
  }

  /** The decoder takes these digits and nothing else. */
  lemma OnlyDigits(c: Unit)
    ensures Value(c).Some? <==> exists d :: 0 <= d < 64 && Digit(d) == c
    ensures Value(c).Some? ==> Digit(Value(c).value) == c
  {
    if Value(c).Some? {
      assert Digit(Value(c).value) == c;
    }
  }

  /** The test vectors in section 10 of RFC 4648: the beginnings of `foobar`. */
  lemma Vectors()
    ensures Base64.Encoded([]) == []
    ensures Base64.Encoded([0x66]) == [0x5A, 0x67, 0x3D, 0x3D]
    ensures Base64.Encoded([0x66, 0x6F]) == [0x5A, 0x6D, 0x38, 0x3D]
    ensures Base64.Encoded([0x66, 0x6F, 0x6F]) == [0x5A, 0x6D, 0x39, 0x76]
    ensures Base64.Encoded([0x66, 0x6F, 0x6F, 0x62]) == [0x5A, 0x6D, 0x39, 0x76, 0x59, 0x67, 0x3D, 0x3D]
    ensures Base64.Encoded([0x66, 0x6F, 0x6F, 0x62, 0x61]) == [0x5A, 0x6D, 0x39, 0x76, 0x59, 0x6D, 0x45, 0x3D]
    ensures Base64.Encoded([0x66, 0x6F, 0x6F, 0x62, 0x61, 0x72]) == [0x5A, 0x6D, 0x39, 0x76, 0x59, 0x6D, 0x46, 0x79]
  {
    hide Base64.Encoded, Digit, Sextet, Group;
    VectorF();
    VectorFoo();
    VectorBar();
    Group3(0x66, 0x6F, 0x6F, []);
    Group3(0x66, 0x6F, 0x6F, [0x62]);
    Group3(0x66, 0x6F, 0x6F, [0x62, 0x61]);
    Group3(0x66, 0x6F, 0x6F, [0x62, 0x61, 0x72]);
    assert [0x66, 0x6F, 0x6F] + [] == [0x66, 0x6F, 0x6F];
    assert [0x66, 0x6F, 0x6F] + [0x62] == [0x66, 0x6F, 0x6F, 0x62];
    assert [0x66, 0x6F, 0x6F] + [0x62, 0x61] == [0x66, 0x6F, 0x6F, 0x62, 0x61];
    assert [0x66, 0x6F, 0x6F] + [0x62, 0x61, 0x72] == [0x66, 0x6F, 0x6F, 0x62, 0x61, 0x72];
    var foo: Str := [0x5A, 0x6D, 0x39, 0x76];
    assert foo + [] == foo;
    assert Base64.Encoded([0x66, 0x6F, 0x6F]) == foo + [];
    assert Base64.Encoded([0x66, 0x6F, 0x6F, 0x62]) == foo + [0x59, 0x67, 0x3D, 0x3D];
    assert Base64.Encoded([0x66, 0x6F, 0x6F, 0x62, 0x61]) == foo + [0x59, 0x6D, 0x45, 0x3D];
    assert Base64.Encoded([0x66, 0x6F, 0x6F, 0x62, 0x61, 0x72]) == foo + [0x59, 0x6D, 0x46, 0x79];
  }

  lemma Group3(a: Byte, b: Byte, c: Byte, rest: seq<Byte>)
    ensures var n := Group(a, b, c);
            Base64.Encoded([a, b, c] + rest) ==
            [Digit(Sextet(n, 0x4_0000)), Digit(Sextet(n, 0x1000)), Digit(Sextet(n, 64)), Digit(Sextet(n, 1))] + Base64.Encoded(rest)
  {
    hide Digit, Sextet, Group;
    assert ([a, b, c] + rest)[3..] == rest;
  }

  lemma VectorF()
    ensures Base64.Encoded([]) == []
    ensures Base64.Encoded([0x66]) == [0x5A, 0x67, 0x3D, 0x3D] && Base64.Encoded([0x66, 0x6F]) == [0x5A, 0x6D, 0x38, 0x3D]
  {
  }

  lemma VectorFoo()
    ensures var n := Group(0x66, 0x6F, 0x6F);
            [Digit(Sextet(n, 0x4_0000)), Digit(Sextet(n, 0x1000)), Digit(Sextet(n, 64)), Digit(Sextet(n, 1))] == [0x5A, 0x6D, 0x39, 0x76]
  {
  }

  lemma VectorBar()
    ensures Base64.Encoded([0x62]) == [0x59, 0x67, 0x3D, 0x3D] && Base64.Encoded([0x62, 0x61]) == [0x59, 0x6D, 0x45, 0x3D]
    ensures Base64.Encoded([0x62, 0x61, 0x72]) == [0x59, 0x6D, 0x46, 0x79]
  {
    hide Digit, Sextet, Group;
    Group3(0x62, 0x61, 0x72, []);
    VectorF();
    BarDigits();
    assert [0x62, 0x61, 0x72] + [] == [0x62, 0x61, 0x72];
    assert [0x59, 0x6D, 0x46, 0x79] + [] == [0x59, 0x6D, 0x46, 0x79];
  }

  lemma BarDigits()
    ensures var n := Group(0x62, 0x61, 0x72);
            [Digit(Sextet(n, 0x4_0000)), Digit(Sextet(n, 0x1000)), Digit(Sextet(n, 64)), Digit(Sextet(n, 1))] == [0x59, 0x6D, 0x46, 0x79]
    ensures var n := Group(0x62, 0, 0);
            [Digit(Sextet(n, 0x4_0000)), Digit(Sextet(n, 0x1000)), PAD, PAD] == [0x59, 0x67, 0x3D, 0x3D]
    ensures var n := Group(0x62, 0x61, 0);
            [Digit(Sextet(n, 0x4_0000)), Digit(Sextet(n, 0x1000)), Digit(Sextet(n, 64)), PAD] == [0x59, 0x6D, 0x45, 0x3D]
  {
  }
}
