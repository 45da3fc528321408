/**
 Percent-encoding of query strings: `encode` turns UTF-16 code units into unreserved
 characters and the percent triplets of their UTF-8 bytes; `decode` is its inverse.

 Bits that the source joins with `|` never overlap, so they are added here.
 */
module Percent {
  import opened CodeUnits
  import opened Options

  const PERCENT: Unit := 0x25
  const PLUS: Unit := 0x2B
  const SPACE: Unit := 0x20

  // ------------------------------------------------ the standards, as a reference

  /** Section 2.3 of RFC 3986. */
  predicate Unreserved(c: Unit) {
    IsDigit(c) || 0x41 <= c <= 0x5A || 0x61 <= c <= 0x7A || c == 0x2D || c == 0x2E || c == 0x5F || c == 0x7E
  }

  function UpperHex(d: nat): Unit
    requires d < 16
  {
    if d < 10 then 0x30 + d else 0x41 + d - 10
  }

  /** Section 2.1 of RFC 3986, with upper-case digits. */
  function Triplet(b: Byte): (t: Str)
    ensures |t| == 3
  {
    [PERCENT, UpperHex(b / 16), UpperHex(b % 16)]
  }

  predicate IsScalar(p: int) {
    0 <= p < 0xD800 || 0xE000 <= p < 0x11_0000
  }

  type Scalar = p: int | 0 <= p < 0xD800 || 0xE000 <= p < 0x11_0000

  /** The byte that carries six bits of a scalar, from bit position `shift` in powers of two on. */
  function Tail(p: Scalar, shift: nat): (b: Byte)
    requires shift > 0
  {
    0x80 + p / shift % 0x40
  }

  function Lead(p: Scalar): (b: Byte) {
    if p < 0x80 then p
    else if p < 0x800 then 0xC0 + p / 0x40
    else if p < 0x1_0000 then 0xE0 + p / 0x1000
    else 0xF0 + p / 0x4_0000
  }

  /** Section 3 of RFC 3629. */
  function Utf8(p: Scalar): (bytes: seq<Byte>)
    ensures bytes != []
  {
    if p < 0x80 then [Lead(p)]
    else if p < 0x800 then [Lead(p), Tail(p, 1)]
    else if p < 0x1_0000 then [Lead(p), Tail(p, 0x40), Tail(p, 1)]
    else [Lead(p), Tail(p, 0x1000), Tail(p, 0x40), Tail(p, 1)]
  }

  /** Section 2.1 of RFC 2781. */
  function Utf16(p: Scalar): Str {
    if p < 0x1_0000 then var u: Unit := p; [u]
    else
      var high: Unit, low: Unit := 0xD800 + (p - 0x1_0000) / 0x400, 0xDC00 + (p - 0x1_0000) % 0x400;
      [high, low]
  }

  predicate IsHigh(u: Unit) { 0xD800 <= u < 0xDC00 }

  predicate IsLow(u: Unit) { 0xDC00 <= u < 0xE000 }

  /** Every high surrogate is followed by a low one, and no low one stands alone. */
  predicate WellFormed(s: Str) {
    if s == [] then true
    else if IsHigh(s[0]) then |s| > 1 && IsLow(s[1]) && WellFormed(s[2..])
    else !IsLow(s[0]) && WellFormed(s[1..])
  }

  function EscapedByte(b: Byte): Str {
    if Unreserved(b) then [b] else Triplet(b)
  }

  function Escaped(bytes: seq<Byte>): Str {
    if bytes == [] then [] else EscapedByte(bytes[0]) + Escaped(bytes[1..])
  }

  /** The percent-encoded UTF-8 of a text. */
  function Encoded(points: seq<Scalar>): Str {
    if points == [] then [] else Escaped(Utf8(points[0])) + Encoded(points[1..])
  }

  /** The UTF-16 of a text. */
  function Units(points: seq<Scalar>): Str {
    if points == [] then [] else Utf16(points[0]) + Units(points[1..])
  }

  // ------------------------------------------------------------------- encoding

  predicate IsSurrogate(u: Unit) { 0xD800 <= u < 0xE000 }

  /** Any surrogate is taken together with the unit after it, whatever that is; past the end it reads 0. */
  function Paired(u: Unit, v: Unit): (p: Scalar) {
    0x1_0000 + u % 0x400 * 0x400 + v % 0x400
  }

  /** The code points that `encode` sees in a string. */
  function Seen(s: Str): seq<Scalar> {
    if s == [] then []
    else if !IsSurrogate(s[0]) then [s[0]] + Seen(s[1..])
    else if |s| == 1 then [Paired(s[0], 0)]
    else [Paired(s[0], s[1])] + Seen(s[2..])
  }

  function From(s: Str, o: nat): Str {
    if o <= |s| then s[o..] else []
  }

  lemma SeenStep(s: Str, o: nat)
    requires o < |s|
    ensures var p: Scalar := if IsSurrogate(s[o]) then Paired(s[o], if o + 1 < |s| then s[o + 1] else 0) else s[o];
            Seen(From(s, o)) == [p] + Seen(From(s, if IsSurrogate(s[o]) then o + 2 else o + 1))
  {
    assert s[o..][1..] == s[o + 1..];
    if o + 1 < |s| {
      assert s[o..][2..] == s[o + 2..];
    }
  }

  lemma EncodedCons(p: Scalar, rest: seq<Scalar>)
    ensures Encoded([p] + rest) == Escaped(Utf8(p)) + Encoded(rest)
  {
    assert ([p] + rest)[1..] == rest;
  }

  lemma EscapedCons(b: Byte, rest: seq<Byte>)
    ensures Escaped([b] + rest) == EscapedByte(b) + Escaped(rest)
  {
    assert ([b] + rest)[1..] == rest;
  }

  lemma EscapedTwo(a: Byte, b: Byte)
    requires a >= 0x80 && b >= 0x80
    ensures Escaped([a, b]) == Triplet(a) + Triplet(b)
  {
    EscapedCons(a, [b]);
    EscapedCons(b, []);
    assert [a] + [b] == [a, b] && [b] + [] == [b];
  }

  lemma EscapedThree(a: Byte, b: Byte, c: Byte)
    requires a >= 0x80 && b >= 0x80 && c >= 0x80
    ensures Escaped([a, b, c]) == Triplet(a) + Triplet(b) + Triplet(c)
  {
    EscapedCons(a, [b, c]);
    EscapedTwo(b, c);
    assert [a] + [b, c] == [a, b, c];
  }

  lemma EscapedFour(a: Byte, b: Byte, c: Byte, d: Byte)
    requires a >= 0x80 && b >= 0x80 && c >= 0x80 && d >= 0x80
    ensures Escaped([a, b, c, d]) == Triplet(a) + Triplet(b) + Triplet(c) + Triplet(d)
  {
    EscapedCons(a, [b, c, d]);
    EscapedThree(b, c, d);
    assert [a] + [b, c, d] == [a, b, c, d];
  }

  /** The characters that `encode` copies. */
  predicate Plain(c: int) {
    c == 45 || c == 46 || c == 95 || c == 126 || 48 <= c <= 57 || 65 <= c <= 90 || 97 <= c <= 122
  }

  lemma EscapedPoint(p: Scalar)
    ensures Escaped(Utf8(p)) ==
            if p < 128 then if Plain(p) then [p] else Triplet(p)
            else if p < 2048 then Triplet(192 + p / 64) + Triplet(128 + p % 64)
            else if p < 65536 then Triplet(224 + p / 4096) + Triplet(128 + p / 64 % 64) + Triplet(128 + p % 64)
            else
              Triplet(240 + p / 262144) + Triplet(128 + p / 4096 % 64) + Triplet(128 + p / 64 % 64) + Triplet(128 + p % 64)
  {
    hide Escaped, Triplet;
    if p < 0x80 {
      EscapedCons(p, []);
      assert [Lead(p)] + [] == Utf8(p);
      NothingEscaped();
    } else if p < 0x800 {
      EscapedTwo(Lead(p), Tail(p, 1));
    } else if p < 0x1_0000 {
      EscapedThree(Lead(p), Tail(p, 0x40), Tail(p, 1));
    } else {
      EscapedFour(Lead(p), Tail(p, 0x1000), Tail(p, 0x40), Tail(p, 1));
    }
  }

  lemma NothingEscaped()
    ensures Escaped([]) == []
  {
  }

  /** `encode` */
  method Encode(s: Str) returns (r: Str)
    ensures r == Encoded(Seen(s))
  {
    hide Escaped, Encoded, Seen, Triplet, Utf8, Unreserved, From, EscapedByte, Lead, Tail;
    if |s| == 0 {
      NothingEncoded();
      return s;
    }
    r := [];
    var o := 0;
    FromStart(s);
    while o < |s|
      invariant 0 <= o <= |s| + 1
      invariant r + Encoded(Seen(From(s, o))) == Encoded(Seen(s))
    {
      SeenStep(s, o);
      ghost var p: Scalar := if IsSurrogate(s[o]) then Paired(s[o], if o + 1 < |s| then s[o + 1] else 0) else s[o];
      ghost var rest := Seen(From(s, if IsSurrogate(s[o]) then o + 2 else o + 1));
      EncodedCons(p, rest);
      EscapedPoint(p);
      ghost var start := r;
      var c: int := s[o];
      if Plain(c) {
        r := r + [c];
      } else if c < 128 {
        r := r + Triplet(c);
      } else if c < 2048 {
        r := r + (Triplet(192 + c / 64) + Triplet(128 + c % 64));
      } else if c < 55296 || c >= 57344 {
        r := r + (Triplet(224 + c / 4096) + Triplet(128 + c / 64 % 64) + Triplet(128 + c % 64));
      } else {
        o := o + 1;
        c := 65536 + (c % 1024 * 1024 + (if o < |s| then s[o] else 0) % 1024);
        r := r + (Triplet(240 + c / 262144) + Triplet(128 + c / 4096 % 64) + Triplet(128 + c / 64 % 64) + Triplet(128 + c % 64));
      }
      assert r == start + Escaped(Utf8(p));
      Regroup(start, Escaped(Utf8(p)), Encoded(rest));
      o := o + 1;
    }
    NothingEncoded();
    PastEnd(s, o);
  }

  lemma FromStart(s: Str)
    ensures From(s, 0) == s
  {
  }

  lemma PastEnd(s: Str, o: nat)
    requires o >= |s|
    ensures From(s, o) == []
  {
  }

  lemma NothingEncoded()
    ensures Seen([]) == [] && Encoded([]) == []
  {
  }

  lemma Regroup(a: Str, b: Str, c: Str)
    ensures a + (b + c) == a + b + c
  {
  }

  /** What comes out is unreserved characters and percent triplets, whatever goes in. */
  predicate IsPercentText(t: Str) {
    if t == [] then true
    else if t[0] == PERCENT then |t| >= 3 && IsHexDigit(t[1]) && IsHexDigit(t[2]) && IsPercentText(t[3..])
    else Unreserved(t[0]) && IsPercentText(t[1..])
  }

  lemma EscapedByteText(b: Byte, rest: Str)
    requires IsPercentText(rest)
    ensures IsPercentText(EscapedByte(b) + rest)
  {
    var t := EscapedByte(b) + rest;
    assert t[|EscapedByte(b)|..] == rest;
  }

  lemma {:induction false} EscapedIsPercentText(bytes: seq<Byte>, rest: Str)
    requires IsPercentText(rest)
    ensures IsPercentText(Escaped(bytes) + rest)
  {
    hide IsPercentText, EscapedByte;
    if bytes == [] {
      assert Escaped(bytes) + rest == rest;
    } else {
      EscapedIsPercentText(bytes[1..], rest);
      Regroup(EscapedByte(bytes[0]), Escaped(bytes[1..]), rest);
      EscapedByteText(bytes[0], Escaped(bytes[1..]) + rest);
    }
  }

  lemma {:induction false} EncodedIsPercentText(points: seq<Scalar>)
    ensures IsPercentText(Encoded(points))
  {
    if points == [] {
    } else {
      EncodedIsPercentText(points[1..]);
      EscapedIsPercentText(Utf8(points[0]), Encoded(points[1..]));
    }
  }

  // ------------------------------------------------------------------- decoding

  /** The byte of a triplet; digits of either case. */
  function ReadTriplet(t: Str): Option<Byte> {
    if |t| >= 3 && t[0] == PERCENT && IsHexDigit(t[1]) && IsHexDigit(t[2])
    then Some(16 * HexValue(t[1]) + HexValue(t[2])) else None
  }

  /** How many bytes a UTF-8 sequence has that begins so. */
  function Width(b: Byte): Option<nat> {
    if b < 0x80 then Some(1)
    else if b < 0xC0 then None
    else if b < 0xE0 then Some(2)
    else if b < 0xF0 then Some(3)
    else if b < 0xF8 then Some(4)
    else None
  }

  function ReadTriplets(t: Str, n: nat): (r: Option<seq<Byte>>)
    ensures r.Some? ==> |r.value| == n && |t| >= 3 * n
  {
    if n == 0 then Some([])
    else
      match ReadTriplet(t)
      case None => None
      case Some(b) =>
        match ReadTriplets(t[3..], n - 1)
        case None => None
        case Some(bytes) => Some([b] + bytes)
  }

  /** The bits a UTF-8 sequence carries. */
  function Payload(bytes: seq<Byte>): int {
    if |bytes| == 1 then bytes[0]
    else if |bytes| == 2 then (bytes[0] as int - 0xC0) * 0x40 + Low(bytes[1])
    else if |bytes| == 3 then (bytes[0] as int - 0xE0) * 0x1000 + Low(bytes[1]) * 0x40 + Low(bytes[2])
    else if |bytes| == 4 then
      (bytes[0] as int - 0xF0) * 0x4_0000 + Low(bytes[1]) * 0x1000 + Low(bytes[2]) * 0x40 + Low(bytes[3])
    else -1
  }

  function Low(b: Byte): int {
    b as int - 0x80
  }

  /** The only text a strict UTF-8 decoder reads from these bytes: the scalar whose encoding they are. */
  function Utf8Scalar(bytes: seq<Byte>): Option<Scalar> {
    var p := Payload(bytes);
    if IsScalar(p) && Utf8(p) == bytes then Some(p) else None
  }

  /** The host's `decodeURIComponent`, section 19.2.6.2 of ECMA-262: every escape must be strict UTF-8. */
  function DecodeUri(t: Str): Option<Str> {
    if t == [] then Some([])
    else if t[0] != PERCENT then Then([t[0]], DecodeUri(t[1..]))
    else
      match ReadTriplet(t)
      case None => None
      case Some(b) =>
        match Width(b)
        case None => None
        case Some(n) =>
          match ReadTriplets(t, n)
          case None => None
          case Some(bytes) =>
            match Utf8Scalar(bytes)
            case None => None
            case Some(p) => Then(Utf16(p), DecodeUri(t[3 * n..]))
  }

  function Then(head: Str, rest: Option<Str>): Option<Str> {
    if rest.Some? then Some(head + rest.value) else None
  }

  /** `+` stands for a space. */
  function PlusToSpace(t: Str): (r: Str)
    ensures |r| == |t|
    ensures forall i :: 0 <= i < |t| ==> r[i] == if t[i] == PLUS then SPACE else t[i]
  {
    if t == [] then [] else [if t[0] == PLUS then SPACE else t[0]] + PlusToSpace(t[1..])
  }

  /** `decode`: text that the host cannot decode is kept. */
  function Decode(t: Str): Str {
    var r := PlusToSpace(t);
    match DecodeUri(r)
    case Some(d) => d
    case None => r
  }

  // ----------------------------------------------------------------- round trip

  function Triplets(bytes: seq<Byte>): (t: Str)
    ensures |t| == 3 * |bytes|
  {
    if bytes == [] then [] else Triplet(bytes[0]) + Triplets(bytes[1..])
  }

  lemma TripletRead(b: Byte, rest: Str)
    ensures var t := Triplet(b) + rest;
            ReadTriplet(t) == Some(b) && t[0] == PERCENT && t[3..] == rest
  {
  }

  lemma {:induction false} TripletsRead(bytes: seq<Byte>, rest: Str)
    ensures var t := Triplets(bytes) + rest;
            ReadTriplets(t, |bytes|) == Some(bytes) && t[3 * |bytes|..] == rest
  {
    hide Triplet, ReadTriplet;
    if bytes == [] {
      assert Triplets(bytes) + rest == rest;
    } else {
      var more := Triplets(bytes[1..]) + rest;
      Regroup(Triplet(bytes[0]), Triplets(bytes[1..]), rest);
      TripletRead(bytes[0], more);
      TripletsRead(bytes[1..], rest);
      DropDrop(Triplet(bytes[0]) + more, 3, 3 * |bytes| - 3);
      assert [bytes[0]] + bytes[1..] == bytes;
    }
  }

  lemma DropDrop(t: Str, i: nat, j: nat)
    requires i + j <= |t|
    ensures t[i..][j..] == t[i + j..]
  {
  }

  /** The triplets of a longer sequence, and of an escaped character. */
  lemma EscapedOrPlain(p: Scalar)
    ensures Escaped(Utf8(p)) == if Plain(p) then [p] else Triplets(Utf8(p))
  {
    hide Escaped, Triplet, Lead, Tail;
    EscapedPoint(p);
    LeadAndTail(p);
    if p < 128 {
      TripletsOf([], p);
      assert [] + [p as Byte] == Utf8(p);
    } else if p < 2048 {
      TripletsOf([Lead(p)], Tail(p, 1));
      TripletsOf([], Lead(p));
      assert [] + [Lead(p)] == [Lead(p)] && [Lead(p)] + [Tail(p, 1)] == Utf8(p);
    } else if p < 65536 {
      TripletsThree(Lead(p), Tail(p, 64), Tail(p, 1));
    } else {
      TripletsThree(Lead(p), Tail(p, 4096), Tail(p, 64));
      TripletsOf([Lead(p), Tail(p, 4096), Tail(p, 64)], Tail(p, 1));
      assert [Lead(p), Tail(p, 4096), Tail(p, 64)] + [Tail(p, 1)] == Utf8(p);
    }
  }

  lemma LeadAndTail(p: Scalar)
    ensures Lead(p) == if p < 128 then p else if p < 2048 then 192 + p / 64 else if p < 65536 then 224 + p / 4096 else 240 + p / 262144
    ensures Tail(p, 1) == 128 + p % 64 && Tail(p, 64) == 128 + p / 64 % 64 && Tail(p, 4096) == 128 + p / 4096 % 64
  {
  }

  lemma TripletsThree(a: Byte, b: Byte, c: Byte)
    ensures Triplets([a, b, c]) == Triplet(a) + Triplet(b) + Triplet(c)
  {
    hide Triplet;
    TripletsOf([], a);
    TripletsOf([a], b);
    TripletsOf([a, b], c);
    assert [] + [a] == [a] && [a] + [b] == [a, b] && [a, b] + [c] == [a, b, c];
  }

  lemma {:induction false} TripletsOf(bytes: seq<Byte>, b: Byte)
    ensures Triplets(bytes + [b]) == Triplets(bytes) + Triplet(b)
  {
    hide Triplet;
    if bytes == [] {
      assert bytes + [b] == [b] && [b][1..] == [];
    } else {
      assert (bytes + [b])[1..] == bytes[1..] + [b];
      TripletsOf(bytes[1..], b);
    }
  }

  lemma Utf8Read(p: Scalar)
    ensures Width(Utf8(p)[0]) == Some(|Utf8(p)|) && Utf8Scalar(Utf8(p)) == Some(p)
  {
    hide Lead, Tail;
    LeadAndTail(p);
    SixBits(p);
  }

  lemma SixBits(p: nat)
    ensures p == p / 64 * 64 + p % 64
    ensures p / 64 == p / 4096 * 64 + p / 64 % 64
    ensures p / 4096 == p / 262144 * 64 + p / 4096 % 64
  {
    assert p / 4096 == p / 64 / 64;
    assert p / 262144 == p / 4096 / 64;
  }

  lemma PointRead(p: Scalar, rest: Str)
    ensures DecodeUri(Escaped(Utf8(p)) + rest) == Then(Utf16(p), DecodeUri(rest))
  {
    hide Escaped, Utf8, Triplets, Triplet, ReadTriplet, Width, Utf8Scalar, ReadTriplets;
    EscapedOrPlain(p);
    Utf8Read(p);
    var t := Escaped(Utf8(p)) + rest;
    if Plain(p) {
      assert t[0] == p && t[1..] == rest;
    } else {
      var bytes := Utf8(p);
      TripletsRead(bytes, rest);
      FirstTriplet(bytes, rest);
    }
  }

  lemma FirstTriplet(bytes: seq<Byte>, rest: Str)
    requires bytes != []
    ensures var t := Triplets(bytes) + rest;
            t != [] && t[0] == PERCENT && ReadTriplet(t) == Some(bytes[0])
  {
    Regroup(Triplet(bytes[0]), Triplets(bytes[1..]), rest);
    TripletRead(bytes[0], Triplets(bytes[1..]) + rest);
  }

  /** The host reads back exactly the text that was encoded. */
  lemma {:induction false} EncodedRead(points: seq<Scalar>)
    ensures DecodeUri(Encoded(points)) == Some(Units(points))
  {
    hide Escaped, Utf8, Utf16;
    if points == [] {
    } else {
      EncodedRead(points[1..]);
      PointRead(points[0], Encoded(points[1..]));
    }
  }

  lemma {:induction false} NoPlus(t: Str)
    requires IsPercentText(t)
    ensures PlusToSpace(t) == t
  {
    if t == [] {
    } else {
      assert [t[0]] + t[1..] == t;
      if t[0] == PERCENT {
        NoPlus(t[3..]);
        assert t == t[..3] + t[3..];
        assert forall i :: 3 <= i < |t| ==> t[i] == t[3..][i - 3];
        assert forall i :: 0 <= i < |t[3..]| ==> t[3..][i] != PLUS;
      } else {
        NoPlus(t[1..]);
      }
    }
  }

  lemma WholePair(u: Unit, v: Unit)
    requires IsSurrogate(u)
    ensures |Utf16(Paired(u, v))| == 2
    ensures IsHigh(u) && IsLow(v) <==> Utf16(Paired(u, v)) == [u, v]
    ensures IsHigh(Utf16(Paired(u, v))[0]) && IsLow(Utf16(Paired(u, v))[1])
  {
  }

  /** The code points seen are those of the string exactly when it is well-formed UTF-16. */
  lemma {:induction false} SeenIsText(s: Str)
    ensures Units(Seen(s)) == s <==> WellFormed(s)
  {
    hide Utf16, Paired;
    if s == [] {
    } else if !IsSurrogate(s[0]) {
      SeenIsText(s[1..]);
      UnitsCons(s[0], Seen(s[1..]));
      assert s == [s[0]] + s[1..];
      assert Utf16(s[0]) == [s[0]] by { OneUnit(s[0]); }
      assert ([s[0]] + Units(Seen(s[1..])))[1..] == Units(Seen(s[1..]));
    } else if |s| == 1 {
      WholePair(s[0], 0);
      UnitsCons(Paired(s[0], 0), []);
      assert [Paired(s[0], 0)] + [] == Seen(s);
    } else {
      var p := Paired(s[0], s[1]);
      SeenIsText(s[2..]);
      WholePair(s[0], s[1]);
      UnitsCons(p, Seen(s[2..]));
      assert s == [s[0], s[1]] + s[2..];
      assert (Utf16(p) + Units(Seen(s[2..])))[..2] == Utf16(p);
      assert (Utf16(p) + Units(Seen(s[2..])))[2..] == Units(Seen(s[2..]));
    }
  }

  lemma OneUnit(u: Unit)
    requires !IsSurrogate(u)
    ensures Utf16(u) == [u]
  {
  }

  lemma UnitsCons(p: Scalar, rest: seq<Scalar>)
    ensures Units([p] + rest) == Utf16(p) + Units(rest)
  {
    assert ([p] + rest)[1..] == rest;
  }

  /**
   Decoding what was encoded gives the string back exactly when it is well-formed
   UTF-16; any other string comes back with its surrogates re-paired.
   */
  lemma DecodeEncode(s: Str)
    ensures IsPercentText(Encoded(Seen(s)))
    ensures Decode(Encoded(Seen(s))) == Units(Seen(s))
    ensures Decode(Encoded(Seen(s))) == s <==> WellFormed(s)
  {
    hide Encoded, Seen, Units, WellFormed, IsPercentText, DecodeUri, PlusToSpace;
    var t := Encoded(Seen(s));
    EncodedIsPercentText(Seen(s));
    NoPlus(t);
    EncodedRead(Seen(s));
    SeenIsText(s);
  }

  /** A surrogate on its own takes the unit after it along. */
  lemma LoneSurrogate()
    ensures Decode(Encoded(Seen([0xD800, 0x41]))) != [0xD800, 0x41]
  {
    hide Encoded, Decode;
    DecodeEncode([0xD800, 0x41]);
  }
}
