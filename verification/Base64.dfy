/**
 Base 64 encoding of strings whose code units stand for bytes, section 4 of RFC 4648.

 Bits that the source joins with `|` never overlap, so they are added here.
 */
module Base64 {
  import opened Arithmetic
  import opened CodeUnits
  import opened Options

  const PAD: Unit := 0x3D

  // ------------------------------------------------- the standard, as a reference

  /** Table 1 of RFC 4648. */
  function Digit(d: nat): (c: Unit)
    requires d < 64
    ensures c != PAD
  {
    if d < 26 then 0x41 + d
    else if d < 52 then 0x61 + d - 26
    else if d < 62 then 0x30 + d - 52
    else if d == 62 then 0x2B
    else 0x2F
  }

  function Value(c: Unit): (v: Option<nat>)
    ensures v.Some? ==> v.value < 64
  {
    if 0x41 <= c <= 0x5A then Some(c as nat - 0x41)
    else if 0x61 <= c <= 0x7A then Some(c as nat - 0x61 + 26)
    else if 0x30 <= c <= 0x39 then Some(c as nat - 0x30 + 52)
    else if c == 0x2B then Some(62)
    else if c == 0x2F then Some(63)
    else None
  }

  /** The 24-bit number of three bytes. */
  function Group(a: Byte, b: Byte, c: Byte): (n: nat)
    ensures n < 0x100_0000
  {
    a as int * 0x1_0000 + b as int * 0x100 + c as int
  }

  /** Its base-64 digit of weight `w`. */
  function Sextet(n: nat, w: nat): (d: nat)
    requires w > 0
    ensures d < 64
  {
    n / w % 64
  }

  /** Each three bytes are written as the four base-64 digits of their number; missing bytes are padded. */
  function Encoded(bytes: seq<Byte>): Str {
    if bytes == [] then []
    else if |bytes| == 1 then
      var n := Group(bytes[0], 0, 0);
      [Digit(Sextet(n, 0x4_0000)), Digit(Sextet(n, 0x1000)), PAD, PAD]
    else if |bytes| == 2 then
      var n := Group(bytes[0], bytes[1], 0);
      [Digit(Sextet(n, 0x4_0000)), Digit(Sextet(n, 0x1000)), Digit(Sextet(n, 64)), PAD]
    else
      var n := Group(bytes[0], bytes[1], bytes[2]);
      [Digit(Sextet(n, 0x4_0000)), Digit(Sextet(n, 0x1000)), Digit(Sextet(n, 64)), Digit(Sextet(n, 1))] + Encoded(bytes[3..])
  }

  lemma GroupBits(a: Byte, b: Byte, c: Byte)
    ensures var n := Group(a, b, c);
            && Sextet(n, 0x4_0000) == a / 4 && Sextet(n, 0x1000) == a % 4 * 16 + b / 16
            && Sextet(n, 64) == b % 16 * 4 + c / 64 && Sextet(n, 1) == c % 64
  {
    var n := Group(a, b, c);
    var s3, s2, s1, s0 := a / 4, a % 4 * 16 + b / 16, b % 16 * 4 + c / 64, c % 64;
    assert n == ((s3 * 64 + s2) * 64 + s1) * 64 + s0;
    Peel((s3 * 64 + s2) * 64 + s1, s0);
    Peel(s3 * 64 + s2, s1);
    Peel(s3, s2);
    assert n / 0x1000 == n / 64 / 64 && n / 0x4_0000 == n / 64 / 64 / 64;
  }

  lemma Peel(q: nat, r: nat)
    requires r < 64
    ensures (q * 64 + r) / 64 == q && (q * 64 + r) % 64 == r
  {
  }

  lemma LowByte(n: nat)
    ensures n % 256 / 16 == n / 16 % 16 && n % 256 % 16 == n % 16
    ensures n % 256 / 64 == n / 64 % 4 && n % 256 % 64 == n % 64
  {
    DivDiv(n, 16, 16);
    LowPart(n, 16, n / 256, n / 16 % 16, n % 16);
    DivDiv(n, 64, 4);
    LowPart(n, 64, n / 256, n / 64 % 4, n % 64);
  }

  lemma LowPart(n: nat, w: nat, k: nat, x: nat, r: nat)
    requires n == 256 * k + (w * x + r) && r < w && w * x + r < 256
    ensures n % 256 / w == x && n % 256 % w == r
  {
    DivModUnique(n, 256, k, w * x + r);
    DivModUnique(w * x + r, w, x, r);
  }

  /** A strict decoder: whole groups, padding only at the very end, unused bits zero. */
  function Decoded(t: Str): Option<seq<Byte>> {
    if t == [] then Some([])
    else if |t| < 4 then None
    else
      var a, b, c, d := Value(t[0]), Value(t[1]), Value(t[2]), Value(t[3]);
      if a.None? || b.None? then None
      else if |t| == 4 && t[2] == PAD && t[3] == PAD then
        if b.value % 16 == 0 then Some([First(a.value, b.value)]) else None
      else if c.None? then None
      else if |t| == 4 && t[3] == PAD then
        if c.value % 4 == 0 then Some([First(a.value, b.value), Second(b.value, c.value)]) else None
      else if d.None? then None
      else
        match Decoded(t[4..])
        case None => None
        case Some(rest) =>
          Some([First(a.value, b.value), Second(b.value, c.value),
                Third(c.value, d.value)] + rest)
  }

  function First(a: nat, b: nat): Byte
    requires a < 64 && b < 64
  {
    ByteOf(a * 4 + b / 16)
  }

  function Second(b: nat, c: nat): Byte
    requires b < 64 && c < 64
  {
    ByteOf(b % 16 * 16 + c / 4)
  }

  function Third(c: nat, d: nat): Byte
    requires c < 64 && d < 64
  {
    ByteOf(c % 4 * 64 + d)
  }

  function ByteOf(n: nat): Byte
    requires n < 256
  {
    n
  }

  // --------------------------------------------------------------------- encoding

  /** A code unit counts as its low byte. */
  function LowBytes(s: Str): (bytes: seq<Byte>)
    ensures |bytes| == |s| && forall i :: 0 <= i < |s| ==> bytes[i] == s[i] % 256
  {
    seq(|s|, i requires 0 <= i < |s| => ByteOf(s[i] % 256))
  }

  /** `base64Encode` */
  method Encode(e: Str) returns (s: Str)
    ensures s == Encoded(LowBytes(e))
  {
    hide Digit, Encoded, LowBytes;
    ghost var bytes := LowBytes(e);
    s := [];
    var i := 0;
    var o := |e|;
    RestStart(bytes);
    while i < o
      invariant 0 <= i <= o
      invariant s + Encoded(bytes[i..]) == Encoded(bytes)
    {
      ghost var start := s;
      RestIs(e, i);
      var t := e[i] % 256;
      i := i + 1;
      if i == o {
        OneByte(t);
        s := s + [Digit(t / 4)];
        s := s + [Digit(t % 4 * 16)];
        s := s + [PAD, PAD];
        Grouped(start, [Digit(t / 4), Digit(t % 4 * 16), PAD, PAD], []);
        return;
      }
      var n := e[i];
      i := i + 1;
      if i == o {
        TwoBytes(t, n);
        s := s + [Digit(t / 4)];
        s := s + [Digit(t % 4 * 16 + n / 16 % 16)];
        s := s + [Digit(n % 16 * 4)];
        s := s + [PAD];
        Grouped(start, [Digit(t / 4), Digit(t % 4 * 16 + n / 16 % 16), Digit(n % 16 * 4), PAD], []);
        return;
      }
      var a := e[i];
      i := i + 1;
      ThreeBytes(t, n, a, bytes[i..]);
      s := s + [Digit(t / 4)];
      s := s + [Digit(t % 4 * 16 + n / 16 % 16)];
      s := s + [Digit(n % 16 * 4 + a / 64 % 4)];
      s := s + [Digit(a % 64)];
      Grouped(start, [Digit(t / 4), Digit(t % 4 * 16 + n / 16 % 16), Digit(n % 16 * 4 + a / 64 % 4), Digit(a % 64)],
              Encoded(bytes[i..]));
    }
    NothingEncoded(bytes[|e|..], s);
  }

  lemma RestStart(bytes: seq<Byte>)
    ensures bytes[0..] == bytes && [] + Encoded(bytes) == Encoded(bytes)
  {
  }

  /** The bytes from a position on. */
  lemma RestIs(e: Str, i: nat)
    requires i < |e|
    ensures var bytes, t := LowBytes(e), ByteOf(e[i] % 256);
            && |bytes| == |e|
            && (i + 1 == |e| ==> bytes[i..] == [t])
            && (i + 2 == |e| ==> bytes[i..] == [t, ByteOf(e[i + 1] % 256)])
            && (i + 2 < |e| ==> bytes[i..] == [t, ByteOf(e[i + 1] % 256), ByteOf(e[i + 2] % 256)] + bytes[i + 3..])
  {
  }

  /** Four characters appended one by one are appended as a group. */
  lemma Grouped(start: Str, group: Str, rest: Str)
    requires |group| == 4
    ensures start + [group[0]] + [group[1]] + [group[2]] + [group[3]] + rest == start + (group + rest)
    ensures start + [group[0]] + [group[1]] + [group[2], group[3]] == start + group
    ensures start + [group[0]] + [group[1]] + [group[2]] + [group[3]] == start + group
  {
  }

  lemma NothingEncoded(bytes: seq<Byte>, s: Str)
    requires bytes == []
    ensures s + Encoded(bytes) == s
  {
  }

  lemma OneByte(t: Byte)
    ensures Encoded([t]) == [Digit(t / 4), Digit(t % 4 * 16), PAD, PAD]
  {
    hide Digit, Group, Sextet;
    GroupBits(t, 0, 0);
  }

  lemma TwoBytes(t: Byte, n: nat)
    ensures Encoded([t, ByteOf(n % 256)]) == [Digit(t / 4), Digit(t % 4 * 16 + n / 16 % 16), Digit(n % 16 * 4), PAD]
  {
    hide Digit, Group, Sextet;
    LowByte(n);
    GroupBits(t, ByteOf(n % 256), 0);
  }

  lemma ThreeBytes(t: Byte, n: nat, a: nat, rest: seq<Byte>)
    ensures Encoded([t, ByteOf(n % 256), ByteOf(a % 256)] + rest) ==
            [Digit(t / 4), Digit(t % 4 * 16 + n / 16 % 16), Digit(n % 16 * 4 + a / 64 % 4), Digit(a % 64)] + Encoded(rest)
  {
    hide Digit, Group, Sextet;
    LowByte(n);
    LowByte(a);
    GroupBits(t, ByteOf(n % 256), ByteOf(a % 256));
    var bytes := [t, ByteOf(n % 256), ByteOf(a % 256)] + rest;
    assert bytes[3..] == rest;
  }

  // -------------------------------------------------------------------- its laws

  lemma DigitValue(d: nat)
    requires d < 64
    ensures Value(Digit(d)) == Some(d)
  {
  }

  lemma DigitValues(n: nat)
    ensures Value(Digit(Sextet(n, 0x4_0000))) == Some(Sextet(n, 0x4_0000))
    ensures Value(Digit(Sextet(n, 0x1000))) == Some(Sextet(n, 0x1000))
    ensures Value(Digit(Sextet(n, 64))) == Some(Sextet(n, 64)) && Value(Digit(Sextet(n, 1))) == Some(Sextet(n, 1))
  {
    hide *;
    DigitValue(Sextet(n, 0x4_0000));
    DigitValue(Sextet(n, 0x1000));
    DigitValue(Sextet(n, 64));
    DigitValue(Sextet(n, 1));
  }

  lemma PadHasNoValue()
    ensures Value(PAD) == None
  {
  }

  lemma {:induction false} EncodedLength(bytes: seq<Byte>)
    ensures |Encoded(bytes)| == (|bytes| + 2) / 3 * 4
  {
    hide Digit, Sextet, Group;
    if |bytes| < 3 {
    } else {
      EncodedLength(bytes[3..]);
    }
  }

  lemma BytesBack(a: Byte, b: Byte, c: Byte)
    ensures var x, y, z, w := a / 4, a % 4 * 16 + b / 16, b % 16 * 4 + c / 64, c % 64;
            First(x, y) == a && Second(y, z) == b && Third(z, w) == c
    ensures (a % 4 * 16 + 0 / 16) % 16 == 0 && (b % 16 * 4 + 0 / 64) % 4 == 0
  {
  }

  lemma {:induction false} DecodeEncode(bytes: seq<Byte>)
    ensures Decoded(Encoded(bytes)) == Some(bytes)
  {
    hide Digit, Value, Group, Sextet, First, Second, Third;
    PadHasNoValue();
    var t := Encoded(bytes);
    if bytes == [] {
    } else if |bytes| == 1 {
      GroupBits(bytes[0], 0, 0);
      DigitValues(Group(bytes[0], 0, 0));
      BytesBack(bytes[0], 0, 0);
      assert bytes == [bytes[0]];
    } else if |bytes| == 2 {
      GroupBits(bytes[0], bytes[1], 0);
      DigitValues(Group(bytes[0], bytes[1], 0));
      BytesBack(bytes[0], bytes[1], 0);
      assert bytes == [bytes[0], bytes[1]];
    } else {
      GroupBits(bytes[0], bytes[1], bytes[2]);
      DigitValues(Group(bytes[0], bytes[1], bytes[2]));
      BytesBack(bytes[0], bytes[1], bytes[2]);
      DecodeEncode(bytes[3..]);
      assert t[4..] == Encoded(bytes[3..]);
      assert bytes == [bytes[0], bytes[1], bytes[2]] + bytes[3..];
    }
  }

  /** The decoded bytes are the string again exactly when each of its code units fits a byte. */
  lemma RoundTrip(e: Str)
    ensures Decoded(Encoded(LowBytes(e))) == Some(LowBytes(e))
    ensures |Encoded(LowBytes(e))| == (|e| + 2) / 3 * 4
    ensures LowBytes(e) == e <==> forall i :: 0 <= i < |e| ==> e[i] < 256
  {
    hide Encoded, Decoded;
    DecodeEncode(LowBytes(e));
    EncodedLength(LowBytes(e));
    if forall i :: 0 <= i < |e| ==> e[i] < 256 {
      assert forall i :: 0 <= i < |e| ==> LowBytes(e)[i] == e[i];
    } else {
      var i :| 0 <= i < |e| && e[i] >= 256;
      assert LowBytes(e)[i] != e[i];
    }
  }
}
