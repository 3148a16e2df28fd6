/** The little-endian base-128 numbers of include/fastgit/pack.h: seven bits a byte, the top
    bit set on every byte but the last. */
module Varint {
  import opened Bytes

  /** What the encoder writes. */
  function Encode(v: nat): (r: bytes)
    ensures |r| >= 1
  {
    if v >= 0x80 then [v % 0x80 + 0x80] + Encode(v / 0x80) else [v]
  }

  /** Bytes up to and including the first one without the continuation bit; 0 if there is none. */
  function Length(s: bytes): (n: nat)
    ensures n <= |s|
  {
    if s == [] then 0
    else if s[0] < 0x80 then 1
    else var n := Length(s[1..]); if n == 0 then 0 else n + 1
  }

  /** The number the groups up to the terminator (or the end) spell. */
  function Value(s: bytes): nat {
    if s == [] then 0
    else if s[0] < 0x80 then s[0]
    else s[0] - 0x80 + 0x80 * Value(s[1..])
  }

  /** Group i holds the bits from 7 * i on; every byte but the last has the continuation bit. */
  lemma {:induction false} EncodeAt(v: nat, i: nat)
    requires i < |Encode(v)|
    ensures Encode(v)[i] % 0x80 == v / Power(0x80, i) % 0x80
    ensures Encode(v)[i] >= 0x80 <==> i < |Encode(v)| - 1
    ensures |Encode(v)| > 1 ==> Encode(v)[|Encode(v)| - 1] != 0
    decreases v, i
  {
    if v >= 0x80 {
      if i > 0 {
        EncodeAt(v / 0x80, i - 1);
        PowerDiv(v, 0x80, i);
      } else {
        EncodeAt(v / 0x80, 0);
      }
      if |Encode(v / 0x80)| == 1 { assert v / 0x80 > 0; }
    }
  }

  /** Parsing what was printed, whatever follows it, gives the number back. */
  lemma {:induction false} RoundTrip(v: nat, rest: bytes)
    ensures Length(Encode(v) + rest) == |Encode(v)|
    ensures Value(Encode(v) + rest) == v
  {
    var s := Encode(v) + rest;
    if v >= 0x80 {
      RoundTrip(v / 0x80, rest);
      assert s[1..] == Encode(v / 0x80) + rest;
    }
  }

  /** A 64-bit value takes at most the ten bytes its callers reserve. */
  lemma {:induction false} EncodedLength64(v: nat)
    requires v < TWO64
    ensures |Encode(v)| <= 10
  {
    var v1 := v / 0x80;
    var v2 := v1 / 0x80;
    var v3 := v2 / 0x80;
    var v4 := v3 / 0x80;
    var v5 := v4 / 0x80;
    var v6 := v5 / 0x80;
    var v7 := v6 / 0x80;
    var v8 := v7 / 0x80;
    assert v8 < 0x100;
    var v9 := v8 / 0x80;
    assert |Encode(v9)| == 1;
    assert |Encode(v7)| <= 3;
    assert |Encode(v5)| <= 5;
    assert |Encode(v3)| <= 7;
    assert |Encode(v1)| <= 9;
  }

  method EncodeVarint(value: nat) returns (buf: bytes)
    requires value < TWO64
    ensures buf == Encode(value) && |buf| <= 10
  {
    hide Encode;
    var val := value;
    buf := [];
    while val >= 0x80
      invariant buf + Encode(val) == Encode(value)
    {
      EncodeStep(buf, val);
      buf := buf + [val % 0x80 + 0x80];
      val := val / 0x80;
    }
    EncodeLast(val);
    buf := buf + [val];
    EncodedLength64(value);
  }

  lemma EncodeStep(buf: bytes, val: nat)
    requires val >= 0x80
    ensures buf + Encode(val) == buf + [val % 0x80 + 0x80] + Encode(val / 0x80)
  {
  }

  lemma EncodeLast(val: nat)
    requires val < 0x80
    ensures Encode(val) == [val]
  {
  }

  /** The number the groups spell when the first one counts `scale`. */
  function Scaled(s: bytes, scale: nat): nat {
    if s == [] then 0
    else if s[0] < 0x80 then s[0] * scale
    else (s[0] - 0x80) * scale + Scaled(s[1..], 0x80 * scale)
  }

  lemma {:induction false} ScaledValue(s: bytes, scale: nat)
    ensures Scaled(s, scale) == Value(s) * scale
  {
    if s != [] && s[0] >= 0x80 {
      ScaledValue(s[1..], 0x80 * scale);
      Distribute(s[0] - 0x80, Value(s[1..]), scale);
    }
  }

  lemma {:induction false} Distribute(g: int, v: int, scale: int)
    ensures (g + 0x80 * v) * scale == g * scale + v * (0x80 * scale)
  {
  }

  /** One turn of a decoding loop at position i. */
  lemma {:induction false} Peel(buf: bytes, i: nat, shift: nat)
    requires i < |buf|
    ensures Scaled(buf[i..], Pow2(shift))
         == buf[i] % 0x80 * Pow2(shift) + if buf[i] < 0x80 then 0 else Scaled(buf[i + 1..], Pow2(shift + 7))
    ensures Length(buf[i..])
         == if buf[i] < 0x80 then 1 else if Length(buf[i + 1..]) == 0 then 0 else Length(buf[i + 1..]) + 1
  {
    var tail := buf[i..];
    assert tail[1..] == buf[i + 1..];
    Pow2Step7(shift);
  }

  /** The loop of the decoder. A 64-bit accumulator keeps the value modulo 2^64. */
  method DecodeVarint(buf: bytes) returns (n: nat, out: nat)
    ensures n == Length(buf)
    ensures n > 0 ==> out == Value(buf) % TWO64
  {
    hide Length, Value, Scaled, Pow2;
    var val, shift, i := 0, 0, 0;
    ghost var exact: nat := 0;
    Start(buf, i, shift);
    while i < |buf|
      invariant 0 <= i <= |buf|
      invariant val == exact % TWO64
      invariant Value(buf) == exact + Scaled(buf[i..], Pow2(shift))
      invariant Length(buf) == if Length(buf[i..]) == 0 then 0 else i + Length(buf[i..])
    {
      Peel(buf, i, shift);
      var group := buf[i] % 0x80 * Pow2(shift);
      MulNat(buf[i] % 0x80, Pow2(shift));
      ModAdd(exact, group, TWO64);
      val := (val + group) % TWO64;
      exact := exact + group;
      if buf[i] < 0x80 {
        return i + 1, val;
      }
      shift := shift + 7;
      i := i + 1;
    }
    Ended(buf, i);
    n, out := 0, 0;
  }

  lemma Start(buf: bytes, i: nat, shift: nat)
    requires i == 0 && shift == 0
    ensures Value(buf) == Scaled(buf[i..], Pow2(shift)) && buf[i..] == buf
  {
    ScaledValue(buf, 1);
  }

  lemma Ended(buf: bytes, i: nat)
    requires i == |buf|
    ensures Length(buf[i..]) == 0 && forall scale :: Scaled(buf[i..], scale) == 0
  {
  }
}
