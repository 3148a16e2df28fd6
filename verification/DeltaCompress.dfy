/** The match-finding delta compressor of src/pack/delta.c. */
module DeltaCompress {
  import opened Bytes
  import opened Delta
  import Varint

  const MAX_LITERAL := 127
  const MAX_MATCH := 0x10000
  const BUCKETS := 0x4000
  const MULTIPLIER := 2654435761
  const MAX_VISITS := 32

  // ----- the bucket argument -----

  /** The four bytes at i as a big-endian 32-bit word. */
  function Word(s: bytes, i: nat): (w: nat)
    requires i + 4 <= |s|
    ensures w < TWO32
  {
    0x100_0000 * (s[i] as int) + 0x1_0000 * (s[i + 1] as int) + 0x100 * (s[i + 2] as int) + s[i + 3]
  }

  /** The top 14 bits of the 32-bit product. */
  function Bucket(w: nat): (h: nat)
    ensures h < BUCKETS
  {
    w * MULTIPLIER % TWO32 / 0x4_0000
  }

  /** The multiplier is odd, so with the low three bytes fixed the top byte of the product, and with it
      the bucket, is injective in the first byte. */
  lemma {:induction false} BucketDecidesFirstByte(x: byte, y: byte, low: nat)
    requires low < TWO24
    requires Bucket(0x100_0000 * x + low) == Bucket(0x100_0000 * y + low)
    ensures x == y
  {
    var p, q := (x * 0x100_0000 + low) * MULTIPLIER, (y * 0x100_0000 + low) * MULTIPLIER;
    var k := p / TWO32 - q / TWO32;
    assert p % TWO32 - q % TWO32 == (x - y) * 0x100_0000 * MULTIPLIER - k * TWO32;
    var j := (x - y) * MULTIPLIER - 0x100 * k;
    assert p % TWO32 - q % TWO32 == 0x100_0000 * j;
    assert j == 0;
    // 177 * 81 == 56 * 256 + 1 inverts the multiplier modulo 256
    assert MULTIPLIER == 177 + 0x100 * 10368889;
    assert (x - y) == 0x100 * (81 * (k - (x - y) * 10368889) - 56 * (x - y));
  }

  /** What the match loop compares: bytes 1..3 and, through the bucket, byte 0. */
  lemma FourBytesMatch(b: bytes, i: nat, t: bytes, j: nat)
    requires i + 4 <= |b| && j + 4 <= |t|
    requires Bucket(Word(b, i)) == Bucket(Word(t, j))
    requires b[i + 1] == t[j + 1] && b[i + 2] == t[j + 2] && b[i + 3] == t[j + 3]
    ensures b[i] == t[j]
  {
    var low: int := 0x1_0000 * (b[i + 1] as int) + 0x100 * (b[i + 2] as int) + b[i + 3];
    BucketDecidesFirstByte(b[i], t[j], low);
  }

  // ----- printing instructions -----

  function Opt(x: byte): (r: bytes)
    ensures |r| <= 1
  {
    if x == 0 then [] else [x]
  }

  function Flag(x: byte, w: nat): nat {
    if x == 0 then 0 else w
  }

  function Byte(x: nat, w: nat): byte
    requires w > 0
  {
    x / w % 0x100
  }

  function CopyCommand(off: nat, len: nat): (c: byte)
    ensures c >= 0x80
  {
    0x80 + Flag(Byte(off, 0x1), 0x01) + Flag(Byte(off, 0x100), 0x02) + Flag(Byte(off, 0x10000), 0x04)
         + Flag(Byte(off, 0x1000000), 0x08)
         + Flag(Byte(len, 0x1), 0x10) + Flag(Byte(len, 0x100), 0x20) + (if len == MAX_MATCH then 0x40 else 0)
  }

  /** The size operands of a copy command. */
  function SizeBytes(len: nat): bytes {
    if len == MAX_MATCH then [0] else Opt(Byte(len, 0x1)) + Opt(Byte(len, 0x100))
  }

  /** The copy instruction for a match of at most 0x10000 bytes; that length is printed as a single 0 byte. */
  function EncodeCopy(off: nat, len: nat): bytes {
    [CopyCommand(off, len)] + (Opt(Byte(off, 0x1)) + (Opt(Byte(off, 0x100)) + (Opt(Byte(off, 0x10000)) +
      (Opt(Byte(off, 0x1000000)) + SizeBytes(len)))))
  }

  /** Reading one printed operand. */
  lemma {:induction false} ReadOpt(cmd: nat, w: nat, k: nat, x: byte, rest: bytes)
    requires w > 0 && k > 0
    requires Has(cmd, w) == (x != 0)
    ensures ReadNumber(cmd, w, k, Opt(x) + rest) == Under(x, ReadNumber(cmd, 2 * w, k - 1, rest))
  {
    var a := Opt(x) + rest;
    if x == 0 {
      assert a == rest;
    } else {
      assert a[1..] == rest;
    }
  }

  /** The command byte tells which operands were printed. */
  lemma {:induction false} CommandBits(off: nat, len: nat)
    requires len <= MAX_MATCH
    ensures var c := CopyCommand(off, len);
      && Has(c, 0x01) == (Byte(off, 0x1) != 0) && Has(c, 0x02) == (Byte(off, 0x100) != 0)
      && Has(c, 0x04) == (Byte(off, 0x10000) != 0) && Has(c, 0x08) == (Byte(off, 0x1000000) != 0)
      && Has(c, 0x10) == (Byte(len, 0x1) != 0) && Has(c, 0x20) == (Byte(len, 0x100) != 0)
      && Has(c, 0x40) == (len == MAX_MATCH)
  {
    hide Byte, Flag, Has;
    FlagWeight(Byte(off, 0x1), 0x01);
    FlagWeight(Byte(off, 0x100), 0x02);
    FlagWeight(Byte(off, 0x10000), 0x04);
    FlagWeight(Byte(off, 0x1000000), 0x08);
    FlagWeight(Byte(len, 0x1), 0x10);
    FlagWeight(Byte(len, 0x100), 0x20);
    var f0, f1, f2, f3 := Flag(Byte(off, 0x1), 1), Flag(Byte(off, 0x100), 1), Flag(Byte(off, 0x10000), 1),
      Flag(Byte(off, 0x1000000), 1);
    var g0, g1, g2 := Flag(Byte(len, 0x1), 1), Flag(Byte(len, 0x100), 1), if len == MAX_MATCH then 1 else 0;
    var c := CopyCommand(off, len);
    SevenBits(c, f0, f1, f2, f3, g0, g1, g2);
    HasBit(c, 0x01, f0);
    HasBit(c, 0x02, f1);
    HasBit(c, 0x04, f2);
    HasBit(c, 0x08, f3);
    HasBit(c, 0x10, g0);
    HasBit(c, 0x20, g1);
    HasBit(c, 0x40, g2);
  }

  lemma FlagWeight(x: byte, w: nat)
    ensures Flag(x, w) == w * Flag(x, 1) && Flag(x, 1) <= 1 && (Flag(x, 1) == 1 <==> x != 0)
  {
  }

  lemma HasBit(x: nat, w: nat, bit: nat)
    requires w > 0 && bit <= 1 && x / w % 2 == bit
    ensures Has(x, w) == (bit == 1)
  {
  }

  lemma {:induction false} SevenBits(x: nat, a: nat, b: nat, c: nat, d: nat, e: nat, f: nat, g: nat)
    requires a <= 1 && b <= 1 && c <= 1 && d <= 1 && e <= 1 && f <= 1 && g <= 1
    requires x == 0x80 + a + 2 * b + 4 * c + 8 * d + 0x10 * e + 0x20 * f + 0x40 * g
    ensures x / 1 % 2 == a && x / 2 % 2 == b && x / 4 % 2 == c && x / 8 % 2 == d
    ensures x / 0x10 % 2 == e && x / 0x20 % 2 == f && x / 0x40 % 2 == g
  {
    assert x / 2 == 0x40 + b + 2 * c + 4 * d + 8 * e + 0x10 * f + 0x20 * g;
    assert x / 4 == 0x20 + c + 2 * d + 4 * e + 8 * f + 0x10 * g;
    assert x / 8 == 0x10 + d + 2 * e + 4 * f + 8 * g;
    assert x / 0x10 == 8 + e + 2 * f + 4 * g;
    assert x / 0x20 == 4 + f + 2 * g;
    assert x / 0x40 == 2 + g;
  }

  lemma {:induction false} ReadTwo(c: nat, w: nat, k: nat, x0: byte, x1: byte, rest: bytes)
    requires w > 0 && k >= 2
    requires Has(c, w) == (x0 != 0) && Has(c, 2 * w) == (x1 != 0)
    ensures ReadNumber(c, w, k, Opt(x0) + (Opt(x1) + rest)) == Under(x0, Under(x1, ReadNumber(c, 4 * w, k - 2, rest)))
  {
    hide ReadNumber, Opt;
    ReadOpt(c, w, k, x0, Opt(x1) + rest);
    ReadOpt(c, 2 * w, k - 1, x1, rest);
  }

  lemma {:induction false} ReadFour(c: nat, x0: byte, x1: byte, x2: byte, x3: byte, rest: bytes)
    requires Has(c, 0x01) == (x0 != 0) && Has(c, 0x02) == (x1 != 0)
    requires Has(c, 0x04) == (x2 != 0) && Has(c, 0x08) == (x3 != 0)
    ensures ReadNumber(c, 0x01, 4, Opt(x0) + (Opt(x1) + (Opt(x2) + (Opt(x3) + rest))))
         == Number(x0 + 0x100 * x1 + 0x10000 * x2 + 0x1000000 * x3, rest)
  {
    hide ReadNumber, Opt;
    var r := Opt(x2) + (Opt(x3) + rest);
    ReadTwo(c, 0x01, 4, x0, x1, r);
    ReadTwo(c, 0x04, 2, x2, x3, rest);
    ReadNone(c, 0x10, rest);
    assert ReadNumber(c, 0x04, 2, r) == Number(x2 + 0x100 * x3, rest);
  }

  lemma {:induction false} FourBytes(x: nat)
    requires x < TWO32
    ensures x == Byte(x, 0x1) + 0x100 * Byte(x, 0x100) + 0x10000 * Byte(x, 0x10000) + 0x1000000 * Byte(x, 0x1000000)
  {
    var a := x / 0x100;
    var b := a / 0x100;
    var c := b / 0x100;
    DivDiv(x, 0x100, 0x100);
    DivDiv(x, 0x10000, 0x100);
    assert c < 0x100 && c % 0x100 == c;
    assert x == 0x100 * a + x % 0x100 && a == 0x100 * b + a % 0x100 && b == 0x100 * c + b % 0x100;
  }

  lemma {:induction false} ReadSize(off: nat, len: nat, rest: bytes)
    requires len <= MAX_MATCH
    ensures ReadNumber(CopyCommand(off, len), 0x10, 3,
              SizeBytes(len) + rest)
         == Number(if len == MAX_MATCH then 0 else len, rest)
  {
    hide CopyCommand, Has, Byte, ReadNumber, Opt;
    var c := CopyCommand(off, len);
    CommandBits(off, len);
    SizeIsTwoBytes(len);
    ReadNone(c, 0x80, rest);
    if len == MAX_MATCH {
      var a := [0] + rest;
      assert a[1..] == rest;
      ReadTake(c, 0x40, 1, a);
      ReadSkip(c, 0x20, 2, a);
      ReadSkip(c, 0x10, 3, a);
    } else {
      var r1 := Opt(Byte(len, 0x100)) + rest;
      ReadSkip(c, 0x40, 1, rest);
      ReadOpt(c, 0x20, 2, Byte(len, 0x100), rest);
      ReadOpt(c, 0x10, 3, Byte(len, 0x1), r1);
      assert Opt(Byte(len, 0x1)) + r1 == Opt(Byte(len, 0x1)) + Opt(Byte(len, 0x100)) + rest;
    }
  }

  lemma ReadSkip(cmd: nat, w: nat, k: nat, a: bytes)
    requires w > 0 && k > 0 && !Has(cmd, w)
    ensures ReadNumber(cmd, w, k, a) == Under(0, ReadNumber(cmd, 2 * w, k - 1, a))
  {
    hide Has;
  }

  lemma ReadTake(cmd: nat, w: nat, k: nat, a: bytes)
    requires w > 0 && k > 0 && Has(cmd, w) && a != []
    ensures ReadNumber(cmd, w, k, a) == Under(a[0], ReadNumber(cmd, 2 * w, k - 1, a[1..]))
  {
    hide Has;
  }

  lemma SizeIsTwoBytes(len: nat)
    requires len <= MAX_MATCH
    ensures
      if len == MAX_MATCH then Byte(len, 0x1) == Byte(len, 0x100) == 0
      else Byte(len, 0x1) + 0x100 * Byte(len, 0x100) == len
  {
  }

  /** Decoding a printed copy gives the copy back, the 0x10000 wrap included. */
  lemma {:induction false} CopyRoundTrip(off: nat, len: nat, rest: bytes)
    requires off < TWO32 && 0 < len <= MAX_MATCH
    ensures Decode(EncodeCopy(off, len) + rest) == Copy(off, len, rest)
    ensures 1 <= |EncodeCopy(off, len)| <= 7
  {
    hide ReadNumber, Opt, CopyCommand, Byte;
    var c := CopyCommand(off, len);
    var x0, x1, x2, x3 := Byte(off, 0x1), Byte(off, 0x100), Byte(off, 0x10000), Byte(off, 0x1000000);
    var size := SizeBytes(len);
    CommandBits(off, len);
    FourBytes(off);
    ReadSize(off, len, rest);
    ReadFour(c, x0, x1, x2, x3, size + rest);
    Reassociate(c, x0, x1, x2, x3, size, rest);
  }

  lemma {:induction false} Reassociate(c: byte, x0: byte, x1: byte, x2: byte, x3: byte, size: bytes, rest: bytes)
    ensures var d := [c] + (Opt(x0) + (Opt(x1) + (Opt(x2) + (Opt(x3) + size))));
            && (d + rest)[1..] == Opt(x0) + (Opt(x1) + (Opt(x2) + (Opt(x3) + (size + rest))))
            && (d + rest)[0] == c && |d| <= 5 + |size|
  {
    hide Opt;
    var r3 := Opt(x3) + size;
    var r2 := Opt(x2) + r3;
    var r1 := Opt(x1) + r2;
    var r0 := Opt(x0) + r1;
    assert ([c] + r0 + rest)[1..] == r0 + rest;
    assert r0 + rest == Opt(x0) + (r1 + rest);
    assert r1 + rest == Opt(x1) + (r2 + rest);
    assert r2 + rest == Opt(x2) + (r3 + rest);
    assert r3 + rest == Opt(x3) + (size + rest);
  }

  // ----- appending instructions -----

  /** What one valid command does, split off the rest of the stream. */
  ghost predicate Begins(base: bytes, d: bytes, out: bytes, o: bytes, rest: bytes)
    requires d != []
  {
    match Decode(d)
    case Copy(off, size, r) => off + size <= |base| && o == out + base[off..off + size] && rest == r
    case Insert(n, r) => n <= |r| && o == out + r[..n] && rest == r[n..]
    case _ => false
  }

  lemma BeginExec(base: bytes, d: bytes, out: bytes, o: bytes, rest: bytes)
    requires d != [] && Begins(base, d, out, o, rest)
    ensures Exec(base, d, out) == Exec(base, rest, o)
  {
  }

  lemma {:induction false} BeginAppend(base: bytes, d: bytes, e: bytes, out: bytes, o: bytes, rest: bytes)
    requires d != [] && Begins(base, d, out, o, rest)
    ensures Begins(base, d + e, out, o, rest + e)
  {
    DecodeAppend(d, e);
    if Decode(d).Insert? {
      var n, r := Decode(d).n, Decode(d).rest;
      assert (r + e)[n..] == r[n..] + e && (r + e)[..n] == r[..n];
    }
  }

  lemma {:induction false} Begin(base: bytes, d: bytes, out: bytes) returns (o: bytes, rest: bytes)
    requires d != [] && Exec(base, d, out).Some?
    ensures Begins(base, d, out, o, rest) && |rest| < |d|
  {
    match Decode(d)
    case Copy(off, size, r) => o, rest := out + base[off..off + size], r;
    case Insert(n, r) => o, rest := out + r[..n], r[n..];
  }

  /** The meaning of a stream composes. */
  lemma {:induction false} ExecAppend(base: bytes, d: bytes, e: bytes, out: bytes)
    requires Exec(base, d, out).Some?
    ensures Exec(base, d + e, out) == Exec(base, e, Exec(base, d, out).value)
    decreases |d|
  {
    if d == [] {
      assert d + e == e;
    } else {
      var o, rest := Begin(base, d, out);
      BeginExec(base, d, out, o, rest);
      BeginAppend(base, d, e, out, o, rest);
      BeginExec(base, d + e, out, o, rest + e);
      ExecAppend(base, rest, e, o);
    }
  }

  /** One valid command in front of anything, within the announced length. */
  lemma BeginPerform(base: bytes, d: bytes, out: bytes, o: bytes, rest: bytes, dst: nat)
    requires d != [] && Begins(base, d, out, o, rest) && |o| <= dst && |rest| < |d|
    ensures Perform(base, d, out, dst) == Appended(o, rest)
  {
    hide DecodeCopy;
    match Decode(d)
    case Copy(off, size, r) => assert (off + size) % TWO32 <= off + size;
    case Insert(n, r) =>
  }

  /** The lenient applier executes until the output is full or the delta is used up; what follows is left. A
      delta that ends early is accepted with a short output. */
  lemma {:induction false} LenientMeans(base: bytes, a: bytes, b: bytes, out: bytes, dst: nat)
    requires Exec(base, a, out).Some? && |Exec(base, a, out).value| <= dst
    requires b == [] || |Exec(base, a, out).value| == dst
    ensures LenientRun(base, a + b, out, dst) == Done(Exec(base, a, out).value, b)
    decreases |a|
  {
    hide Perform;
    if a == [] {
      assert a + b == b;
    } else {
      var o, rest := Begin(base, a, out);
      BeginExec(base, a, out, o, rest);
      BeginAppend(base, a, b, out, o, rest);
      ExecGrows(base, a, out);
      ExecGrows(base, rest, o);
      BeginPerform(base, a + b, out, o, rest + b, dst);
      LenientMeans(base, rest, b, o, dst);
    }
  }

  /** The inlined one stops at a reserved command, whatever has been produced. */
  lemma {:induction false} InlineMeans(base: bytes, a: bytes, b: bytes, out: bytes, dst: nat)
    requires Exec(base, a, out).Some? && |Exec(base, a, out).value| <= dst && (b == [] || b[0] == 0)
    ensures InlineRun(base, a + b, out, dst) == Done(Exec(base, a, out).value, b)
    decreases |a|
  {
    if a == [] {
      assert a + b == b;
    } else {
      hide Perform;
      var o, rest := Begin(base, a, out);
      BeginExec(base, a, out, o, rest);
      BeginAppend(base, a, b, out, o, rest);
      ExecGrows(base, rest, o);
      BeginPerform(base, a + b, out, o, rest + b, dst);
      InlineMeans(base, rest, b, o, dst);
    }
  }

  /** A copy cut short: the strict and the lenient applier fail, the inlined one reads past the delta. */
  lemma {:induction false} CutShort(base: bytes, cmd: byte, out: bytes, dst: nat)
    requires cmd > 0x80 && |out| < dst
    ensures StrictRun(base, [cmd], out, dst) == Failed && LenientRun(base, [cmd], out, dst) == Failed
    ensures InlineRun(base, [cmd], out, dst) == OutOfBounds
  {
    hide Decode;
    OthersMean(cmd, []);
    assert [cmd] + [] == [cmd];
  }

  lemma {:induction false} DecodeAppend(d: bytes, e: bytes)
    requires d != [] && (Decode(d).Copy? || Decode(d).Insert?)
    ensures Decode(d + e) == match Decode(d)
              case Copy(off, size, rest) => Copy(off, size, rest + e)
              case Insert(n, rest) => Insert(n, rest + e)
  {
    assert (d + e)[1..] == d[1..] + e;
    if d[0] >= 0x80 {
      ReadAppend(d[0], 0x01, 4, d[1..], e);
      ReadAppend(d[0], 0x10, 3, ReadNumber(d[0], 0x01, 4, d[1..]).rest, e);
    }
  }

  lemma {:induction false} ReadAppend(cmd: nat, w: nat, k: nat, a: bytes, e: bytes)
    requires w > 0 && ReadNumber(cmd, w, k, a).Number?
    ensures ReadNumber(cmd, w, k, a + e) == Number(ReadNumber(cmd, w, k, a).value, ReadNumber(cmd, w, k, a).rest + e)
    decreases k
  {
    if k > 0 {
      if Has(cmd, w) {
        assert (a + e)[1..] == a[1..] + e;
        ReadAppend(cmd, 2 * w, k - 1, a[1..], e);
      } else {
        ReadAppend(cmd, 2 * w, k - 1, a, e);
      }
    }
  }

  lemma {:induction false} AppendCopy(base: bytes, d: bytes, out: bytes, off: nat, len: nat)
    requires Exec(base, d, []) == Some(out)
    requires off < TWO32 && 0 < len <= MAX_MATCH && off + len <= |base|
    ensures Exec(base, d + EncodeCopy(off, len), []) == Some(out + base[off..off + len])
  {
    hide DecodeCopy, EncodeCopy, CopyCommand;
    var e := EncodeCopy(off, len);
    ExecAppend(base, d, e, []);
    CopyRoundTrip(off, len, []);
    assert e + [] == e;
    assert Exec(base, [], out + base[off..off + len]) == Some(out + base[off..off + len]);
  }

  lemma {:induction false} AppendInsert(base: bytes, d: bytes, out: bytes, lit: bytes)
    requires Exec(base, d, []) == Some(out)
    requires 0 < |lit| <= MAX_LITERAL
    ensures Exec(base, d + ([|lit|] + lit), []) == Some(out + lit)
  {
    var e := [|lit|] + lit;
    ExecAppend(base, d, e, []);
    assert e[1..] == lit && lit[|lit|..] == [] && lit[..|lit|] == lit;
    assert Exec(base, [], out + lit) == Some(out + lit);
  }

  // ----- match finding -----

  /** Length of the common run of b from i and t from j. */
  function Common(b: bytes, i: nat, t: bytes, j: nat): (n: nat)
    requires i <= |b| && j <= |t|
    ensures i + n <= |b| && j + n <= |t|
    decreases |b| - i
  {
    if i < |b| && j < |t| && b[i] == t[j] then 1 + Common(b, i + 1, t, j + 1) else 0
  }

  /** The usable length of a match: capped at 0x10000, and nothing under four bytes. */
  function MatchLength(b: bytes, i: nat, t: bytes, j: nat): (n: nat)
    requires i <= |b| && j <= |t|
    ensures n <= |t| - j && n <= MAX_MATCH
  {
    var n := Common(b, i, t, j);
    if n < 4 then 0 else Min(n, MAX_MATCH)
  }

  /** The usable length is exactly this: as far as the bytes agree, at most 0x10000, and zero unless four do. */
  lemma {:induction false} MatchExact(b: bytes, i: nat, t: bytes, j: nat)
    requires i <= |b| && j <= |t|
    ensures var n := MatchLength(b, i, t, j);
      if n == 0 then i + 4 > |b| || j + 4 > |t| || b[i..i + 4] != t[j..j + 4]
      else
        && 4 <= n <= 0x1_0000 && i + n <= |b| && j + n <= |t| && b[i..i + n] == t[j..j + n]
        && (n == 0x1_0000 || i + n == |b| || j + n == |t| || b[i + n] != t[j + n])
  {
    var n := Common(b, i, t, j);
    CommonSlices(b, i, t, j, n);
    CommonStops(b, i, t, j);
    assert b[i..i + n] == t[j..j + n];
    if i + 4 <= |b| && j + 4 <= |t| && b[i..i + 4] == t[j..j + 4] { FourCommon(b, i, t, j); }
    if n >= 4 { CommonSlices(b, i, t, j, Min(n, MAX_MATCH)); }
    if n > MAX_MATCH { assert MatchLength(b, i, t, j) == MAX_MATCH; }
  }

  lemma FourCommon(b: bytes, i: nat, t: bytes, j: nat)
    requires i + 4 <= |b| && j + 4 <= |t| && b[i..i + 4] == t[j..j + 4]
    ensures Common(b, i, t, j) >= 4
  {
    var x, y := b[i..i + 4], t[j..j + 4];
    assert x[0] == y[0] && x[1] == y[1] && x[2] == y[2] && x[3] == y[3];
    assert Common(b, i + 2, t, j + 2) >= 2;
  }

  lemma {:induction false} CommonStops(b: bytes, i: nat, t: bytes, j: nat)
    requires i <= |b| && j <= |t|
    ensures var n := Common(b, i, t, j); i + n == |b| || j + n == |t| || b[i + n] != t[j + n]
    decreases |b| - i
  {
    if i < |b| && j < |t| && b[i] == t[j] { CommonStops(b, i + 1, t, j + 1); }
  }

  /** How many positions of the base from p on are in a bucket. */
  function LaterFrom(b: bytes, h: nat, p: nat): nat
    decreases |b| - p
  {
    if p + 4 > |b| then 0 else (if Bucket(Word(b, p)) == h then 1 else 0) + LaterFrom(b, h, p + 1)
  }

  /** No match at tpos is longer than n, but for positions with 32 or more later ones in their bucket. */
  ghost predicate Best(b: bytes, t: bytes, tpos: nat, n: nat)
    requires tpos + 4 <= |t|
  {
    forall i | 0 <= i && i + 4 <= |b| && MatchLength(b, i, t, tpos) > n ::
      LaterFrom(b, Bucket(Word(b, i)), i + 1) >= 32
  }

  /** Bucket chains over the first n positions of the base: every link stays in its bucket and goes back. */
  ghost predicate Chains(b: bytes, head: seq<int>, nxt: seq<int>, n: nat)
    requires n + 3 <= |b|
  {
    && |head| == BUCKETS && |nxt| == |b|
    && (forall h :: 0 <= h < BUCKETS ==> -1 <= head[h] < n && (head[h] >= 0 ==> Bucket(Word(b, head[h])) == h))
    && (forall i :: 0 <= i < n ==> -1 <= nxt[i] < i && (nxt[i] >= 0 ==> Bucket(Word(b, nxt[i])) == Bucket(Word(b, i))))
  }

  /** The chains miss nothing: a head is the last position of its bucket before n, a link the last one of the
      same bucket before its position. */
  ghost predicate Complete(b: bytes, head: seq<int>, nxt: seq<int>, n: nat)
    requires n + 3 <= |b| && |head| == BUCKETS && |nxt| == |b|
  {
    && (forall h, j :: 0 <= h < BUCKETS && 0 <= j < n && j > head[h] ==> Bucket(Word(b, j)) != h)
    && (forall i, j :: 0 <= i < n && 0 <= j < i && j > nxt[i] ==> Bucket(Word(b, j)) != Bucket(Word(b, i)))
  }

  /** The finished table: positions too close to the end of the base are on no chain. */
  ghost predicate Table(b: bytes, head: seq<int>, nxt: seq<int>) {
    && 4 <= |b| && Chains(b, head, nxt, |b| - 3) && Complete(b, head, nxt, |b| - 3)
    && forall i :: |b| - 3 <= i < |b| ==> nxt[i] == -1
  }

  /** The k-th position on the chain from `at`, or -1 past its end. */
  function Nth(nxt: seq<int>, at: int, k: nat): (r: int)
    requires -1 <= at < |nxt| && forall i :: 0 <= i < |nxt| ==> -1 <= nxt[i] < |nxt|
    ensures -1 <= r < |nxt|
    decreases k
  {
    if k == 0 || at == -1 then at else Nth(nxt, nxt[at], k - 1)
  }

  /** Putting position i in front of its chain. */
  lemma ChainStep(b: bytes, head: seq<int>, nxt: seq<int>, i: nat)
    requires i + 4 <= |b| && Chains(b, head, nxt, i) && Complete(b, head, nxt, i)
    ensures var h := Bucket(Word(b, i));
      Chains(b, head[h := i], nxt[i := head[h]], i + 1) && Complete(b, head[h := i], nxt[i := head[h]], i + 1)
  {
    hide Bucket, Word;
    InBuckets(Word(b, i));
  }

  lemma InBuckets(w: nat)
    ensures Bucket(w) < BUCKETS
  {
  }

  method BuildChains(b: bytes) returns (head: array<int>, nxt: array<int>)
    requires 4 <= |b|
    ensures fresh(head) && fresh(nxt)
    ensures Table(b, head[..], nxt[..])
  {
    hide Bucket, Word, Chains, Complete;
    head := new int[BUCKETS](_ => -1);
    nxt := new int[|b|](_ => -1);
    NoChains(b, head[..], nxt[..], 0);
    var i := 0;
    while i + 4 <= |b|
      invariant 0 <= i <= |b| - 3 && fresh(head) && fresh(nxt) && head != nxt && head.Length == BUCKETS
        && nxt.Length == |b|
      invariant Chains(b, head[..], nxt[..], i) && Complete(b, head[..], nxt[..], i)
      invariant forall j :: i <= j < |b| ==> nxt[j] == -1
    {
      var h := Bucket(Word(b, i));
      InBuckets(Word(b, i));
      ChainStep(b, head[..], nxt[..], i);
      ghost var heads, links := head[..][h := i], nxt[..][i := head[h]];
      nxt[i] := head[h];
      head[h] := i;
      assert head[..] == heads && nxt[..] == links;
      i := i + 1;
    }
  }

  lemma NoChains(b: bytes, head: seq<int>, nxt: seq<int>, n: nat)
    requires n == 0 && 4 <= |b| && |head| == BUCKETS && |nxt| == |b| && forall h | 0 <= h < BUCKETS :: head[h] == -1
    ensures Chains(b, head, nxt, n) && Complete(b, head, nxt, n)
  {
    hide Bucket, Word;
  }

  /** Extends a four-byte match as far as it goes. */
  method Extend(b: bytes, i: nat, t: bytes, j: nat) returns (ml: nat)
    requires i + 4 <= |b| && j + 4 <= |t|
    requires b[i] == t[j] && b[i + 1] == t[j + 1] && b[i + 2] == t[j + 2] && b[i + 3] == t[j + 3]
    ensures ml == MatchLength(b, i, t, j) && ml >= 4
  {
    ml := 4;
    var maxMl := Min(Min(|b| - i, |t| - j), MAX_MATCH);
    assert Common(b, i, t, j) == 1 + Common(b, i + 1, t, j + 1);
    assert Common(b, i + 2, t, j + 2) == 1 + Common(b, i + 3, t, j + 3);
    while ml < maxMl && b[i + ml] == t[j + ml]
      invariant 4 <= ml <= maxMl
      invariant Common(b, i, t, j) == ml + Common(b, i + ml, t, j + ml)
    {
      ml := ml + 1;
    }
  }

  /** No candidate among the first n of the chain from `at` beats `best`. */
  ghost predicate Unbeaten(b: bytes, t: bytes, tpos: nat, nxt: seq<int>, at: int, n: nat, best: nat)
    requires |nxt| == |b| && tpos <= |t|
    requires -1 <= at < |nxt| && forall i :: 0 <= i < |nxt| ==> -1 <= nxt[i] < |nxt|
  {
    forall k | 0 <= k < n && Nth(nxt, at, k) >= 0 :: MatchLength(b, Nth(nxt, at, k), t, tpos) <= best
  }

  /** The position is among the first n of the chain. */
  ghost predicate OnChain(nxt: seq<int>, at: int, off: nat, n: nat)
    requires -1 <= at < |nxt| && forall i :: 0 <= i < |nxt| ==> -1 <= nxt[i] < |nxt|
  {
    exists k :: 0 <= k < n && off == Nth(nxt, at, k)
  }

  /** The usable match at one chain position; byte 0 is never compared. */
  method Candidate(b: bytes, t: bytes, tpos: nat, pos: nat) returns (ml: nat)
    requires pos + 4 <= |b| && tpos + 4 <= |t|
    requires Bucket(Word(b, pos)) == Bucket(Word(t, tpos))
    ensures ml == MatchLength(b, pos, t, tpos)
  {
    if b[pos + 1] == t[tpos + 1] && b[pos + 2] == t[tpos + 2] && b[pos + 3] == t[tpos + 3] {
      FourBytesMatch(b, pos, t, tpos);
      ml := Extend(b, pos, t, tpos);
    } else {
      if Common(b, pos, t, tpos) >= 4 { CommonBytes(b, pos, t, tpos); }
      ml := 0;
    }
  }

  /** The best match among the first 32 positions on the bucket's chain. */
  method FindMatch(b: bytes, t: bytes, tpos: nat, head: array<int>, nxt: array<int>)
    returns (bestLen: nat, bestOff: nat)
    requires tpos + 4 <= |t| && Table(b, head[..], nxt[..])
    ensures bestOff <= |b|
    ensures bestLen > 0 ==> bestLen == MatchLength(b, bestOff, t, tpos)
    ensures bestLen > 0 ==> OnChain(nxt[..], head[Bucket(Word(t, tpos))], bestOff, 32)
    ensures Unbeaten(b, t, tpos, nxt[..], head[Bucket(Word(t, tpos))], MAX_VISITS, bestLen)
  {
    hide Bucket, Word, MatchLength, Complete;
    bestLen, bestOff := 0, 0;
    var h := Bucket(Word(t, tpos));
    var visits, boff := 0, head[h];
    ghost var chain, at, place: nat := nxt[..], head[h], 0;
    while boff != -1 && visits < MAX_VISITS
      invariant 0 <= visits <= MAX_VISITS && -1 <= boff < |b| - 3
      invariant boff >= 0 ==> Bucket(Word(b, boff)) == h
      invariant boff == Nth(chain, at, visits)
      invariant bestOff <= |b| && (bestLen > 0 ==> bestLen == MatchLength(b, bestOff, t, tpos))
      invariant bestLen > 0 ==> place < visits && bestOff == Nth(chain, at, place)
      invariant Unbeaten(b, t, tpos, chain, at, visits, bestLen)
      decreases MAX_VISITS - visits
    {
      NthStep(chain, at, visits);
      var ml := Candidate(b, t, tpos, boff);
      if ml > bestLen {
        bestLen, bestOff, place := ml, boff, visits;
        if ml >= |t| - tpos || ml == MAX_MATCH {
          assert OnChain(chain, at, bestOff, 32);
          return;
        }
      }
      assert nxt[boff] == chain[boff];
      boff, visits := nxt[boff], visits + 1;
    }
    if bestLen > 0 { assert OnChain(chain, at, bestOff, 32); }
    if visits < MAX_VISITS {
      forall k | visits <= k < MAX_VISITS ensures Nth(chain, at, k) == -1 {
        NthEnd(chain, at, visits, k);
      }
    }
  }

  lemma {:induction false} NthStep(nxt: seq<int>, at: int, k: nat)
    requires -1 <= at < |nxt| && forall i :: 0 <= i < |nxt| ==> -1 <= nxt[i] < |nxt|
    requires Nth(nxt, at, k) >= 0
    ensures Nth(nxt, at, k + 1) == nxt[Nth(nxt, at, k)]
    decreases k
  {
    if k == 0 {
      assert Nth(nxt, nxt[at], 0) == nxt[at];
    } else {
      NthStep(nxt, nxt[at], k - 1);
    }
  }

  lemma {:induction false} NthEnd(nxt: seq<int>, at: int, k: nat, m: nat)
    requires -1 <= at < |nxt| && forall i :: 0 <= i < |nxt| ==> -1 <= nxt[i] < |nxt|
    requires k <= m && Nth(nxt, at, k) == -1
    ensures Nth(nxt, at, m) == -1
    decreases k
  {
    if k > 0 && at != -1 { NthEnd(nxt, nxt[at], k - 1, m - 1); }
  }

  /** r is the last position before p in the bucket, or -1. */
  ghost predicate LastBefore(b: bytes, h: nat, p: nat, r: int)
    requires p + 3 <= |b|
  {
    && -1 <= r < p && (r >= 0 ==> Bucket(Word(b, r)) == h)
    && forall j | r < j < p && j >= 0 :: Bucket(Word(b, j)) != h
  }

  /** From the last position before p + 1 to that before p: the same one, or the next on the chain. */
  lemma OneBefore(b: bytes, head: seq<int>, nxt: seq<int>, h: nat, p: nat, at: int)
    requires Table(b, head, nxt) && p + 4 <= |b| && |nxt| == |b| && LastBefore(b, h, p + 1, at)
    ensures if Bucket(Word(b, p)) == h then at == p && LastBefore(b, h, p, nxt[p]) else LastBefore(b, h, p, at)
  {
    hide Bucket, Word;
  }

  lemma LastOfAll(b: bytes, head: seq<int>, nxt: seq<int>, h: nat, p: nat)
    requires Table(b, head, nxt) && |head| == BUCKETS && h < BUCKETS && p + 3 == |b|
    ensures LastBefore(b, h, p, head[h])
  {
    hide Bucket, Word;
  }

  /** Following the chain as often as there are positions of the bucket from p on leads to the last one before. */
  lemma {:induction false} ChainReaches(b: bytes, head: seq<int>, nxt: seq<int>, h: nat, p: nat)
    requires Table(b, head, nxt) && h < BUCKETS && p + 3 <= |b|
    ensures LastBefore(b, h, p, Nth(nxt, head[h], LaterFrom(b, h, p)))
    decreases |b| - p
  {
    hide Bucket, Word, Table;
    ChainSizes(b, head, nxt);
    if p + 4 <= |b| {
      ChainReaches(b, head, nxt, h, p + 1);
      var at := Nth(nxt, head[h], LaterFrom(b, h, p + 1));
      if Bucket(Word(b, p)) == h { NthStep(nxt, head[h], LaterFrom(b, h, p + 1)); }
      OneBefore(b, head, nxt, h, p, at);
    } else {
      LastOfAll(b, head, nxt, h, p);
    }
  }

  /** What the chain shows is all there is to see. */
  lemma {:induction false} UnbeatenBest(b: bytes, t: bytes, tpos: nat, head: seq<int>, nxt: seq<int>, best: nat)
    requires tpos + 4 <= |t| && Table(b, head, nxt)
    requires Unbeaten(b, t, tpos, nxt, head[Bucket(Word(t, tpos))], MAX_VISITS, best)
    ensures Best(b, t, tpos, best)
  {
    hide Bucket, MatchLength, Table;
    var h := Bucket(Word(t, tpos));
    InBuckets(Word(t, tpos));
    forall i | 0 <= i && i + 4 <= |b| && MatchLength(b, i, t, tpos) > best
      ensures LaterFrom(b, Bucket(Word(b, i)), i + 1) >= MAX_VISITS
    {
      MatchedWord(b, i, t, tpos);
      ChainReaches(b, head, nxt, h, i + 1);
      ChainSizes(b, head, nxt);
    }
  }

  lemma ChainSizes(b: bytes, head: seq<int>, nxt: seq<int>)
    requires Table(b, head, nxt)
    ensures |head| == BUCKETS && |nxt| == |b| && forall i :: 0 <= i < |nxt| ==> -1 <= nxt[i] < |nxt|
    ensures forall h :: 0 <= h < BUCKETS ==> -1 <= head[h] < |nxt|
  {
    hide Bucket, Word;
  }

  lemma {:induction false} MatchedWord(b: bytes, i: nat, t: bytes, j: nat)
    requires i + 4 <= |b| && j + 4 <= |t| && MatchLength(b, i, t, j) > 0
    ensures Word(b, i) == Word(t, j)
  {
    MatchExact(b, i, t, j);
    var n := MatchLength(b, i, t, j);
    assert b[i] == b[i..i + n][0] && b[i + 1] == b[i..i + n][1] && b[i + 2] == b[i..i + n][2];
    assert b[i + 3] == b[i..i + n][3];
  }

  lemma {:induction false} CommonBytes(b: bytes, i: nat, t: bytes, j: nat)
    requires i + 4 <= |b| && j + 4 <= |t| && Common(b, i, t, j) >= 4
    ensures b[i + 1] == t[j + 1] && b[i + 2] == t[j + 2] && b[i + 3] == t[j + 3]
  {
    assert Common(b, i + 1, t, j + 1) >= 3;
    assert Common(b, i + 2, t, j + 2) >= 2;
    assert Common(b, i + 3, t, j + 3) >= 1;
  }

  lemma {:induction false} CommonSlices(b: bytes, i: nat, t: bytes, j: nat, n: nat)
    requires i <= |b| && j <= |t| && n <= Common(b, i, t, j)
    ensures b[i..i + n] == t[j..j + n]
    decreases n
  {
    if n > 0 {
      CommonSlices(b, i + 1, t, j + 1, n - 1);
      assert b[i..i + n] == [b[i]] + b[i + 1..i + n];
      assert t[j..j + n] == [t[j]] + t[j + 1..j + n];
    }
  }

  // ----- the compressor -----

  method CommandByte(off: nat, len: nat) returns (cmd: byte)
    requires 0 < len <= MAX_MATCH
    ensures cmd == CopyCommand(off, len)
  {
    var c := 0x80;
    if Byte(off, 0x1) != 0 { c := c + 0x01; }
    if Byte(off, 0x100) != 0 { c := c + 0x02; }
    if Byte(off, 0x10000) != 0 { c := c + 0x04; }
    if Byte(off, 0x1000000) != 0 { c := c + 0x08; }
    if Byte(len, 0x1) != 0 { c := c + 0x10; }
    if Byte(len, 0x100) != 0 { c := c + 0x20; }
    if Byte(len, 0x10000) != 0 { c := c + 0x40; }
    cmd := c;
  }

  lemma Assoc(a: bytes, b: bytes, c: bytes)
    ensures a + b + c == a + (b + c)
  {
  }

  /** Appends x if `present`; the caller's operand writes are all of this form. */
  method Put(enc: bytes, present: bool, x: byte) returns (longer: bytes)
    ensures longer == enc + if present then [x] else []
  {
    longer := enc;
    if present { longer := longer + [x]; }
  }

  method OffsetBytes(off: nat, len: nat, cmd: byte) returns (enc: bytes)
    requires len <= MAX_MATCH && cmd == CopyCommand(off, len)
    ensures enc == Opt(Byte(off, 0x1)) + Opt(Byte(off, 0x100)) + Opt(Byte(off, 0x10000)) + Opt(Byte(off, 0x1000000))
  {
    CommandBits(off, len);
    enc := Put([], Has(cmd, 0x01), Byte(off, 0x1));
    assert enc == Opt(Byte(off, 0x1));
    enc := Put(enc, Has(cmd, 0x02), Byte(off, 0x100));
    enc := Put(enc, Has(cmd, 0x04), Byte(off, 0x10000));
    enc := Put(enc, Has(cmd, 0x08), Byte(off, 0x1000000));
  }

  /** By now a length of 0x10000 has been replaced by 0, so its third byte is written as 0. */
  method LengthBytes(off: nat, len: nat, cmd: byte) returns (enc: bytes)
    requires 0 < len <= MAX_MATCH && cmd == CopyCommand(off, len)
    ensures enc == SizeBytes(len)
  {
    var written := if len == MAX_MATCH then 0 else len;
    CommandBits(off, len);
    enc := Put([], Has(cmd, 0x10), Byte(written, 0x1));
    enc := Put(enc, Has(cmd, 0x20), Byte(written, 0x100));
    enc := Put(enc, Has(cmd, 0x40), Byte(written, 0x10000));
  }

  method EmitCopy(off: nat, len: nat) returns (enc: bytes)
    requires 0 < len <= MAX_MATCH
    ensures enc == EncodeCopy(off, len)
  {
    var cmd := CommandByte(off, len);
    var offs := OffsetBytes(off, len, cmd);
    var sizes := LengthBytes(off, len, cmd);
    enc := [cmd] + (offs + sizes);
    ghost var o0, o1, o2, o3 := Opt(Byte(off, 0x1)), Opt(Byte(off, 0x100)), Opt(Byte(off, 0x10000)),
      Opt(Byte(off, 0x1000000));
    Assoc(o0 + o1 + o2, o3, sizes);
    Assoc(o0 + o1, o2, o3 + sizes);
    Assoc(o0, o1, o2 + (o3 + sizes));
  }

  /** The state of the main loop: the stream so far produces all of the target before the pending literal. */
  ghost predicate Progress(base: bytes, target: bytes, body: bytes, tpos: nat, lit: bytes) {
    && |lit| <= tpos <= |target| && |lit| < MAX_LITERAL
    && lit == target[tpos - |lit|..tpos]
    && Exec(base, body, []) == Some(target[..tpos - |lit|])
    && |body| + |lit| + (if lit == [] then 0 else 1) <= 2 * tpos
  }

  /** A copy command in the output: len bytes of the target at `at`, taken from the base at `off`. */
  datatype Copied = Copied(at: nat, off: nat, len: nat)

  ghost predicate Covered(copies: seq<Copied>, p: nat) {
    exists k :: 0 <= k < |copies| && copies[k].at <= p < copies[k].at + copies[k].len
  }

  function Copies(copies: seq<Copied>): nat {
    if copies == [] then 0 else Copies(copies[..|copies| - 1]) + copies[|copies| - 1].len
  }

  /** Every copy is a longest match, and where no copy starts or goes on there was no match: in both cases but
      for matches behind 32 newer positions of their bucket. */
  ghost predicate Greedy(base: bytes, target: bytes, copies: seq<Copied>, tpos: nat)
    requires tpos <= |target|
  {
    && (forall k | 0 <= k < |copies| ::
          var c := copies[k];
          && c.at + c.len <= tpos && c.at + 4 <= |target| && c.off <= |base| && c.len >= 4
          && c.len == MatchLength(base, c.off, target, c.at) && Best(base, target, c.at, c.len))
    && (forall k | 0 <= k < |copies| - 1 :: copies[k].at + copies[k].len <= copies[k + 1].at)
    && (forall p | 0 <= p < tpos && p + 4 <= |target| && !Covered(copies, p) :: Best(base, target, p, 0))
  }

  /** What the output takes: eight bytes for a copy and the literal before it, a byte for each byte in no copy,
      and one more for each full literal. */
  ghost predicate Small(copies: seq<Copied>, fulls: nat, tpos: nat, size: nat, pending: nat) {
    && Copies(copies) + pending <= tpos
    && size <= 8 * |copies| + (tpos - Copies(copies) - pending) + fulls
    && fulls * MAX_LITERAL <= tpos - Copies(copies) - pending
  }

  lemma {:induction false} GreedyCopy(base: bytes, target: bytes, copies: seq<Copied>, tpos: nat, off: nat)
    requires tpos + 4 <= |target| && off <= |base| && Greedy(base, target, copies, tpos)
    requires MatchLength(base, off, target, tpos) >= 4 && Best(base, target, tpos, MatchLength(base, off, target, tpos))
    ensures var n := MatchLength(base, off, target, tpos);
      && tpos + n <= |target| && Greedy(base, target, copies + [Copied(tpos, off, n)], tpos + n)
      && Copies(copies + [Copied(tpos, off, n)]) == Copies(copies) + n
  {
    hide MatchLength, Best;
    LengthFits(base, off, target, tpos);
    var n := MatchLength(base, off, target, tpos);
    var more := copies + [Copied(tpos, off, n)];
    assert more[..|copies|] == copies;
    forall p | 0 <= p < tpos + n && p + 4 <= |target| && !Covered(more, p) ensures Best(base, target, p, 0) {
      CoveredMore(copies, Copied(tpos, off, n), p);
    }
  }

  lemma CoveredMore(copies: seq<Copied>, c: Copied, p: nat)
    ensures Covered(copies + [c], p) <==> Covered(copies, p) || c.at <= p < c.at + c.len
  {
    var more := copies + [c];
    assert more[|copies|] == c && forall k | 0 <= k < |copies| :: more[k] == copies[k];
  }

  lemma LengthFits(b: bytes, i: nat, t: bytes, j: nat)
    requires i <= |b| && j <= |t|
    ensures j + MatchLength(b, i, t, j) <= |t|
  {
  }

  lemma {:induction false} GreedyLiteral(base: bytes, target: bytes, copies: seq<Copied>, tpos: nat)
    requires tpos < |target| && Greedy(base, target, copies, tpos)
    requires tpos + 4 <= |target| ==> Best(base, target, tpos, 0)
    ensures Greedy(base, target, copies, tpos + 1)
  {
    hide MatchLength, Best;
  }

  lemma GreedyStart(base: bytes, target: bytes)
    ensures Greedy(base, target, [], 0) && Small([], 0, 0, 0, 0)
  {
  }

  /** A base shorter than four bytes has no match at all. */
  lemma NoMatch(base: bytes, target: bytes, tpos: nat)
    requires |base| < 4 && tpos + 4 <= |target|
    ensures Best(base, target, tpos, 0)
  {
  }

  lemma SmallCopy(copies: seq<Copied>, fulls: nat, tpos: nat, size: nat, pending: nat, more: seq<Copied>, n: nat,
                  size': nat)
    requires Small(copies, fulls, tpos, size, pending) && size' <= size + pending + 8
    requires |more| == |copies| + 1 && Copies(more) == Copies(copies) + n
    ensures Small(more, fulls, tpos + n, size', 0)
  {
  }

  lemma SmallLiteral(copies: seq<Copied>, fulls: nat, tpos: nat, size: nat, pending: nat)
    requires Small(copies, fulls, tpos, size, pending)
    ensures Small(copies, fulls, tpos + 1, size, pending + 1)
    ensures pending + 1 == MAX_LITERAL ==> Small(copies, fulls + 1, tpos + 1, size + MAX_LITERAL + 1, 0)
  {
  }

  lemma SmallEnd(copies: seq<Copied>, fulls: nat, tpos: nat, size: nat, pending: nat, size': nat)
    requires Small(copies, fulls, tpos, size, pending) && size' <= size + pending + 1
    ensures var rest := tpos - Copies(copies); rest >= 0 && size' <= 8 * |copies| + rest + rest / 127 + 1
  {
  }

  /** Writes the pending literal, if any. */
  method FlushLiteral(ghost base: bytes, ghost target: bytes, body: bytes, ghost tpos: nat, lit: bytes)
    returns (flushed: bytes)
    requires |lit| <= tpos <= |target| && |lit| <= MAX_LITERAL
    requires lit == target[tpos - |lit|..tpos] && Exec(base, body, []) == Some(target[..tpos - |lit|])
    ensures Exec(base, flushed, []) == Some(target[..tpos])
    ensures |flushed| == |body| + |lit| + if lit == [] then 0 else 1
  {
    hide Exec;
    flushed := body;
    assert target[..tpos] == target[..tpos - |lit|] + lit;
    if |lit| > 0 {
      AppendInsert(base, body, target[..tpos - |lit|], lit);
      flushed := body + ([|lit|] + lit);
    }
  }

  lemma {:induction false} MatchedBytes(b: bytes, i: nat, t: bytes, j: nat)
    requires i <= |b| && j <= |t| && MatchLength(b, i, t, j) > 0
    ensures var n := MatchLength(b, i, t, j);
      4 <= n <= MAX_MATCH && i + n <= |b| && j + n <= |t| && b[i..i + n] == t[j..j + n]
  {
    CommonSlices(b, i, t, j, MatchLength(b, i, t, j));
  }

  method EmitMatch(ghost base: bytes, body: bytes, ghost out: bytes, off: nat, len: nat) returns (longer: bytes)
    requires off < TWO32 && 0 < len <= MAX_MATCH && off + len <= |base| && Exec(base, body, []) == Some(out)
    ensures Exec(base, longer, []) == Some(out + base[off..off + len]) && |longer| <= |body| + 7
  {
    hide Exec, EncodeCopy;
    CopyRoundTrip(off, len, []);
    AppendCopy(base, body, out, off, len);
    var e := EmitCopy(off, len);
    longer := body + e;
  }

  method MatchStep(base: bytes, target: bytes, body: bytes, tpos: nat, lit: bytes, off: nat, len: nat)
    returns (longer: bytes)
    requires |base| < TWO31 && Progress(base, target, body, tpos, lit)
    requires 4 <= len <= MAX_MATCH && off + len <= |base| && tpos + len <= |target|
    requires base[off..off + len] == target[tpos..tpos + len]
    ensures Progress(base, target, longer, tpos + len, [])
    ensures |longer| <= |body| + |lit| + 8
  {
    hide Exec;
    var flushed := FlushLiteral(base, target, body, tpos, lit);
    assert target[..tpos + len] == target[..tpos] + target[tpos..tpos + len];
    longer := EmitMatch(base, flushed, target[..tpos], off, len);
    assert target[tpos + len..tpos + len] == [];
  }

  method LiteralStep(ghost base: bytes, target: bytes, body: bytes, tpos: nat, lit: bytes)
    returns (longer: bytes, pending: bytes)
    requires tpos < |target| && Progress(base, target, body, tpos, lit)
    ensures Progress(base, target, longer, tpos + 1, pending)
    ensures if |lit| + 1 == MAX_LITERAL then pending == [] && |longer| == |body| + MAX_LITERAL + 1
            else longer == body && |pending| == |lit| + 1
  {
    longer, pending := body, lit + [target[tpos]];
    assert pending == target[tpos - |lit|..tpos + 1];
    if |pending| == MAX_LITERAL {
      longer := FlushLiteral(base, target, body, tpos + 1, pending);
      pending := [];
      assert target[tpos + 1..tpos + 1] == [];
    }
  }

  lemma Begun(base: bytes, target: bytes, body: bytes, tpos: nat, lit: bytes)
    requires tpos == 0 && body == [] && lit == []
    ensures Progress(base, target, body, tpos, lit)
  {
    assert target[..0] == [] && target[0..0] == [];
  }

  method Finish(ghost base: bytes, ghost target: bytes, body: bytes, lit: bytes) returns (whole: bytes)
    requires Progress(base, target, body, |target|, lit)
    ensures Exec(base, whole, []) == Some(target) && |whole| <= 2 * |target|
    ensures |whole| <= |body| + |lit| + 1
  {
    whole := FlushLiteral(base, target, body, |target|, lit);
    assert target[..|target|] == target;
  }

  /** One turn of the main loop: a match if there is one, otherwise one more literal byte. */
  method Advance(base: bytes, target: bytes, body: bytes, tpos: nat, lit: bytes, head: array?<int>, nxt: array?<int>,
                 ghost copies: seq<Copied>, ghost fulls: nat)
    returns (longer: bytes, next: nat, pending: bytes, ghost copies': seq<Copied>, ghost fulls': nat)
    requires |base| < TWO31 && tpos < |target|
    requires Progress(base, target, body, tpos, lit)
    requires Greedy(base, target, copies, tpos) && Small(copies, fulls, tpos, |body|, |lit|)
    requires |base| >= 4 ==> head != null && nxt != null && Table(base, head[..], nxt[..])
    ensures tpos < next <= |target| && Progress(base, target, longer, next, pending)
    ensures Greedy(base, target, copies', next) && Small(copies', fulls', next, |longer|, |pending|)
  {
    hide Progress, Table, Unbeaten, MatchLength, Greedy, Small, Best, Copies;
    var bestLen, bestOff := 0, 0;
    copies', fulls' := copies, fulls;
    if |base| >= 4 && |target| - tpos >= 4 {
      bestLen, bestOff := FindMatch(base, target, tpos, head, nxt);
      ghost var h := Bucket(Word(target, tpos));
      InBuckets(Word(target, tpos));
      ChainSizes(base, head[..], nxt[..]);
      assert head[..][h] == head[h];
      UnbeatenBest(base, target, tpos, head[..], nxt[..], bestLen);
    } else if |target| - tpos >= 4 {
      NoMatch(base, target, tpos);
    }
    if bestLen >= 4 {
      MatchedBytes(base, bestOff, target, tpos);
      longer := MatchStep(base, target, body, tpos, lit, bestOff, bestLen);
      next, pending := tpos + bestLen, [];
      GreedyCopy(base, target, copies, tpos, bestOff);
      copies' := copies + [Copied(tpos, bestOff, bestLen)];
      SmallCopy(copies, fulls, tpos, |body|, |lit|, copies', bestLen, |longer|);
    } else {
      longer, pending := LiteralStep(base, target, body, tpos, lit);
      next := tpos + 1;
      if bestLen > 0 { NeverSmall(base, bestOff, target, tpos); }
      GreedyLiteral(base, target, copies, tpos);
      SmallLiteral(copies, fulls, tpos, |body|, |lit|);
      if |lit| + 1 == MAX_LITERAL { fulls' := fulls + 1; }
    }
  }

  lemma NeverSmall(b: bytes, i: nat, t: bytes, j: nat)
    requires i <= |b| && j <= |t|
    ensures MatchLength(b, i, t, j) == 0 || MatchLength(b, i, t, j) >= 4
  {
  }

  method CompressBody(base: bytes, target: bytes) returns (body: bytes, ghost copies: seq<Copied>)
    requires |base| < TWO31
    ensures Exec(base, body, []) == Some(target) && |body| <= 2 * |target|
    ensures Greedy(base, target, copies, |target|)
    ensures var rest := |target| - Copies(copies); rest >= 0 && |body| <= 8 * |copies| + rest + rest / 127 + 1
  {
    hide *;
    var head: array?<int>, nxt: array?<int> := null, null;
    if |base| >= 4 { head, nxt := BuildChains(base); }
    var tpos, lit: bytes := 0, [];
    body, copies := [], [];
    ghost var fulls: nat := 0;
    Begun(base, target, body, tpos, lit);
    GreedyStart(base, target);
    while tpos < |target|
      invariant tpos <= |target| && Progress(base, target, body, tpos, lit)
      invariant Greedy(base, target, copies, tpos) && Small(copies, fulls, tpos, |body|, |lit|)
      invariant |base| >= 4 ==> head != null && nxt != null && Table(base, head[..], nxt[..])
    {
      body, tpos, lit, copies, fulls := Advance(base, target, body, tpos, lit, head, nxt, copies, fulls);
    }
    ghost var size := |body|;
    body := Finish(base, target, body, lit);
    SmallEnd(copies, fulls, tpos, size, |lit|, |body|);
  }

  /** Two printed lengths in front of a body are read back as such. */
  lemma {:induction false} WireParts(m: nat, n: nat, body: bytes)
    requires n < TWO64
    ensures var delta := Varint.Encode(m) + (Varint.Encode(n) + body);
      HeadersEnd(delta) && Body(delta) == body && TargetLength(delta) == n
  {
    var h1, h2 := Varint.Encode(m), Varint.Encode(n);
    var delta := h1 + (h2 + body);
    Varint.RoundTrip(m, h2 + body);
    Varint.RoundTrip(n, body);
    assert delta[|h1|..] == h2 + body && (h2 + body)[|h2|..] == body;
  }

  lemma Sealed(base: bytes, target: bytes, body: bytes)
    requires |target| < TWO64 && Exec(base, body, []) == Some(target)
    ensures var delta := Varint.Encode(|base|) + (Varint.Encode(|target|) + body);
      && StrictApply(base, delta) == LenientApply(base, delta) == InlineApply(base, delta) == Done(target, [])
  {
    hide Exec, StrictRun, LenientRun, InlineRun, HeadersEnd, Body, TargetLength, Varint.Encode;
    WireParts(|base|, |target|, body);
    StrictIsExec(base, body, [], |target|);
    AppliersAgree(base, Varint.Encode(|base|) + (Varint.Encode(|target|) + body));
  }

  /** The delta round trip: all three appliers give back the target from what the compressor wrote, and the
      output fits the buffer of the source: two headers and at most two bytes for each target byte. Copies are
      greedy, and bytes in no copy cost little more than a byte. */
  method Compress(base: bytes, target: bytes) returns (delta: bytes, ghost copies: seq<Copied>)
    requires |base| < TWO31 && |target| < TWO64
    ensures LenientApply(base, delta) == Done(target, [])
    ensures StrictApply(base, delta) == Done(target, [])
    ensures InlineApply(base, delta) == Done(target, [])
    ensures |delta| <= |Varint.Encode(|base|)| + |Varint.Encode(|target|)| + 2 * |target|
    ensures Varint.Encode(|base|) + Varint.Encode(|target|) <= delta
    ensures Greedy(base, target, copies, |target|)
    ensures var rest := |target| - Copies(copies);
      rest >= 0 && |delta| <= |Varint.Encode(|base|)| + |Varint.Encode(|target|)| + 8 * |copies| + rest + rest / 127 + 1
  {
    hide Varint.Encode, StrictApply, LenientApply, InlineApply, Greedy, Exec;
    var h1 := Varint.EncodeVarint(|base|);
    var h2 := Varint.EncodeVarint(|target|);
    var body;
    body, copies := CompressBody(base, target);
    delta := h1 + (h2 + body);
    assert delta == (h1 + h2) + body;
    Sealed(base, target, body);
  }

  /** Every base below 2^32 bytes has a delta whose one copy is read outside it. */
  lemma {:induction false} CopyOutside(base: bytes)
    requires |base| < TWO32
    ensures var delta := Varint.Encode(|base|) + (Varint.Encode(1) + EncodeCopy(TWO32 - 1, 1));
      StrictApply(base, delta).OutOfBounds? && LenientApply(base, delta).OutOfBounds?
  {
    hide EncodeCopy, Decode, HeadersEnd, Body, TargetLength;
    var body := EncodeCopy(TWO32 - 1, 1);
    CopyRoundTrip(TWO32 - 1, 1, []);
    assert body + [] == body;
    WireParts(|base|, 1, body);
  }
}
