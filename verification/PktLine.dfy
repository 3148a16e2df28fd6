/** Hexadecimal ids (src/object/object.c) and the pkt-line framing of ref advertisements
    (src/network/protocol.c). */
module PktLine {
  import opened Bytes
  import opened TreeFormat

  const LF: byte := 10
  const CR: byte := 13
  const HASH: byte := 35
  const MAX_PACKET := 65535
  const MAX_NAME := 1024

  // ----- hexadecimal -----

  function HexChar(v: nat): (b: byte)
    requires v < 16
    ensures HexValue(b) == v && (48 <= b <= 57 || 97 <= b <= 102)
  {
    if v < 10 then 48 + v else 87 + v
  }

  /** The value of a digit of either case, or -1. */
  function HexValue(b: byte): (v: int)
    ensures -1 <= v < 16
  {
    if 48 <= b <= 57 then b - 48
    else if 97 <= b <= 102 then b - 87
    else if 65 <= b <= 70 then b - 55
    else -1
  }

  const LOWER := "0123456789abcdef"
  const UPPER := "0123456789ABCDEF"

  /** The digits, and nothing else, of either case. */
  lemma HexDigits()
    ensures forall v: nat | v < 16 :: HexChar(v) == LOWER[v] as int
    ensures forall b: byte, v: nat | v < 16 :: HexValue(b) == v <==> b == LOWER[v] as int || b == UPPER[v] as int
  {
  }

  function ToHex(oid: bytes): (s: bytes)
    ensures |s| == 2 * |oid|
    ensures forall i | 0 <= i < |s| :: HexValue(s[i]) >= 0
  {
    if oid == [] then []
    else
      var n := |oid| - 1;
      ToHex(oid[..n]) + [HexChar(oid[n] / 16), HexChar(oid[n] % 16)]
  }

  /** Two digits a byte, the upper half first. */
  lemma {:induction false} ToHexAt(oid: bytes, i: nat)
    requires i < |oid|
    ensures ToHex(oid)[2 * i] == LOWER[oid[i] / 16] as int && ToHex(oid)[2 * i + 1] == LOWER[oid[i] % 16] as int
    decreases |oid|
  {
    hide HexChar, HexValue;
    HexDigits();
    var n := |oid| - 1;
    if i < n { ToHexAt(oid[..n], i); }
  }

  /** Pairs of digits; an odd length and other characters are EINVAL, more than 64 bytes EOVERFLOW. */
  function FromHex(s: bytes): Result<bytes> {
    if |s| % 2 != 0 then Err(EINVAL)
    else if |s| > 128 then Err(EOVERFLOW)
    else Pairs(s)
  }

  function Pairs(s: bytes): Result<bytes> {
    if |s| < 2 then Ok([])
    else
      var n := |s| - 2;
      match Pairs(s[..n])
      case Err(e) => Err(e)
      case Ok(init) =>
        if HexValue(s[n]) < 0 || HexValue(s[n + 1]) < 0 then Err(EINVAL)
        else Ok(init + [HexValue(s[n]) * 16 + HexValue(s[n + 1])])
  }

  lemma {:induction false} PairsRoundTrip(oid: bytes)
    ensures Pairs(ToHex(oid)) == Ok(oid)
    decreases |oid|
  {
    hide HexValue, HexChar, Pairs;
    if oid == [] {
      NoPairs(ToHex(oid));
    } else {
      var n := |oid| - 1;
      PairsRoundTrip(oid[..n]);
      OnePair(ToHex(oid[..n]), oid[n], oid[..n]);
      assert oid == oid[..n] + [oid[n]];
    }
  }

  lemma NoPairs(s: bytes)
    requires s == []
    ensures Pairs(s) == Ok([])
  {
  }

  lemma OnePair(s: bytes, b: byte, init: bytes)
    requires Pairs(s) == Ok(init)
    ensures Pairs(s + [HexChar(b / 16), HexChar(b % 16)]) == Ok(init + [b])
  {
    hide HexValue, HexChar;
    CharOf(b / 16);
    CharOf(b % 16);
    var t := s + [HexChar(b / 16), HexChar(b % 16)];
    assert t[..|t| - 2] == s;
  }

  lemma HexRoundTrip(oid: bytes)
    requires |oid| <= 64
    ensures FromHex(ToHex(oid)) == Ok(oid)
  {
    hide Pairs, ToHex;
    HexFacts(oid);
    PairsRoundTrip(oid);
  }

  method OidToHex(oid: bytes) returns (s: bytes)
    ensures s == ToHex(oid)
  {
    s := [];
    var i := 0;
    while i < |oid|
      invariant i <= |oid| && s == ToHex(oid[..i])
    {
      assert oid[..i + 1][..i] == oid[..i];
      s := s + [HexChar(oid[i] / 16), HexChar(oid[i] % 16)];
      i := i + 1;
    }
    assert oid[..i] == oid;
  }

  method OidFromHex(s: bytes) returns (r: Result<bytes>)
    ensures r == FromHex(s)
  {
    if |s| % 2 != 0 { return Err(EINVAL); }
    if |s| / 2 > 64 { return Err(EOVERFLOW); }
    var oid, i: nat := [], 0;
    assert s[..0] == [];
    while 2 * i < |s|
      invariant 2 * i <= |s| && Pairs(s[..2 * i]) == Ok(oid)
    {
      var n := 2 * i;
      assert s[..n + 2][..n] == s[..n];
      if HexValue(s[n]) < 0 || HexValue(s[n + 1]) < 0 {
        BadPair(s, i);
        return Err(EINVAL);
      }
      oid := oid + [HexValue(s[n]) * 16 + HexValue(s[n + 1])];
      i := i + 1;
    }
    assert s[..2 * i] == s;
    r := Ok(oid);
  }

  /** A bad pair makes the whole string bad. */
  lemma {:induction false} BadPair(s: bytes, i: nat)
    requires |s| % 2 == 0 && 2 * i + 2 <= |s| && (HexValue(s[2 * i]) < 0 || HexValue(s[2 * i + 1]) < 0)
    requires Pairs(s[..2 * i]).Ok?
    ensures Pairs(s) == Err(EINVAL)
    decreases |s|
  {
    var n := |s| - 2;
    if n == 2 * i {
    } else {
      assert s[..n][..2 * i] == s[..2 * i];
      BadPair(s[..n], i);
    }
  }

  // ----- the four-digit length -----

  function Len4(n: nat): (s: bytes)
    requires n < 0x10000
    ensures |s| == 4
  {
    [HexChar(n / 0x1000), HexChar(n / 0x100 % 0x10), HexChar(n / 0x10 % 0x10), HexChar(n % 0x10)]
  }

  /** The hexadecimal digits at the front of s, read onto v. */
  function HexFrom(s: bytes, v: nat): nat {
    if s == [] || HexValue(s[0]) < 0 then v else HexFrom(s[1..], 16 * v + HexValue(s[0]))
  }

  /** strtoul in base 16 on at most four characters: white space, a sign, an optional 0x, digits. `None` when
      there is no digit. */
  function Strtoul16(s: bytes): Option<nat> {
    if s != [] && (s[0] == 32 || 9 <= s[0] <= 13) then Strtoul16(s[1..])
    else if s != [] && s[0] == 43 then HexNumber(s[1..])
    else if s != [] && s[0] == 45 then
      match HexNumber(s[1..]) case None => None case Some(v) => Some((TWO64 - v % TWO64) % TWO64)
    else HexNumber(s)
  }

  function HexNumber(s: bytes): Option<nat> {
    if |s| >= 3 && s[0] == 48 && (s[1] == 120 || s[1] == 88) && HexValue(s[2]) >= 0 then Some(HexFrom(s[2..], 0))
    else if s == [] || HexValue(s[0]) < 0 then None
    else Some(HexFrom(s, 0))
  }

  lemma {:induction false} LengthRoundTrip(n: nat)
    requires n < 0x10000
    ensures Strtoul16(Len4(n)) == Some(n)
  {
    hide HexValue, HexChar;
    var a, b, c, d := n / 0x1000, n / 0x100 % 0x10, n / 0x10 % 0x10, n % 0x10;
    var s := Len4(n);
    CharOf(a);
    CharOf(b);
    CharOf(c);
    CharOf(d);
    assert s[1..] == [HexChar(b), HexChar(c), HexChar(d)];
    assert s[1..][1..] == [HexChar(c), HexChar(d)];
    assert s[1..][1..][1..] == [HexChar(d)];
    assert HexFrom(s, 0) == HexFrom(s[1..], a);
    assert HexFrom(s[1..], a) == HexFrom(s[1..][1..], 16 * a + b);
    assert HexFrom(s[1..][1..], 16 * a + b) == HexFrom([HexChar(d)], 16 * (16 * a + b) + c);
    assert HexFrom([HexChar(d)], 16 * (16 * a + b) + c) == HexFrom([], 16 * (16 * (16 * a + b) + c) + d);
    FourDigits(n);
  }

  /** Four digits of either case. */
  lemma {:induction false} FourHex(s: bytes)
    requires |s| == 4 && forall i | 0 <= i < 4 :: HexValue(s[i]) >= 0
    ensures Strtoul16(s) ==
      Some(0x1000 * HexValue(s[0]) + 0x100 * HexValue(s[1]) + 0x10 * HexValue(s[2]) + HexValue(s[3]))
  {
    var a, b, c, d := HexValue(s[0]), HexValue(s[1]), HexValue(s[2]), HexValue(s[3]);
    assert s[0] != 43 && s[0] != 45 && s[0] != 32 && !(9 <= s[0] <= 13) && s[1] != 120 && s[1] != 88;
    hide HexValue;
    assert HexFrom(s, 0) == HexFrom(s[1..], a);
    assert HexFrom(s[1..], a) == HexFrom(s[1..][1..], 16 * a + b);
    assert HexFrom(s[1..][1..], 16 * a + b) == HexFrom(s[1..][1..][1..], 16 * (16 * a + b) + c);
    assert HexFrom(s[1..][1..][1..], 16 * (16 * a + b) + c) == HexFrom([], 16 * (16 * (16 * a + b) + c) + d);
  }

  lemma CharOf(v: nat)
    requires v < 16
    ensures HexValue(HexChar(v)) == v && (48 <= HexChar(v) <= 57 || 97 <= HexChar(v) <= 102)
  {
  }

  lemma FourDigits(n: nat)
    requires n < 0x10000
    ensures 16 * (16 * (16 * (n / 0x1000) + n / 0x100 % 0x10) + n / 0x10 % 0x10) + n % 0x10 == n
  {
    assert n / 0x100 == n / 0x10 / 0x10 && n / 0x1000 == n / 0x10 / 0x10 / 0x10;
  }

  // ----- framing -----

  /** fastgit_pktline_encode: no payload makes a flush; a long payload is cut. Payloads are C strings. */
  function Encode(payload: Option<bytes>): bytes {
    match payload
    case None => [48, 48, 48, 48]
    case Some(p) =>
      var plen := Index(p, 0);
      var tlen := if plen + 4 > MAX_PACKET then MAX_PACKET else plen + 4;
      Len4(tlen) + p[..tlen - 4]
  }

  datatype Ref = Ref(oid: bytes, name: bytes)

  /** The payload of a ref line. */
  function RefLine(r: Ref): bytes {
    ToHex(r.oid) + [SPACE] + r.name + [LF]
  }

  /** The payload of an advertised ref: capabilities, if any, follow a NUL. */
  function AdvertLine(r: Ref, caps: Option<bytes>): bytes {
    ToHex(r.oid) + [SPACE] + r.name + (CapsBytes(caps) + [LF])
  }

  function CapsBytes(caps: Option<bytes>): bytes {
    match caps case None => [] case Some(c) => [0] + c
  }

  /** Refs the advertisement can carry: 20- or 32-byte ids, names of 1..1024 bytes without NUL that do not end
      in CR or LF. */
  ghost predicate RefOk(r: Ref) {
    && (|r.oid| == 20 || |r.oid| == 32) && 1 <= |r.name| <= MAX_NAME && 0 !in r.name
    && r.name[|r.name| - 1] != LF && r.name[|r.name| - 1] != CR
  }

  // ----- parsing -----

  predicate IsBreak(b: byte) {
    b == LF || b == CR
  }

  /** Without trailing line breaks. */
  function Trim(s: bytes): (t: bytes)
    ensures |t| <= |s|
  {
    if s != [] && IsBreak(s[|s| - 1]) then Trim(s[..|s| - 1]) else s
  }

  function HexSpan(s: bytes): (n: nat)
    ensures n <= |s|
  {
    if s == [] || HexValue(s[0]) < 0 then 0 else 1 + HexSpan(s[1..])
  }

  /** The ref in a payload; comments and malformed lines have none. */
  function ParseLine(payload: bytes): Option<Ref> {
    var p := Trim(payload);
    var h := HexSpan(p);
    if |p| >= 2 && p[0] == HASH && p[1] == SPACE then None
    else if h != 40 && h != 64 then None
    else if h >= |p| || p[h] != SPACE then None
    else
      var rest := p[h + 1..];
      var name := rest[..Index(rest, 0)];
      if name == [] || |name| > MAX_NAME then None
      else match FromHex(p[..h])
        case Err(_) => None
        case Ok(oid) => Some(Ref(oid, name))
  }

  datatype Packet = Stop | Skip(n: nat) | Found(r: Ref, n: nat)

  /** What stands at the front of s. Every packet but the last takes at least its four length digits, and no
      more than there is. */
  function ParsePacket(s: bytes): (k: Packet)
    ensures !k.Stop? ==> 4 <= k.n <= |s|
  {
    if |s| < 4 then Stop
    else match Strtoul16(s[..4])
      case None => Stop
      case Some(n) =>
        if n > MAX_PACKET then Stop
        else if n == 0 || n == 1 then Skip(4)
        else if n < 4 || n > |s| then Stop
        else match ParseLine(s[4..n])
          case None => Skip(n)
          case Some(r) => Found(r, n)
  }

  function ParseRefs(s: bytes): seq<Ref>
    decreases |s|
  {
    match ParsePacket(s)
    case Stop => []
    case Skip(n) => ParseRefs(s[n..])
    case Found(r, n) => [r] + ParseRefs(s[n..])
  }

  // ----- the round trip -----

  lemma {:induction false} HexSpanAll(a: bytes, b: byte, rest: bytes)
    requires (forall i | 0 <= i < |a| :: HexValue(a[i]) >= 0) && HexValue(b) < 0
    ensures HexSpan(a + ([b] + rest)) == |a|
    decreases |a|
  {
    if a == [] {
      assert a + ([b] + rest) == [b] + rest;
    } else {
      assert (a + ([b] + rest))[1..] == a[1..] + ([b] + rest);
      HexSpanAll(a[1..], b, rest);
    }
  }

  lemma {:induction false} NoNulIn(a: bytes)
    requires 0 !in a
    ensures Index(a, 0) == |a|
  {
  }

  /** The line without the line breaks it ends in. */
  lemma {:induction false} TrimMeans(s: bytes)
    ensures Trim(s) <= s && forall i | |Trim(s)| <= i < |s| :: s[i] == 10 || s[i] == 13
    ensures Trim(s) != [] ==> Trim(s)[|Trim(s)| - 1] != 10 && Trim(s)[|Trim(s)| - 1] != 13
    decreases |s|
  {
    if s != [] && IsBreak(s[|s| - 1]) { TrimMeans(s[..|s| - 1]); }
  }

  /** A trimmed line that holds this ref: an id of 40 or 64 digits, a space, the name, and then the end or a NUL
      and anything. */
  ghost predicate HoldsRef(p: bytes, x: bytes, r: Ref, tail: bytes) {
    && p == x + ([SPACE] + (r.name + tail)) && (|x| == 40 || |x| == 64) && FromHex(x) == Ok(r.oid)
    && 1 <= |r.name| <= 1024 && 0 !in r.name && (tail == [] || tail[0] == 0)
  }

  /** Exactly these lines give a ref; comments and malformed lines do not. */
  lemma {:induction false} LineMeans(payload: bytes, r: Ref)
    ensures ParseLine(payload) == Some(r) <==> exists x, tail :: HoldsRef(Trim(payload), x, r, tail)
  {
    hide Trim, ParseLine, HoldsRef;
    if ParseLine(payload) == Some(r) {
      var x, tail := LineHolds(payload, r);
    }
    if x, tail :| HoldsRef(Trim(payload), x, r, tail) { RefInLine(payload, Trim(payload), x, r, tail); }
  }

  lemma {:induction false} LineHolds(payload: bytes, r: Ref) returns (x: bytes, tail: bytes)
    requires ParseLine(payload) == Some(r)
    ensures HoldsRef(Trim(payload), x, r, tail)
  {
    hide Trim, FromHex, Index, HexSpan;
    var p := Trim(payload);
    var h := HexSpan(p);
    HexSpanFits(p);
    var rest := p[h + 1..];
    IndexFits(rest, 0);
    BeforeNul(rest, Index(rest, 0));
    NameCut(rest);
    x, tail := p[..h], rest[|r.name|..];
    assert r.name + tail == rest;
    AtCut(p, h);
  }

  lemma NameCut(rest: bytes)
    ensures Index(rest, 0) <= |rest| && (Index(rest, 0) < |rest| ==> rest[Index(rest, 0)] == 0)
  {
  }

  lemma AtCut(p: bytes, h: nat)
    requires h < |p|
    ensures p == p[..h] + ([p[h]] + p[h + 1..])
  {
  }

  lemma HexSpanFits(p: bytes)
    ensures HexSpan(p) <= |p|
  {
  }

  lemma {:induction false} RefInLine(payload: bytes, p: bytes, x: bytes, r: Ref, tail: bytes)
    requires p == Trim(payload) && HoldsRef(p, x, r, tail)
    ensures ParseLine(payload) == Some(r)
  {
    hide Trim, FromHex, Index, HexSpan;
    FromHexDigits(x);
    HexSpanAll(x, SPACE, r.name + tail);
    AtSpace(p, x, r.name + tail);
    assert p[0] == x[0] && HexValue(HASH) < 0;
    NameEnds(r.name, tail);
  }

  lemma {:induction false} NameEnds(name: bytes, tail: bytes)
    requires 0 !in name && (tail == [] || tail[0] == 0)
    ensures Index(name + tail, 0) == |name| && (name + tail)[..|name|] == name
  {
    if tail == [] {
      assert name + tail == name;
      NoNulIn(name);
    } else {
      assert name + tail == name + [0] + tail[1..];
      IndexAfter(name, 0, tail[1..]);
    }
  }

  lemma {:induction false} FromHexDigits(x: bytes)
    requires FromHex(x).Ok?
    ensures forall i | 0 <= i < |x| :: HexValue(x[i]) >= 0
  {
    hide HexValue;
    PairsDigits(x);
  }

  lemma {:induction false} PairsDigits(x: bytes)
    requires |x| % 2 == 0 && Pairs(x).Ok?
    ensures forall i | 0 <= i < |x| :: HexValue(x[i]) >= 0
    decreases |x|
  {
    hide HexValue;
    if |x| >= 2 { PairsDigits(x[..|x| - 2]); }
  }

  /** No parsed name contains a NUL; names have 1..1024 bytes and ids 20 or 32. */
  lemma {:induction false} ParsedRefs(s: bytes)
    ensures forall r <- ParseRefs(s) :: 0 !in r.name && 1 <= |r.name| <= 1024 && (|r.oid| == 20 || |r.oid| == 32)
    decreases |s|
  {
    hide ParseLine, Strtoul16;
    PacketFits(s);
    match ParsePacket(s)
    case Stop =>
    case Skip(n) => ParsedRefs(s[n..]);
    case Found(r, n) =>
      ParsedRefs(s[n..]);
      LineMeans(s[4..n], r);
      var x, tail :| HoldsRef(Trim(s[4..n]), x, r, tail);
      FromHexSize(x);
  }

  /** When reading digits succeeds, and the error otherwise. */
  lemma {:induction false} HexErrors(s: bytes)
    ensures |s| % 2 != 0 ==> FromHex(s) == Err(EINVAL)
    ensures |s| % 2 == 0 && |s| > 128 ==> FromHex(s) == Err(EOVERFLOW)
    ensures |s| % 2 == 0 && |s| <= 128 ==>
      if forall i | 0 <= i < |s| :: HexValue(s[i]) >= 0 then FromHex(s).Ok? else FromHex(s) == Err(EINVAL)
  {
    hide HexValue;
    if |s| % 2 == 0 { PairsErrors(s); }
  }

  lemma {:induction false} PairsErrors(s: bytes)
    requires |s| % 2 == 0
    ensures if forall i | 0 <= i < |s| :: HexValue(s[i]) >= 0 then Pairs(s).Ok? else Pairs(s) == Err(EINVAL)
    decreases |s|
  {
    hide HexValue;
    if |s| >= 2 { PairsErrors(s[..|s| - 2]); }
  }

  lemma {:induction false} FromHexSize(x: bytes)
    ensures FromHex(x).Ok? ==> 2 * |FromHex(x).value| == |x|
  {
    hide HexValue;
    if |x| % 2 == 0 { PairsSize(x); }
  }

  lemma {:induction false} PairsSize(x: bytes)
    requires |x| % 2 == 0
    ensures Pairs(x).Ok? ==> 2 * |Pairs(x).value| == |x|
    decreases |x|
  {
    hide HexValue;
    if |x| >= 2 { PairsSize(x[..|x| - 2]); }
  }

  lemma {:induction false} LineRoundTrip(r: Ref, caps: Option<bytes>)
    requires RefOk(r)
    ensures ParseLine(AdvertLine(r, caps)) == Some(r)
  {
    hide ToHex, Trim, Index, HexSpan, FromHex;
    var line, x := AdvertLine(r, caps), ToHex(r.oid);
    var tail := LineTrimmed(r, caps);
    HexFacts(r.oid);
    HexRoundTrip(r.oid);
    RefInLine(line, Trim(line), x, r, tail);
  }

  /** The line of a ref, trimmed: only what follows its name may be cut. */
  lemma {:induction false} LineTrimmed(r: Ref, caps: Option<bytes>) returns (tail: bytes)
    requires RefOk(r)
    ensures Trim(AdvertLine(r, caps)) == ToHex(r.oid) + ([SPACE] + (r.name + tail)) && (tail == [] || tail[0] == 0)
  {
    hide ToHex, Trim, AdvertLine, RefOk;
    var head, after := ToHex(r.oid) + [SPACE] + r.name, CapsBytes(caps) + [LF];
    AdvertParts(r, caps);
    tail := TailOf(AdvertLine(r, caps), head, after);
    Regroup(ToHex(r.oid), r.name, tail);
  }

  lemma Regroup(x: bytes, name: bytes, tail: bytes)
    ensures x + [SPACE] + name + tail == x + ([SPACE] + (name + tail))
  {
  }

  lemma AdvertParts(r: Ref, caps: Option<bytes>)
    requires RefOk(r)
    ensures var head, after := ToHex(r.oid) + [SPACE] + r.name, CapsBytes(caps) + [LF];
      AdvertLine(r, caps) == head + after && !IsBreak(head[|head| - 1]) && (after == [LF] || after[0] == 0)
  {
    hide ToHex;
    var head := ToHex(r.oid) + [SPACE] + r.name;
    assert head[|head| - 1] == r.name[|r.name| - 1];
    if caps.None? { assert CapsBytes(caps) + [LF] == [LF]; }
  }

  lemma TailOf(line: bytes, head: bytes, after: bytes) returns (tail: bytes)
    requires line == head + after && head != [] && !IsBreak(head[|head| - 1])
      && (after == [LF] || (after != [] && after[0] == 0))
    ensures Trim(line) == head + tail && (tail == [] || tail[0] == 0)
  {
    hide Trim;
    tail := TrimmedTo(line, head, after, |head| - 1);
    assert tail != [] ==> tail[0] == after[0];
    assert after == [LF] ==> |tail| <= 1;
  }

  /** What is left of a line that has a byte at `last` that stays. */
  lemma TrimmedTo(line: bytes, head: bytes, after: bytes, last: nat) returns (tail: bytes)
    requires line == head + after && |head| - 1 <= last < |line| && !IsBreak(line[last])
    ensures Trim(line) == head + tail && tail <= after && (tail != [] ==> !IsBreak(tail[|tail| - 1]))
  {
    hide Trim;
    TrimMeans(line);
    var t := Trim(line);
    assert |t| > last;
    tail := t[|head|..];
    assert t == line[..|t|] && t[..|head|] == head;
    assert tail == after[..|tail|];
  }

  lemma AtSpace(p: bytes, x: bytes, name: bytes)
    requires p == x + ([SPACE] + name)
    ensures |p| == |x| + 1 + |name| && p[..|x|] == x && p[|x|] == SPACE && p[|x| + 1..] == name
  {
  }

  lemma HexFacts(oid: bytes)
    ensures |ToHex(oid)| == 2 * |oid| && forall i | 0 <= i < |ToHex(oid)| :: HexValue(ToHex(oid)[i]) >= 0
  {
  }

  lemma {:induction false} NoNulInHex(s: bytes)
    requires forall i | 0 <= i < |s| :: HexValue(s[i]) >= 0
    ensures 0 !in s
  {
  }

  /** A packet of this payload. */
  function Framed(p: bytes): bytes
    requires |p| + 4 <= MAX_PACKET
  {
    Len4(|p| + 4) + p
  }

  /** What every packet at the front of a stream means, by its length: flushes and delimiters are skipped, other
      lengths below four and lengths beyond the end stop the parsing. */
  lemma {:induction false} PacketMeans(n: nat, more: bytes)
    requires n < 0x10000
    ensures var k := ParsePacket(Len4(n) + more);
      && (n < 2 ==> k == Skip(4)) && (n == 2 || n == 3 || n > 4 + |more| ==> k == Stop)
      && (4 <= n <= 4 + |more| ==>
            k == match ParseLine(more[..n - 4]) case None => Skip(n) case Some(r) => Found(r, n))
  {
    hide ParseLine, Strtoul16, Len4;
    LengthRoundTrip(n);
    Four(n);
    var s := Len4(n) + more;
    assert s[..4] == Len4(n);
    if 4 <= n <= |s| { assert s[4..n] == more[..n - 4]; }
  }

  lemma {:induction false} PacketRoundTrip(r: Ref, caps: Option<bytes>, rest: bytes)
    requires RefOk(r) && |AdvertLine(r, caps)| + 4 <= MAX_PACKET
    ensures var e := Framed(AdvertLine(r, caps)); ParsePacket(e + rest) == Found(r, |e|)
  {
    hide ParseLine, Strtoul16, Len4, AdvertLine;
    var p := AdvertLine(r, caps);
    Four(|p| + 4);
    LineRoundTrip(r, caps);
    PacketMeans(|p| + 4, p + rest);
    assert (p + rest)[..|p|] == p;
    assert Framed(p) + rest == Len4(|p| + 4) + (p + rest);
  }

  /** Encoding a payload frames as much of it, up to its first NUL, as a packet can take. */
  lemma {:induction false} EncodeMeans(p: bytes)
    ensures var e := Encode(Some(p));
      && 4 <= |e| <= 65535 && e[4..] <= p && 0 !in e[4..] && e == Framed(e[4..])
      && (|e| < 65535 ==> |e| - 4 == |p| || p[|e| - 4] == 0)
  {
    hide Index, Len4;
    IndexFits(p, 0);
    var k := Index(p, 0);
    var n := if k + 4 > MAX_PACKET then MAX_PACKET - 4 else k;
    Four(n + 4);
    assert Encode(Some(p))[4..] == p[..n];
    BeforeNul(p, n);
  }

  lemma BeforeNul(p: bytes, n: nat)
    requires n <= Index(p, 0)
    ensures Index(p, 0) <= |p| && 0 !in p[..n]
  {
    forall i | 0 <= i < n ensures p[i] != 0 { NotYet(p, i); }
  }

  lemma {:induction false} NotYet(p: bytes, i: nat)
    requires i < Index(p, 0)
    ensures i < |p| && p[i] != 0
    decreases p
  {
    if i > 0 { NotYet(p[1..], i - 1); }
  }

  lemma Four(n: nat)
    requires n < 0x10000
    ensures |Len4(n)| == 4
  {
  }

  lemma FlushRoundTrip(rest: bytes)
    ensures ParsePacket(Encode(None) + rest) == Skip(4)
  {
    hide HexValue, HexChar;
    CharOf(0);
    LengthRoundTrip(0);
    assert Len4(0) == [48, 48, 48, 48] by { ZeroChar(); }
    var s := Encode(None) + rest;
    assert s[..4] == Len4(0);
  }

  lemma ZeroChar()
    ensures HexChar(0) == 48
  {
  }

  /** A stream of ref lines with flushes anywhere between them. */
  function Stream(items: seq<Option<Ref>>): bytes {
    if items == [] then [] else Encode(Payload(items[0])) + Stream(items[1..])
  }

  function Payload(item: Option<Ref>): Option<bytes> {
    match item case None => None case Some(r) => Some(RefLine(r))
  }

  function Refs(items: seq<Option<Ref>>): seq<Ref> {
    if items == [] then [] else (match items[0] case None => [] case Some(r) => [r]) + Refs(items[1..])
  }

  /** A ref as a server advertises it, with capabilities or without. */
  datatype Advert = Advert(r: Ref, caps: Option<bytes>)

  ghost predicate AdvertOk(a: Advert) {
    RefOk(a.r) && |AdvertLine(a.r, a.caps)| + 4 <= MAX_PACKET
  }

  /** A stream of advertised refs with flushes anywhere between them. */
  function Advertised(items: seq<Option<Advert>>): bytes
    requires forall i | 0 <= i < |items| && items[i].Some? :: AdvertOk(items[i].value)
  {
    if items == [] then []
    else
      assert items[0].Some? ==> AdvertOk(items[0].value);
      (match items[0] case None => Encode(None) case Some(a) => Framed(AdvertLine(a.r, a.caps)))
      + Advertised(items[1..])
  }

  function RefsIn(items: seq<Option<Advert>>): seq<Ref> {
    if items == [] then [] else (match items[0] case None => [] case Some(a) => [a.r]) + RefsIn(items[1..])
  }

  /** Parsing what was framed gives back exactly the refs, in order, whatever capabilities the lines carry; it
      stops at what is no packet, as at the end. */
  lemma {:induction false} RefsRoundTrip(items: seq<Option<Advert>>, junk: bytes)
    requires forall i | 0 <= i < |items| && items[i].Some? :: AdvertOk(items[i].value)
    requires ParsePacket(junk).Stop?
    ensures ParseRefs(Advertised(items) + junk) == RefsIn(items)
    decreases items
  {
    hide Encode, ParsePacket, AdvertLine, RefOk, Framed;
    if items == [] {
      assert Advertised(items) + junk == junk;
    } else {
      var rest := Advertised(items[1..]) + junk;
      RefsRoundTrip(items[1..], junk);
      match items[0]
      case None =>
        FlushSize();
        FlushRoundTrip(rest);
        assert Advertised(items) + junk == Encode(None) + rest;
        assert (Encode(None) + rest)[4..] == rest;
        assert [] + RefsIn(items[1..]) == RefsIn(items[1..]);
      case Some(a) =>
        var e := Framed(AdvertLine(a.r, a.caps));
        PacketRoundTrip(a.r, a.caps, rest);
        FramedSize(AdvertLine(a.r, a.caps));
        assert Advertised(items) + junk == e + rest;
        assert (e + rest)[|e|..] == rest;
    }
  }

  lemma FramedSize(p: bytes)
    requires |p| + 4 <= MAX_PACKET
    ensures |Framed(p)| == |p| + 4
  {
    hide HexChar;
  }

  function NoCaps(items: seq<Option<Ref>>): (r: seq<Option<Advert>>)
    ensures |r| == |items| && forall i | 0 <= i < |items| ::
      r[i] == match items[i] case None => None case Some(ref) => Some(Advert(ref, None))
  {
    seq(|items|, i requires 0 <= i < |items| =>
      match items[i] case None => None case Some(ref) => Some(Advert(ref, None)))
  }

  /** What the request builders send is such a stream without capabilities. */
  lemma {:induction false} StreamIsAdvertised(items: seq<Option<Ref>>)
    requires forall i | 0 <= i < |items| && items[i].Some? :: RefOk(items[i].value)
    ensures forall i | 0 <= i < |NoCaps(items)| && NoCaps(items)[i].Some? :: AdvertOk(NoCaps(items)[i].value)
    ensures Stream(items) == Advertised(NoCaps(items)) && Refs(items) == RefsIn(NoCaps(items))
  {
    hide Encode, Framed, RefLine, AdvertLine, RefOk;
    forall i | 0 <= i < |items| && items[i].Some? ensures AdvertOk(Advert(items[i].value, None)) {
      LineEncoded(items[i].value);
    }
    if items != [] {
      StreamIsAdvertised(items[1..]);
      assert NoCaps(items)[1..] == NoCaps(items[1..]);
      if items[0].Some? { LineEncoded(items[0].value); }
    }
  }

  lemma LineEncoded(r: Ref)
    requires RefOk(r)
    ensures AdvertOk(Advert(r, None)) && Encode(Some(RefLine(r))) == Framed(AdvertLine(r, None))
  {
    hide ToHex, Index, Len4;
    var p := RefLine(r);
    HexFacts(r.oid);
    NoNulInHex(ToHex(r.oid));
    NoNulIn(p);
    assert p[..|p|] == p;
    assert AdvertLine(r, None) == p;
  }

  lemma FlushSize()
    ensures |Encode(None)| == 4
  {
  }

  lemma NoPacket()
    ensures ParsePacket([]) == Stop
  {
  }

  // ----- the loops -----

  /** fastgit_pktline_parse_refs. The offset grows by at least four at every turn and never passes the end. */
  method Parse(buf: bytes) returns (refs: seq<Ref>)
    ensures refs == ParseRefs(buf)
  {
    hide ParsePacket, Strtoul16, ParseLine;
    refs := [];
    var off: nat := 0;
    while off + 4 <= |buf|
      invariant off <= |buf| && ParseRefs(buf) == refs + ParseRefs(buf[off..])
      decreases |buf| - off
    {
      var k := ReadPacket(buf, off);
      PacketFits(buf[off..]);
      if k.Stop? { return; }
      assert buf[off..][k.n..] == buf[off + k.n..];
      if k.Found? {
        Shift(refs, k.r, ParseRefs(buf[off + k.n..]));
        refs := refs + [k.r];
      }
      off := off + k.n;
    }
    TooShort(buf[off..]);
  }

  lemma PacketFits(s: bytes)
    ensures !ParsePacket(s).Stop? ==> 4 <= ParsePacket(s).n <= |s|
    ensures |s| < 4 ==> ParsePacket(s) == Stop
  {
  }

  lemma TooShort(s: bytes)
    requires |s| < 4
    ensures ParseRefs(s) == []
  {
  }

  method ReadPacket(buf: bytes, off: nat) returns (k: Packet)
    requires off + 4 <= |buf|
    ensures k == ParsePacket(buf[off..])
  {
    hide Strtoul16, ParseLine;
    var n := Strtoul16(buf[off..off + 4]);
    assert buf[off..][..4] == buf[off..off + 4];
    if n.None? || n.value > MAX_PACKET { return Stop; }
    if n.value == 0 { return Skip(4); }
    if n.value == 1 { return Skip(4); }
    if n.value < 4 || off + n.value > |buf| { return Stop; }
    assert buf[off..][4..n.value] == buf[off + 4..off + n.value];
    var line := ReadLine(buf[off + 4..off + n.value]);
    k := match line case None => Skip(n.value) case Some(r) => Found(r, n.value);
  }

  method ReadLine(payload: bytes) returns (r: Option<Ref>)
    ensures r == ParseLine(payload)
  {
    hide FromHex, Index;
    var plen := |payload|;
    assert payload[..plen] == payload;
    while plen > 0 && IsBreak(payload[plen - 1])
      invariant plen <= |payload| && Trim(payload) == Trim(payload[..plen])
    {
      assert payload[..plen][..plen - 1] == payload[..plen - 1];
      plen := plen - 1;
    }
    var p := payload[..plen];
    assert Trim(p) == p;
    if |p| >= 2 && p[0] == HASH && p[1] == SPACE { return None; }
    var h: nat := 0;
    assert p[0..] == p;
    while h < |p| && HexValue(p[h]) >= 0
      invariant h <= |p| && HexSpan(p) == h + HexSpan(p[h..])
    {
      assert p[h..][1..] == p[h + 1..];
      h := h + 1;
    }
    assert HexSpan(p) == h;
    if h != 40 && h != 64 { return None; }
    if h >= |p| || p[h] != SPACE { return None; }
    var rest := p[h + 1..];
    var nul := Memchr(rest, 0, 0);
    assert rest[0..] == rest;
    var name := rest[..nul];
    if |name| == 0 || |name| > MAX_NAME { return None; }
    var oid := OidFromHex(p[..h]);
    r := match oid case Err(_) => None case Ok(id) => Some(Ref(id, name));
  }

  method EncodePacket(payload: Option<bytes>) returns (out: bytes)
    ensures out == Encode(payload)
  {
    hide Index;
    if payload.None? { return [48, 48, 48, 48]; }
    var p := payload.value;
    var plen := Memchr(p, 0, 0);
    IndexFits(p, 0);
    assert p[0..] == p;
    var tlen := plen + 4;
    if tlen > MAX_PACKET { tlen := MAX_PACKET; }
    out := Len4(tlen);
    out := out + p[..tlen - 4];
  }

  method PrintLine(r: Ref) returns (line: bytes)
    ensures line == RefLine(r)
  {
    hide ToHex;
    line := OidToHex(r.oid);
    line := line + [SPACE] + r.name + [LF];
  }

  /** Appends the packets of a stream one by one, as the request builders do. */
  method Frame(items: seq<Option<Ref>>) returns (out: bytes)
    ensures out == Stream(items)
  {
    hide Encode, RefLine, Stream;
    out := [];
    var i := 0;
    assert items[0..] == items;
    while i < |items|
      invariant i <= |items| && Stream(items) == out + Stream(items[i..])
    {
      var payload: Option<bytes> := None;
      if items[i].Some? {
        var line := PrintLine(items[i].value);
        payload := Some(line);
      }
      var packet := EncodePacket(payload);
      StreamNext(items, i, out);
      out := out + packet;
      i := i + 1;
    }
    StreamNext(items, i, out);
  }

  lemma StreamNext(items: seq<Option<Ref>>, i: nat, out: bytes)
    requires i <= |items|
    ensures i < |items| ==> out + Stream(items[i..]) == out + Encode(Payload(items[i])) + Stream(items[i + 1..])
    ensures i == |items| ==> out + Stream(items[i..]) == out
  {
    hide Encode, Payload;
    if i < |items| {
      assert items[i..][1..] == items[i + 1..] && items[i..][0] == items[i];
    }
  }

  /** Framing and parsing a list of refs. */
  method SendAndReceive(items: seq<Option<Ref>>) returns (refs: seq<Ref>)
    requires forall i | 0 <= i < |items| && items[i].Some? :: RefOk(items[i].value)
    ensures refs == Refs(items)
  {
    hide Stream, ParseRefs, Refs;
    var wire := Frame(items);
    StreamIsAdvertised(items);
    NoPacket();
    RefsRoundTrip(NoCaps(items), []);
    assert wire + [] == wire;
    refs := Parse(wire);
  }
}
