/** The entries of a pack file: type-and-size headers, offset-delta distances, compressed payloads, and
    what a pack of such entries means. */
module PackFormat {
  import opened Bytes
  import Varint

  /** zlib, as far as packs rely on it: `inflate` tells how much input a stream took and what it held. */
  datatype Zlib = Zlib(deflate: (int, bytes) -> bytes, inflate: bytes -> Option<(nat, bytes)>)

  /** A deflated stream is found again at the front of any input, whatever the level and what follows. */
  ghost predicate Faithful(z: Zlib) {
    forall level, data, rest ::
      z.inflate(z.deflate(level, data) + rest) == Some((|z.deflate(level, data)|, data))
  }

  const OFS_DELTA := 6
  const REF_DELTA := 7
  const HEADER_SIZE := 12
  const TRAILER_SIZE := 32

  // ----- headers -----

  /** Type in bits 4..6, size in the low four bits and the following groups of seven. */
  function EncodeHeader(kind: nat, size: nat): (r: bytes)
    requires kind < 8
    ensures |r| >= 1
  {
    if size / 0x10 == 0 then [kind * 0x10 + size] else [kind * 0x10 + size % 0x10 + 0x80] + Varint.Encode(size / 0x10)
  }

  /** The bytes of a header: the low four bits of the size and above them the type, then the rest of the size
      in groups of seven. */
  lemma HeaderAt(kind: nat, size: nat)
    requires kind < 8
    ensures var h := EncodeHeader(kind, size);
      && h[0] % 0x10 == size % 0x10 && h[0] / 0x10 % 8 == kind && (h[0] >= 0x80 <==> size >= 0x10)
      && h[1..] == if size >= 0x10 then Varint.Encode(size / 0x10) else []
  {
    if size >= 0x10 { FirstByte(kind, size % 0x10, kind * 0x10 + size % 0x10 + 0x80); }
  }

  datatype Header = Header(kind: nat, size: nat, length: nat)

  /** Eleven or more bytes are refused; the size is kept in 64 bits. */
  function ParseHeader(s: bytes): (r: Option<Header>)
    ensures r.Some? ==> r.value.kind < 8 && 1 <= r.value.length <= |s| && r.value.length <= 10
  {
    if s == [] then None
    else if s[0] < 0x80 then Some(Header(s[0] / 0x10, s[0] % 0x10, 1))
    else
      var n := Varint.Length(s[1..]);
      if n == 0 || n > 9 then None
      else Some(Header(s[0] / 0x10 % 8, (s[0] % 0x10 + 0x10 * Varint.Value(s[1..])) % TWO64, 1 + n))
  }

  /** Ten bytes that all go on are refused, and so is an input that ends before that. */
  lemma {:induction false} HeaderRefused(s: bytes)
    requires forall i | 0 <= i < |s| && i < 10 :: s[i] >= 0x80
    ensures ParseHeader(s) == None
  {
    if s != [] {
      var t := s[1..];
      assert forall i | 0 <= i < |t| && i < 9 :: t[i] == s[i + 1];
      GroupsGoOn(t, 9);
    }
  }

  lemma {:induction false} GroupsGoOn(t: bytes, n: nat)
    requires forall i | 0 <= i < |t| && i < n :: t[i] >= 0x80
    ensures Varint.Length(t) == 0 || Varint.Length(t) > n
    decreases n
  {
    if t != [] && n > 0 {
      assert forall i | 0 <= i < |t[1..]| && i < n - 1 :: t[1..][i] == t[i + 1];
      GroupsGoOn(t[1..], n - 1);
    }
  }

  /** The header round trip, for every 64-bit size. */
  lemma {:induction false} HeaderRoundTrip(kind: nat, size: nat, rest: bytes)
    requires kind < 8 && size < TWO64
    ensures ParseHeader(EncodeHeader(kind, size) + rest) == Some(Header(kind, size, |EncodeHeader(kind, size)|))
    ensures |EncodeHeader(kind, size)| <= 10
  {
    hide Varint.Encode, Varint.Length, Varint.Value;
    var s := EncodeHeader(kind, size) + rest;
    if size / 0x10 > 0 {
      assert s[1..] == Varint.Encode(size / 0x10) + rest;
      Varint.RoundTrip(size / 0x10, rest);
      NineGroups(size / 0x10);
      FirstByte(kind, size % 0x10, s[0]);
      assert size % 0x10 + 0x10 * (size / 0x10) == size;
    }
  }

  lemma FirstByte(kind: nat, low: nat, b: byte)
    requires kind < 8 && low < 0x10 && b == kind * 0x10 + low + 0x80
    ensures b >= 0x80 && b / 0x10 % 8 == kind && b % 0x10 == low
  {
  }

  /** 60 bits fit nine groups. */
  lemma {:induction false} NineGroups(v: nat)
    requires v < TWO60
    ensures |Varint.Encode(v)| <= 9
  {
    var v1 := v / 0x80;
    var v2 := v1 / 0x80;
    var v3 := v2 / 0x80;
    var v4 := v3 / 0x80;
    var v5 := v4 / 0x80;
    var v6 := v5 / 0x80;
    var v7 := v6 / 0x80;
    var v8 := v7 / 0x80;
    assert v8 < 0x80;
    assert |Varint.Encode(v8)| == 1;
    assert |Varint.Encode(v6)| <= 3;
    assert |Varint.Encode(v4)| <= 5;
    assert |Varint.Encode(v2)| <= 7;
  }

  method WriteHeader(kind: nat, size: nat) returns (out: bytes)
    requires kind < 8 && size < TWO64
    ensures out == EncodeHeader(kind, size) && |out| <= 10
  {
    hide Varint.Encode;
    var c: byte := kind * 0x10 + size % 0x10;
    var left: nat := size / 0x10;
    if left > 0 { c := c + 0x80; }
    out := [c];
    while left > 0
      invariant EncodeHeader(kind, size) == if left > 0 then out + Varint.Encode(left) else out
    {
      c := left % 0x80;
      if left >= 0x80 { Varint.EncodeStep(out, left); } else { Varint.EncodeLast(left); }
      left := left / 0x80;
      if left > 0 { c := c + 0x80; }
      out := out + [c];
    }
    HeaderRoundTrip(kind, size, []);
  }

  /** After k groups of s, of which the last byte is c, on top of the low four bits. */
  ghost predicate Gathered(s: bytes, low: nat, k: nat, c: byte, size: nat, exact: nat, shift: nat) {
    && k <= |s| && size == (low + 0x10 * exact) % TWO64 && Pow2(shift) == 0x10 * Pow2(7 * k)
    && (c >= 0x80 ==>
          && Varint.Value(s) == exact + Varint.Scaled(s[k..], Pow2(7 * k))
          && Varint.Length(s) == if Varint.Length(s[k..]) == 0 then 0 else k + Varint.Length(s[k..]))
    && (c < 0x80 ==> k > 0 && Varint.Length(s) == k && Varint.Value(s) == exact)
  }

  lemma GatherFirst(s: bytes, low: nat, c: byte, k: nat, shift: nat)
    requires c >= 0x80 && low < 0x10 && k == 0 && shift == 4
    ensures Gathered(s, low, k, c, low, 0, shift)
  {
    hide Varint.Length, Varint.Value, Varint.Scaled, Pow2;
    Varint.Start(s, k, 7 * k);
    Four(shift);
  }

  lemma {:induction false} GatherNext(s: bytes, low: nat, k: nat, c: byte, size: nat, exact: nat, shift: nat)
    requires Gathered(s, low, k, c, size, exact, shift) && c >= 0x80 && k < |s|
    ensures s[k] % 0x80 * Pow2(shift) >= 0 && s[k] % 0x80 * Pow2(7 * k) >= 0
    ensures Gathered(s, low, k + 1, s[k], (size + s[k] % 0x80 * Pow2(shift)) % TWO64,
                     exact + s[k] % 0x80 * Pow2(7 * k), shift + 7)
  {
    hide Varint.Length, Varint.Value, Varint.Scaled, Pow2;
    Varint.Peel(s, k, 7 * k);
    assert 7 * k + 7 == 7 * (k + 1);
    GroupIn(size, low, exact, s[k] % 0x80, Pow2(shift), Pow2(7 * k));
    Next(shift, 7 * k);
  }

  /** What the last byte, or the end of the input, or the eleventh byte means. */
  lemma Ends(s: bytes, low: nat, k: nat, c: byte, size: nat, exact: nat, shift: nat)
    requires Gathered(s, low, k, c, size, exact, shift)
    ensures c < 0x80 ==> Varint.Length(s) == k && k > 0 && size == (low + 0x10 * Varint.Value(s)) % TWO64
    ensures c >= 0x80 && k == |s| ==> Varint.Length(s) == 0
    ensures k == 10 ==> Varint.Length(s) == 0 || Varint.Length(s) > 9
  {
    hide Varint.Length, Varint.Value, Varint.Scaled, Pow2;
    if c >= 0x80 && k == |s| { Varint.Ended(s, k); }
    if k == 10 { TooLong(s, k, c); }
  }

  /** The loop of parse_pack_header. */
  method ReadHeader(p: bytes) returns (r: Option<Header>)
    ensures r == ParseHeader(p)
  {
    hide Varint.Length, Varint.Value, Pow2, Gathered;
    if |p| < 1 { return None; }
    var c: byte := p[0];
    var kind: nat, size: nat, shift: nat, i: nat := c / 0x10 % 8, c % 0x10, 4, 1;
    if c < 0x80 { return Some(Header(kind, size, i)); }
    ghost var s: bytes, low: nat, exact: nat, k: nat := p[1..], size, 0, 0;
    GatherFirst(s, low, c, k, shift);
    while c >= 0x80
      invariant 1 <= i <= 10 && i <= |p| && i == 1 + k && Gathered(s, low, k, c, size, exact, shift)
      decreases 11 - i
    {
      Ends(s, low, k, c, size, exact, shift);
      if i >= |p| { return None; }
      GatherNext(s, low, k, c, size, exact, shift);
      assert s[k] == p[i];
      c := p[i];
      size := (size + c % 0x80 * Pow2(shift)) % TWO64;
      exact := exact + c % 0x80 * Pow2(7 * k);
      shift := shift + 7;
      i := i + 1;
      k := k + 1;
      Ends(s, low, k, c, size, exact, shift);
      if i > 10 { return None; }
    }
    Ends(s, low, k, c, size, exact, shift);
    r := Some(Header(kind, size, i));
  }

  lemma Four(shift: nat)
    requires shift == 4
    ensures Pow2(shift) == 0x10 * Pow2(7 * 0)
  {
    assert Pow2(4) == 2 * Pow2(3) && Pow2(3) == 2 * Pow2(2) && Pow2(2) == 2 * Pow2(1) && Pow2(1) == 2;
  }

  lemma Next(a: nat, b: nat)
    requires Pow2(a) == 0x10 * Pow2(b)
    ensures Pow2(a + 7) == 0x10 * Pow2(b + 7)
  {
    Pow2Step7(a);
    Pow2Step7(b);
  }

  lemma {:induction false} GroupIn(size: nat, low: nat, exact: nat, group: nat, p: nat, q: nat)
    requires size == (low + 0x10 * exact) % TWO64 && p == 0x10 * q
    ensures group * p >= 0 && group * q >= 0
    ensures (size + group * p) % TWO64 == (low + 0x10 * (exact + group * q)) % TWO64
  {
    MulNat(group, p);
    MulNat(group, q);
    assert group * p == 0x10 * (group * q);
    ModAdd(low + 0x10 * exact, group * p, TWO64);
  }

  lemma TooLong(s: bytes, k: nat, c: byte)
    requires k == 10 && k <= |s|
    requires c >= 0x80 ==> Varint.Length(s) == if Varint.Length(s[k..]) == 0 then 0 else k + Varint.Length(s[k..])
    requires c < 0x80 ==> Varint.Length(s) == k
    ensures Varint.Length(s) == 0 || Varint.Length(s) > 9
  {
  }

  // ----- offset-delta distances -----

  /** Git's distance encoding, most significant group first: each continued group counts one more. */
  function EncodeOfs(ofs: nat): (r: bytes)
    ensures |r| >= 1
  {
    OfsPrefix(ofs / 0x80) + [ofs % 0x80]
  }

  function OfsPrefix(v: nat): bytes {
    if v == 0 then [] else OfsPrefix((v - 1) / 0x80) + [0x80 + (v - 1) % 0x80]
  }

  /** The groups of seven bits as one number, most significant first. */
  function Groups(s: bytes): nat {
    if s == [] then 0 else 0x80 * Groups(s[..|s| - 1]) + s[|s| - 1] % 0x80
  }

  /** One for every continued group, at its place. */
  function Bias(m: nat): nat {
    if m == 0 then 0 else 0x80 * (Bias(m - 1) + Power(0x80, 0))
  }

  /** The bytes of a distance: their groups spell it, after one has been taken off for each continued group, and
      all but the last have the top bit. */
  lemma {:induction false} OfsMeans(ofs: nat)
    ensures var s := EncodeOfs(ofs);
      && ofs == Groups(s) + Bias(|s| - 1) && s[|s| - 1] < 0x80 && forall i | 0 <= i < |s| - 1 :: s[i] >= 0x80
  {
    var v, s := ofs / 0x80, EncodeOfs(ofs);
    assert s[..|s| - 1] == OfsPrefix(v);
    PrefixMeans(v);
  }

  lemma {:induction false} PrefixMeans(v: nat)
    ensures var p := OfsPrefix(v);
      0x80 * v == 0x80 * Groups(p) + Bias(|p|) && forall i | 0 <= i < |p| :: p[i] >= 0x80
    decreases v
  {
    if v > 0 {
      var u := (v - 1) / 0x80;
      PrefixMeans(u);
      var p := OfsPrefix(v);
      assert p[..|p| - 1] == OfsPrefix(u);
    }
  }

  datatype Distance = Distance(ofs: nat, length: nat)

  /** The value after more groups of s are read onto `off`, of which the last byte read is `last`. */
  function OfsFrom(s: bytes, i: nat, last: byte, off: nat): (r: Option<Distance>)
    requires i <= |s|
    ensures r.Some? ==> i <= r.value.length <= |s|
    decreases |s| - i
  {
    if last < 0x80 then Some(Distance(off, i))
    else if i >= |s| then None
    else OfsFrom(s, i + 1, s[i], (off + 1) * 0x80 + s[i] % 0x80)
  }

  /** parse_ofs_delta_offset: at most ten bytes; the value is kept in 64 bits. */
  function ParseOfs(s: bytes): (r: Option<Distance>)
    ensures r.Some? ==> 1 <= r.value.length <= |s|
  {
    if s == [] then None
    else match OfsFrom(s, 1, s[0], s[0] % 0x80)
      case None => None
      case Some(d) => if d.length > 10 then None else Some(Distance(d.ofs % TWO64, d.length))
  }

  /** The same for distances. */
  lemma {:induction false} OfsRefused(s: bytes)
    requires forall i | 0 <= i < |s| && i < 10 :: s[i] >= 0x80
    ensures ParseOfs(s) == None
  {
    if s != [] { OfsGoesOn(s, 1, s[0] % 0x80); }
  }

  lemma {:induction false} OfsGoesOn(s: bytes, i: nat, off: nat)
    requires 1 <= i <= |s| && i <= 10 && forall j | 0 <= j < |s| && j < 10 :: s[j] >= 0x80
    ensures OfsFrom(s, i, s[i - 1], off).Some? ==> OfsFrom(s, i, s[i - 1], off).value.length > 10
    decreases 10 - i
  {
    if i < |s| && i < 10 { OfsGoesOn(s, i + 1, (off + 1) * 0x80 + s[i] % 0x80); }
  }

  /** Reading the groups of a prefix leaves the value they stand for. */
  lemma {:induction false} OfsPrefixRead(v: nat, s: bytes, rest: bytes)
    requires v > 0 && rest != [] && s == OfsPrefix(v) + rest
    ensures |OfsPrefix(v)| >= 1
    ensures OfsFrom(s, 1, s[0], s[0] % 0x80)
         == OfsFrom(s, |OfsPrefix(v)| + 1, rest[0], v * 0x80 + rest[0] % 0x80)
    decreases v
  {
    hide OfsFrom;
    var u, n := (v - 1) / 0x80, |OfsPrefix(v)|;
    var group: byte := 0x80 + (v - 1) % 0x80;
    PrefixParts(v);
    assert s[n] == rest[0] && s[n - 1] == group;
    if u > 0 {
      assert s == OfsPrefix(u) + ([group] + rest);
      OfsPrefixRead(u, s, [group] + rest);
    }
    OneMore(s, n, group, u * 0x80 + group % 0x80);
  }

  lemma PrefixParts(v: nat)
    requires v > 0
    ensures OfsPrefix(v) == OfsPrefix((v - 1) / 0x80) + [0x80 + (v - 1) % 0x80]
    ensures (v - 1) / 0x80 == 0 ==> OfsPrefix((v - 1) / 0x80) == []
  {
  }

  lemma OneMore(s: bytes, i: nat, last: byte, off: nat)
    requires i < |s| && last >= 0x80
    ensures OfsFrom(s, i, last, off) == OfsFrom(s, i + 1, s[i], (off + 1) * 0x80 + s[i] % 0x80)
  {
  }

  /** The distance round trip. */
  lemma {:induction false} OfsRoundTrip(ofs: nat, rest: bytes)
    requires ofs < TWO64 && |EncodeOfs(ofs)| <= 10
    ensures ParseOfs(EncodeOfs(ofs) + rest) == Some(Distance(ofs, |EncodeOfs(ofs)|))
  {
    var v, s := ofs / 0x80, EncodeOfs(ofs) + rest;
    var tail := [ofs % 0x80] + rest;
    assert s == OfsPrefix(v) + tail;
    if v > 0 {
      OfsPrefixRead(v, s, tail);
    }
  }

  lemma {:induction false} OfsFits(ofs: nat)
    requires ofs < TWO60
    ensures |EncodeOfs(ofs)| <= 10
  {
    var v := ofs / 0x80;
    var v1 := if v == 0 then 0 else (v - 1) / 0x80;
    var v2 := if v1 == 0 then 0 else (v1 - 1) / 0x80;
    var v3 := if v2 == 0 then 0 else (v2 - 1) / 0x80;
    var v4 := if v3 == 0 then 0 else (v3 - 1) / 0x80;
    var v5 := if v4 == 0 then 0 else (v4 - 1) / 0x80;
    var v6 := if v5 == 0 then 0 else (v5 - 1) / 0x80;
    var v7 := if v6 == 0 then 0 else (v6 - 1) / 0x80;
    var v8 := if v7 == 0 then 0 else (v7 - 1) / 0x80;
    assert v8 == 0;
    assert |OfsPrefix(v7)| <= 1;
    assert |OfsPrefix(v6)| <= 2;
    assert |OfsPrefix(v5)| <= 3;
    assert |OfsPrefix(v4)| <= 4;
    assert |OfsPrefix(v3)| <= 5;
    assert |OfsPrefix(v2)| <= 6;
    assert |OfsPrefix(v1)| <= 7;
    assert |OfsPrefix(v)| <= 8;
  }

  /** The loop of parse_ofs_delta_offset. */
  method ReadOfs(p: bytes) returns (r: Option<Distance>)
    ensures r == ParseOfs(p)
  {
    if |p| < 1 { return None; }
    var off, i := p[0] % 0x80, 1;
    ghost var exact: nat := off;
    while p[i - 1] >= 0x80
      invariant 1 <= i <= 10 && i <= |p| && off == exact % TWO64
      invariant OfsFrom(p, 1, p[0], p[0] % 0x80) == OfsFrom(p, i, p[i - 1], exact)
      decreases 11 - i
    {
      if i >= |p| { return None; }
      OfsStep(off, exact, p[i] % 0x80);
      off := ((off + 1) * 0x80 + p[i] % 0x80) % TWO64;
      exact := (exact + 1) * 0x80 + p[i] % 0x80;
      i := i + 1;
      if i > 10 { return None; }
    }
    r := Some(Distance(off, i));
  }

  lemma OfsStep(off: nat, exact: nat, group: nat)
    requires off == exact % TWO64
    ensures ((off + 1) * 0x80 + group) % TWO64 == ((exact + 1) * 0x80 + group) % TWO64
  {
  }
}
