/** The pack index file: written sorted with a fanout, read back, and searched (src/pack/packfile.c). */
module PackIndex {
  import opened Bytes

  const MAGIC: bytes := [0xFF, 0x74, 0x4F, 0x63, 0, 0, 0, 2]

  /** A loaded index. */
  datatype Loaded = Loaded(fanout: seq<nat>, ids: seq<bytes>, crcs: seq<nat>, offsets: seq<nat>)

  lemma MagicIs()
    ensures MAGIC == [0xFF] + Ascii("tOc") + BE32(2)
  {
  }

  // ----- fixed-width records -----

  ghost predicate AllWide(chunks: seq<bytes>, w: nat) {
    forall i | 0 <= i < |chunks| :: |chunks[i]| == w
  }

  function Flat(chunks: seq<bytes>): bytes {
    if chunks == [] then [] else Flat(chunks[..|chunks| - 1]) + chunks[|chunks| - 1]
  }

  lemma {:induction false} FlatSize(chunks: seq<bytes>, w: nat)
    requires AllWide(chunks, w)
    ensures |Flat(chunks)| == |chunks| * w
    decreases |chunks|
  {
    if chunks != [] {
      var n := |chunks| - 1;
      FlatSize(chunks[..n], w);
      assert (n + 1) * w == n * w + w;
    }
  }

  /** Record i of a flat run of records of the same width. */
  lemma {:induction false} FlatAt(chunks: seq<bytes>, w: nat, i: nat)
    requires AllWide(chunks, w) && i < |chunks|
    ensures i * w + w <= |Flat(chunks)| && Flat(chunks)[i * w..i * w + w] == chunks[i]
    decreases |chunks|
  {
    var n := |chunks| - 1;
    var init := chunks[..n];
    FlatSize(init, w);
    MulNat(i, w);
    if i < n {
      FlatAt(init, w, i);
      assert Flat(chunks) == Flat(init) + chunks[n];
      assert Flat(chunks)[i * w..i * w + w] == Flat(init)[i * w..i * w + w];
      assert init[i] == chunks[i];
    } else {
      assert Flat(chunks) == Flat(init) + chunks[n];
    }
  }

  function Words(xs: seq<nat>): (r: seq<bytes>)
    ensures |r| == |xs| && forall i | 0 <= i < |xs| :: r[i] == BE32(xs[i])
  {
    seq(|xs|, i requires 0 <= i < |xs| => BE32(xs[i]))
  }

  // ----- writing -----

  /** What the index file holds before its own checksum. */
  function Content(fanout: seq<nat>, ids: seq<bytes>, crcs: seq<nat>, offsets: seq<nat>, packSum: bytes): bytes {
    MAGIC + (Flat(Words(fanout)) + (Flat(ids) + (Flat(Words(crcs)) + (Flat(Words(offsets)) + packSum))))
  }

  /** Appends the records one by one, as the write loops do. */
  method Emit(out: bytes, chunks: seq<bytes>) returns (longer: bytes)
    ensures longer == out + Flat(chunks)
  {
    longer := out;
    var i := 0;
    while i < |chunks|
      invariant i <= |chunks| && longer == out + Flat(chunks[..i])
    {
      assert chunks[..i + 1][..i] == chunks[..i];
      longer := longer + chunks[i];
      i := i + 1;
    }
    assert chunks[..i] == chunks;
  }

  method Assemble(fanout: seq<nat>, ids: seq<bytes>, crcs: seq<nat>, offsets: seq<nat>, packSum: bytes)
    returns (out: bytes)
    ensures out == Content(fanout, ids, crcs, offsets, packSum)
  {
    hide Flat, Words;
    var a := Emit(MAGIC, Words(fanout));
    var b := Emit(a, ids);
    var c := Emit(b, Words(crcs));
    var d := Emit(c, Words(offsets));
    out := d + packSum;
  }

  // ----- reading -----

  /** The id width that explains the file size for n objects: the first of 20, 32, 48, 64 that fits
      exactly or leaves room for at most n eight-byte offsets; 32 if none does. */
  function BaseSize(n: nat, w: nat): nat {
    8 + 1024 + n * w + n * 4 + n * 4 + 2 * w
  }

  predicate WidthFits(size: nat, n: nat, w: nat) {
    size == BaseSize(n, w) || (size > BaseSize(n, w) && (size - BaseSize(n, w)) % 8 == 0
      && size - BaseSize(n, w) <= n * 8)
  }

  function DetectWidth(size: nat, n: nat): nat {
    if WidthFits(size, n, 20) then 20
    else if WidthFits(size, n, 32) then 32
    else if WidthFits(size, n, 48) then 48
    else if WidthFits(size, n, 64) then 64
    else 32
  }

  /** The size of a file with n ids of this width, of which k offsets take eight bytes more. */
  function SizeWith(n: nat, w: nat, k: nat): nat {
    1032 + n * (w + 8) + 2 * w + 8 * k
  }

  /** The detection finds the width of every file, whatever the object count and however many offsets are
      large. */
  lemma {:induction false} WidthDetected(n: nat, w: nat, k: nat)
    requires (w == 20 || w == 32 || w == 48 || w == 64) && k <= n
    ensures DetectWidth(SizeWith(n, w, k), n) == w
  {
    MulNat(n, w);
    assert n * (w + 8) == n * w + n * 8;
  }

  /** Without a width that explains the size it settles for 32. */
  lemma {:induction false} NoWidth(size: nat, n: nat)
    requires forall w: nat, k: nat | (w == 20 || w == 32 || w == 48 || w == 64) && k <= n :: size != SizeWith(n, w, k)
    ensures DetectWidth(size, n) == 32
  {
    if WidthFits(size, n, 20) { FitsSome(size, n, 20); }
    if WidthFits(size, n, 48) { FitsSome(size, n, 48); }
    if WidthFits(size, n, 64) { FitsSome(size, n, 64); }
  }

  lemma FitsSome(size: nat, n: nat, w: nat)
    requires WidthFits(size, n, w)
    requires w == 20 || w == 32 || w == 48 || w == 64
    ensures exists k: nat :: k <= n && size == SizeWith(n, w, k)
  {
    assert n * (w + 8) == n * w + n * 8;
    var k := (size - BaseSize(n, w)) / 8;
    assert size == SizeWith(n, w, k);
  }

  lemma Width32(n: nat)
    ensures DetectWidth(BaseSize(n, ID_SIZE), n) == ID_SIZE
  {
  }

  /** Reads n records of width w from position p. */
  method ReadRecords(file: bytes, p: nat, w: nat, n: nat) returns (ok: bool, rs: seq<bytes>, end: nat)
    ensures ok ==> |rs| == n && AllWide(rs, w) && end == p + n * w && end <= |file|
    ensures ok ==> forall i | 0 <= i < n ::
      0 <= i * w && p + i * w + w <= |file| && rs[i] == file[p + i * w..p + i * w + w]
    ensures n * w >= 0 && (ok <==> p + n * w <= |file|)
  {
    MulNat(n, w);
    ok, rs, end := p <= |file|, [], p;
    var i := 0;
    while i < n && ok
      invariant i <= n && i * w >= 0 && end == p + i * w
      invariant ok <==> p + i * w <= |file|
      invariant ok ==> |rs| == i && AllWide(rs, w)
      invariant ok ==> forall j | 0 <= j < i ::
        0 <= j * w && p + j * w + w <= |file| && rs[j] == file[p + j * w..p + j * w + w]
      invariant !ok ==> p + n * w > |file|
    {
      StepUp(i, n, w);
      if end + w > |file| {
        ok := false;
      } else {
        rs := rs + [file[end..end + w]];
      }
      end := end + w;
      i := i + 1;
    }
  }

  lemma StepUp(i: nat, n: nat, w: nat)
    requires i < n
    ensures (i + 1) * w == i * w + w && 0 <= i * w && (i + 1) * w <= n * w
  {
    MulNat(i, w);
    MulNat(n - i - 1, w);
    assert (n - i - 1) * w == n * w - i * w - w;
  }

  /** `NotIndex` is the source's error return; `OutOfFile` a read past the end of the mapping. */
  datatype Opening = Opened(index: Loaded) | NotIndex | OutOfFile

  /** The parts a written file is made of. */
  ghost predicate Parts(file: bytes, fanout: seq<nat>, ids: seq<bytes>, crcs: seq<nat>, offsets: seq<nat>,
                        packSum: bytes, sum: bytes) {
    && file == Content(fanout, ids, crcs, offsets, packSum) + sum
    && |fanout| == 256 && |ids| == |crcs| == |offsets| == fanout[255]
    && AllWide(ids, ID_SIZE) && |packSum| == |sum| == 32
    && (forall i | 0 <= i < 256 :: fanout[i] < TWO32)
    && (forall i | 0 <= i < |crcs| :: crcs[i] < TWO32)
    && (forall i | 0 <= i < |offsets| :: offsets[i] < TWO31)
  }

  /** Where each part lies. */
  lemma {:induction false} Layout(file: bytes, fanout: seq<nat>, ids: seq<bytes>, crcs: seq<nat>, offsets: seq<nat>,
                                  packSum: bytes, sum: bytes)
    requires Parts(file, fanout, ids, crcs, offsets, packSum, sum)
    ensures var n := |ids|;
      && |file| == BaseSize(n, ID_SIZE) && file[..8] == MAGIC
      && file[8..1032] == Flat(Words(fanout))
      && file[1032..1032 + n * 32] == Flat(ids)
      && file[1032 + n * 32..1032 + n * 32 + n * 4] == Flat(Words(crcs))
      && file[1032 + n * 32 + n * 4..1032 + n * 32 + n * 4 + n * 4] == Flat(Words(offsets))
  {
    var n := |ids|;
    FlatSize(Words(fanout), 4);
    FlatSize(ids, 32);
    FlatSize(Words(crcs), 4);
    FlatSize(Words(offsets), 4);
    var f, i, c, o := Flat(Words(fanout)), Flat(ids), Flat(Words(crcs)), Flat(Words(offsets));
    assert file == MAGIC + (f + (i + (c + (o + (packSum + sum))))) by {
      FiveParts(MAGIC, f, i, c, o, packSum, sum);
    }
    Slices(file, MAGIC, f, i, c, o, packSum + sum);
  }

  lemma FiveParts(m: bytes, f: bytes, i: bytes, c: bytes, o: bytes, p: bytes, s: bytes)
    ensures m + (f + (i + (c + (o + p)))) + s == m + (f + (i + (c + (o + (p + s)))))
  {
    assert o + p + s == o + (p + s);
    assert c + (o + p) + s == c + (o + p + s);
    assert i + (c + (o + p)) + s == i + (c + (o + p) + s);
    assert f + (i + (c + (o + p))) + s == f + (i + (c + (o + p)) + s);
  }

  lemma Slices(file: bytes, m: bytes, f: bytes, i: bytes, c: bytes, o: bytes, rest: bytes)
    requires file == m + (f + (i + (c + (o + rest))))
    ensures var a := |m|; var b := a + |f|; var d := b + |i|; var e := d + |c|; var g := e + |o|;
      && g <= |file| && file[..a] == m && file[a..b] == f && file[b..d] == i && file[d..e] == c && file[e..g] == o
  {
    assert file[|m|..] == f + (i + (c + (o + rest)));
    assert file[|m| + |f|..] == i + (c + (o + rest));
    assert file[|m| + |f| + |i|..] == c + (o + rest);
    assert file[|m| + |f| + |i| + |c|..] == o + rest;
  }

  /** Reading back a part: the records at its place are the ones written. */
  lemma {:induction false} RecordsAre(file: bytes, p: nat, w: nat, chunks: seq<bytes>, rs: seq<bytes>)
    requires AllWide(chunks, w) && |rs| == |chunks|
    requires |chunks| * w >= 0 && p + |chunks| * w <= |file| && file[p..p + |chunks| * w] == Flat(chunks)
    requires forall i | 0 <= i < |rs| ::
      0 <= i * w && p + i * w + w <= |file| && rs[i] == file[p + i * w..p + i * w + w]
    ensures rs == chunks
  {
    hide Flat;
    FlatSize(chunks, w);
    forall i | 0 <= i < |rs| ensures rs[i] == chunks[i] {
      FlatAt(chunks, w, i);
      SliceOfSlice(file, p, |chunks| * w, i * w, w);
    }
  }

  method Decode32(rs: seq<bytes>) returns (xs: seq<nat>)
    requires AllWide(rs, 4)
    ensures |xs| == |rs| && forall i | 0 <= i < |rs| :: xs[i] == BigEndian32(rs[i]) && xs[i] < TWO32
  {
    xs := [];
    var i := 0;
    while i < |rs|
      invariant i <= |rs| && |xs| == i && forall j | 0 <= j < i :: xs[j] == BigEndian32(rs[j]) && xs[j] < TWO32
    {
      xs := xs + [BigEndian32(rs[i])];
      i := i + 1;
    }
  }

  lemma DecodedWords(xs: seq<nat>, rs: seq<bytes>, ys: seq<nat>)
    requires rs == Words(xs) && |ys| == |rs| && forall i | 0 <= i < |xs| :: xs[i] < TWO32
    requires AllWide(rs, 4) && forall i | 0 <= i < |rs| :: ys[i] == BigEndian32(rs[i])
    ensures ys == xs
  {
    hide BE32, BigEndian32;
    forall i | 0 <= i < |xs| ensures ys[i] == xs[i] {
      BE32RoundTrip(xs[i]);
    }
  }

  /** A part of n big-endian words. */
  method ReadWords(file: bytes, p: nat, n: nat, ghost xs: seq<nat>) returns (ok: bool, ys: seq<nat>, end: nat)
    ensures ok ==> end == p + n * 4 && end <= |file| && |ys| == n && forall i | 0 <= i < n :: ys[i] < TWO32
    ensures ok <==> p + n * 4 <= |file|
    ensures ok && |xs| == n && file[p..p + n * 4] == Flat(Words(xs)) && (forall i | 0 <= i < n :: xs[i] < TWO32)
      ==> ys == xs
  {
    hide Flat, BE32, BigEndian32;
    var rs;
    ok, rs, end := ReadRecords(file, p, 4, n);
    ys := [];
    if !ok { return; }
    ys := Decode32(rs);
    if |xs| == n && file[p..p + n * 4] == Flat(Words(xs)) && (forall i | 0 <= i < n :: xs[i] < TWO32) {
      WordsWide(xs);
      RecordsAre(file, p, 4, Words(xs), rs);
      DecodedWords(xs, rs, ys);
    }
  }

  lemma WordsWide(xs: seq<nat>)
    ensures AllWide(Words(xs), 4)
  {
  }

  /** Word k of a table of words that lies in a file. */
  lemma {:induction false} WordIn(file: bytes, p: nat, xs: seq<nat>, k: nat)
    requires p + |xs| * 4 <= |file| && file[p..p + |xs| * 4] == Flat(Words(xs)) && k < |xs| && xs[k] < TWO32
    ensures p + k * 4 + 4 <= |file| && BigEndian32(file[p + k * 4..p + k * 4 + 4]) == xs[k]
  {
    hide Flat, BE32, BigEndian32;
    WordsWide(xs);
    FlatAt(Words(xs), 4, k);
    BE32RoundTrip(xs[k]);
    SliceOfSlice(file, p, |xs| * 4, k * 4, 4);
  }

  /** The mark of an offset that did not fit 31 bits. */
  predicate HasTop(offset: nat) {
    offset / TWO31 % 2 == 1
  }

  function Marked(offsets: seq<nat>): (n: nat)
    ensures (forall i | 0 <= i < |offsets| :: offsets[i] < TWO31) ==> n == 0
  {
    if offsets == [] then 0
    else
      var n := |offsets| - 1;
      Marked(offsets[..n]) + if HasTop(offsets[n]) then 1 else 0
  }

  lemma {:induction false} MarkedPrefix(offsets: seq<nat>, i: nat)
    requires i <= |offsets|
    ensures Marked(offsets[..i]) <= Marked(offsets)
    decreases |offsets|
  {
    var n := |offsets| - 1;
    if i <= n {
      assert offsets[..n][..i] == offsets[..i];
      MarkedPrefix(offsets[..n], i);
    } else {
      assert offsets[..i] == offsets;
    }
  }

  function BigEndian64(file: bytes, at: nat): nat
    requires at + 8 <= |file|
  {
    BigEndian32(file[at..at + 4]) * TWO32 + BigEndian32(file[at + 4..at + 8])
  }

  /** The offset of entry i: its own, or the eight bytes after those of the marked offsets before it. */
  ghost predicate OffsetIs(file: bytes, p: nat, offsets: seq<nat>, i: nat, offset: nat)
    requires i < |offsets|
  {
    if HasTop(offsets[i]) then
      var at := p + 8 * Marked(offsets[..i]);
      at + 8 <= |file| && offset == BigEndian64(file, at)
    else offset == offsets[i]
  }

  /** The mark is the top bit of 32; each marked offset counts one; the eight bytes are big-endian. */
  lemma {:induction false} MarksMean(offsets: seq<nat>, offset: nat, high: nat, low: nat)
    requires offset < TWO32 && high < TWO32 && low < TWO32
    ensures HasTop(offset) <==> offset >= 0x8000_0000
    ensures Marked(offsets + [offset]) == Marked(offsets) + if offset >= 0x8000_0000 then 1 else 0
    ensures BigEndian64(BE32(high) + BE32(low), 0) == high * 0x1_0000_0000 + low
  {
    hide BE32, BigEndian32;
    assert (offsets + [offset])[..|offsets|] == offsets;
    BE32RoundTrip(high);
    BE32RoundTrip(low);
    WordSize(high);
    WordSize(low);
    var b := BE32(high) + BE32(low);
    assert b[0..4] == BE32(high) && b[4..8] == BE32(low);
  }

  lemma WordSize(x: nat)
    ensures |BE32(x)| == 4
  {
  }

  /** Replaces each marked offset by the next eight-byte offset. The index in its low bits is not used. */
  method LargeOffsets(file: bytes, p: nat, offsets: seq<nat>) returns (ok: bool, r: seq<nat>)
    ensures ok <==> Marked(offsets) == 0 || p + 8 * Marked(offsets) <= |file|
    ensures ok ==> |r| == |offsets| && forall i | 0 <= i < |offsets| :: OffsetIs(file, p, offsets, i, r[i])
  {
    hide BigEndian64, HasTop;
    ok, r := true, offsets;
    var at: nat, i: nat := p, 0;
    while i < |offsets|
      invariant i <= |offsets| && |r| == |offsets| && at == p + 8 * Marked(offsets[..i])
      invariant Marked(offsets[..i]) > 0 ==> at <= |file|
      invariant forall j | 0 <= j < i :: OffsetIs(file, p, offsets, j, r[j])
      invariant forall j | i <= j < |offsets| :: r[j] == offsets[j]
    {
      assert offsets[..i + 1][..i] == offsets[..i];
      MarkedPrefix(offsets, i + 1);
      if HasTop(offsets[i]) {
        if at + 8 > |file| { return false, []; }
        r := r[i := BigEndian64(file, at)];
        at := at + 8;
      }
      i := i + 1;
    }
    assert offsets[..i] == offsets;
  }

  /** Without marked offsets nothing changes. */
  lemma Unmarked(file: bytes, p: nat, offsets: seq<nat>, r: seq<nat>)
    requires |r| == |offsets| && forall i | 0 <= i < |offsets| :: OffsetIs(file, p, offsets, i, r[i])
    requires forall i | 0 <= i < |offsets| :: offsets[i] < TWO31
    ensures r == offsets
  {
  }

  /** Opening an index file; a file this program wrote gives back what was written. */
  method Load(file: bytes, ghost fanout: seq<nat>, ghost ids: seq<bytes>, ghost crcs: seq<nat>, ghost offsets: seq<nat>,
              ghost packSum: bytes, ghost sum: bytes) returns (r: Opening)
    ensures Parts(file, fanout, ids, crcs, offsets, packSum, sum) ==> r == Opened(Loaded(fanout, ids, crcs, offsets))
    ensures |file| >= 8 && file[..8] != MAGIC ==> r == NotIndex
  {
    hide Flat, Words, AllWide, BE32, BigEndian32, DetectWidth, Content, OffsetIs, Marked;
    ghost var written := Parts(file, fanout, ids, crcs, offsets, packSum, sum);
    if written {
      Layout(file, fanout, ids, crcs, offsets, packSum, sum);
      Width32(|ids|);
    }
    if |file| < 8 || file[..8] != MAGIC { return NotIndex; }
    var ok, fan, p := ReadWords(file, 8, 256, fanout);
    if !ok { return OutOfFile; }
    var n := fan[255];
    var w := DetectWidth(|file|, n);
    var table: seq<bytes>;
    ok, table, p := ReadRecords(file, p, w, n);
    if !ok { return OutOfFile; }
    if written { RecordsAre(file, 1032, w, ids, table); }
    var cs: seq<nat>, os: seq<nat>;
    ok, cs, p := ReadWords(file, p, n, crcs);
    if !ok { return OutOfFile; }
    ok, os, p := ReadWords(file, p, n, offsets);
    if !ok { return OutOfFile; }
    ghost var marked := os;
    ok, os := LargeOffsets(file, p, os);
    if !ok { return NotIndex; }
    if written { Unmarked(file, p, marked, os); }
    r := Opened(Loaded(fan, table, cs, os));
  }
}
