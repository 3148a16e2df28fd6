/** The multi-pack index: its layout, the recovery of the id width from the file size, and lookups
    (src/pack/midx.c). */
module Midx {
  import opened Bytes
  import opened PackIndex
  import Fanout

  const VERSION := 1
  const SIGNATURE: bytes := [0x4D, 0x49, 0x44, 0x58]

  /** An object of some pack. */
  datatype Row = Row(oid: bytes, pack: nat, offset: nat)

  ghost predicate IsWidth(w: nat) {
    w == 20 || w == 32 || w == 48 || w == 64
  }

  function Ids(rows: seq<Row>): (r: seq<bytes>)
    ensures |r| == |rows| && forall i | 0 <= i < |rows| :: r[i] == rows[i].oid
  {
    seq(|rows|, i requires 0 <= i < |rows| => rows[i].oid)
  }

  /** Pack numbers are kept in one byte, offsets in 32 bits. */
  function Packs(rows: seq<Row>): (r: bytes)
    ensures |r| == |rows| && forall i | 0 <= i < |rows| :: r[i] == rows[i].pack % 0x100
  {
    seq(|rows|, i requires 0 <= i < |rows| => rows[i].pack % 0x100)
  }

  function Offsets(rows: seq<Row>): (r: seq<nat>)
    ensures |r| == |rows| && forall i | 0 <= i < |rows| :: r[i] == rows[i].offset % TWO32
  {
    seq(|rows|, i requires 0 <= i < |rows| => rows[i].offset % TWO32)
  }

  function Numbers(n: nat): (r: seq<nat>)
    ensures |r| == n && forall i | 0 <= i < n :: r[i] == i
  {
    seq(n, i => i)
  }

  function Head(packCount: nat): bytes {
    SIGNATURE + BE32(VERSION) + BE32(packCount) + Flat(Words(Numbers(packCount)))
  }

  /** The file: the checksum is never computed and stays zero. */
  function Content(packCount: nat, fanout: seq<nat>, rows: seq<Row>, w: nat): bytes {
    var body := Flat(Ids(rows)) + (Packs(rows) + (Flat(Words(Offsets(rows))) + Zeros(w)));
    Head(packCount) + (Flat(Words(fanout)) + body)
  }

  // ----- the id width -----

  /** The width the reader derives from what the file holds after the fanout. */
  function DetectWidth(rem: nat, n: nat): nat {
    if n == 0 then 32
    else
      var cand := if rem > n * 5 then (rem - n * 5) / (n + 1) else 32;
      if cand == 20 || cand == 32 || cand == 48 || cand == 64 then cand
      else if cand > 48 then 64 else if cand > 32 then 48 else if cand > 20 then 32 else 20
  }

  /** Every width is recovered, for every object count. */
  lemma {:induction false} WidthDetected(n: nat, w: nat)
    requires n > 0 && IsWidth(w)
    ensures n * w >= 0 && DetectWidth(n * w + n + n * 4 + w, n) == w
  {
    MulNat(n, w);
    assert n * w + w == w * (n + 1);
    DivModUnique(n * w + w, n + 1, w, 0);
  }

  /** Otherwise it is the least of the four widths that is not below the share of an id, or the greatest. */
  lemma WidthRoundsUp(rem: nat, n: nat)
    requires n > 0 && rem > n * 5
    ensures var cand, w := (rem - n * 5) / (n + 1), DetectWidth(rem, n);
      IsWidth(w) && (w >= cand || w == 64) && forall v: nat | IsWidth(v) && v >= cand :: w <= v
  {
  }

  // ----- writing -----

  /** The sorted rows, their fanout, and where they came from. */
  ghost predicate Describes(file: bytes, rows: seq<Row>, packCount: nat, w: nat, order: seq<nat>, fanout: seq<nat>) {
    && Fanout.Permutation(order, |rows|)
    && var sorted := Fanout.Arranged(rows, order);
    && file == Content(packCount, fanout, sorted, w)
    && Fanout.SortedIds(Ids(sorted)) && Fanout.IsFanout(fanout, Ids(sorted))
  }

  /** fastgit_midx_create, from the rows collected; without any it fails. */
  method Create(rows: seq<Row>, packCount: nat)
    returns (r: Result<bytes>, ghost order: seq<nat>, ghost fanout: seq<nat>)
    requires forall i | 0 <= i < |rows| :: rows[i].oid != []
    ensures rows == [] ==> r == Err(ENOENT)
    ensures rows != [] ==> r.Ok? && Describes(r.value, rows, packCount, |rows[0].oid|, order, fanout)
  {
    hide Fanout.Permutation, Fanout.SortedIds, Fanout.IsFanout, Head, Flat, Words;
    if rows == [] { return Err(ENOENT), [], []; }
    var w := |rows[0].oid|;
    var positions := Fanout.SortOrder(Ids(rows));
    order := positions[..];
    Fanout.InRange(order, |rows|);
    var sorted := Fanout.Arranged(rows, positions[..]);
    assert Ids(sorted) == Fanout.Arranged(Ids(rows), order);
    var counts := Fanout.FanoutByAccumulation(Ids(sorted));
    fanout := counts[..];
    var out := WriteHead(packCount);
    out := Emit(out, Words(counts[..]));
    out := Emit(out, Ids(sorted));
    out := out + Packs(sorted);
    out := Emit(out, Words(Offsets(sorted)));
    out := out + Zeros(w);
    Regroup(Head(packCount), Flat(Words(fanout)), Flat(Ids(sorted)), Packs(sorted), Flat(Words(Offsets(sorted))),
      Zeros(w));
    r := Ok(out);
  }

  method WriteHead(packCount: nat) returns (out: bytes)
    ensures out == Head(packCount)
  {
    out := Emit(SIGNATURE + BE32(VERSION) + BE32(packCount), Words(Numbers(packCount)));
  }

  lemma Regroup(a: bytes, b: bytes, c: bytes, d: bytes, e: bytes, f: bytes)
    ensures a + b + c + d + e + f == a + (b + (c + (d + (e + f))))
  {
    assert a + b + c + d + (e + f) == a + b + c + d + e + f;
    assert a + b + c + (d + (e + f)) == a + b + c + d + (e + f);
    assert a + b + (c + (d + (e + f))) == a + b + c + (d + (e + f));
  }

  // ----- reading -----

  datatype Table = Table(packIds: seq<nat>, fanout: seq<nat>, ids: seq<bytes>, packs: bytes, offsets: seq<nat>)

  /** `NotMidx` is the source's error return; `Outside` a read past the end of the mapping. */
  datatype Opening = Open(m: Table) | NotMidx | Outside

  /** A file that holds these rows, all with ids of the same width, in numbers that fit their fields. */
  ghost predicate Holds(file: bytes, packCount: nat, fanout: seq<nat>, rows: seq<Row>, w: nat) {
    && IsWidth(w) && rows != [] && AllWide(Ids(rows), w) && file == Content(packCount, fanout, rows, w)
    && |fanout| == 256 && fanout[255] == |rows| < TWO32 && packCount < TWO32
    && forall f | 0 <= f < 256 :: fanout[f] < TWO32
  }

  lemma {:induction false} HeadParts(packCount: nat)
    requires packCount < TWO32
    ensures var h := Head(packCount);
      && |h| == 12 + packCount * 4 && h[..4] == SIGNATURE && BigEndian32(h[8..12]) == packCount
      && h[12..12 + packCount * 4] == Flat(Words(Numbers(packCount)))
  {
    hide Flat, Words, BE32, BigEndian32;
    WordsWide(Numbers(packCount));
    WordCount(Numbers(packCount));
    FlatSize(Words(Numbers(packCount)), 4);
    BE32RoundTrip(packCount);
    var h := Head(packCount);
    assert h[8..12] == BE32(packCount);
  }

  lemma WordCount(xs: seq<nat>)
    ensures |Words(xs)| == |xs|
  {
  }

  /** Where each part lies. */
  lemma {:induction false} Layout(file: bytes, packCount: nat, fanout: seq<nat>, rows: seq<Row>, w: nat)
    requires Holds(file, packCount, fanout, rows, w)
    ensures var n, a := |rows|, 12 + packCount * 4; var b := a + 1024;
      && n * w >= 0 && |file| == b + (n * w + n + n * 4 + w)
      && file[..4] == SIGNATURE && BigEndian32(file[8..12]) == packCount
      && file[12..a] == Flat(Words(Numbers(packCount))) && file[a..b] == Flat(Words(fanout))
      && file[b..b + n * w] == Flat(Ids(rows)) && file[b + n * w..b + n * w + n] == Packs(rows)
      && file[b + n * w + n..b + n * w + n + n * 4] == Flat(Words(Offsets(rows)))
  {
    hide Flat, Words, BigEndian32, Head, BE32;
    var n, h := |rows|, Head(packCount);
    var f, i, o := Flat(Words(fanout)), Flat(Ids(rows)), Flat(Words(Offsets(rows)));
    HeadParts(packCount);
    WordsWide(fanout);
    WordsWide(Offsets(rows));
    WordCount(fanout);
    WordCount(Offsets(rows));
    FlatSize(Words(fanout), 4);
    FlatSize(Ids(rows), w);
    FlatSize(Words(Offsets(rows)), 4);
    MulNat(n, w);
    Slices(file, h, f, i, Packs(rows), o, Zeros(w));
    InHead(file, h, packCount * 4);
  }

  /** The file starts with MIDX and the version, and ends in a checksum that is never computed. */
  lemma {:induction false} Ends(file: bytes, packCount: nat, fanout: seq<nat>, rows: seq<Row>, w: nat)
    requires Holds(file, packCount, fanout, rows, w)
    ensures |file| >= 12 + w && file[..4] == Ascii("MIDX") && BigEndian32(file[4..8]) == 1
    ensures forall i | |file| - w <= i < |file| :: file[i] == 0
  {
    hide Flat, Words, BigEndian32, BE32, Packs, Offsets, Ids;
    var h := Head(packCount);
    HeadParts(packCount);
    BE32RoundTrip(1);
    assert h[4..8] == BE32(1) && file[..|h|] == h && file[..|h|][4..8] == file[4..8];
    var body := Flat(Ids(rows)) + (Packs(rows) + (Flat(Words(Offsets(rows))) + Zeros(w)));
    var front := h + (Flat(Words(fanout)) + (Flat(Ids(rows)) + (Packs(rows) + Flat(Words(Offsets(rows))))));
    assert file == front + Zeros(w);
    MidxMark();
  }

  lemma MidxMark()
    ensures SIGNATURE == Ascii("MIDX")
  {
  }

  lemma InHead(file: bytes, h: bytes, n: nat)
    requires |h| == 12 + n && |h| <= |file| && file[..|h|] == h
    ensures file[..4] == h[..4] && file[8..12] == h[8..12] && file[12..12 + n] == h[12..12 + n]
  {
    assert file[..|h|][..4] == file[..4] && file[..|h|][8..12] == file[8..12]
      && file[..|h|][12..12 + n] == file[12..12 + n];
  }

  /** The three tables of the rows, from position p. */
  ghost predicate RowsAt(file: bytes, p: nat, rows: seq<Row>, w: nat) {
    var n := |rows|;
    && n * w >= 0 && p + n * w + n + n * 4 <= |file| && AllWide(Ids(rows), w)
    && file[p..p + n * w] == Flat(Ids(rows)) && file[p + n * w..p + n * w + n] == Packs(rows)
    && file[p + n * w + n..p + n * w + n + n * 4] == Flat(Words(Offsets(rows)))
  }

  /** The two tables of words. */
  ghost predicate HeadAt(file: bytes, packCount: nat, fanout: seq<nat>) {
    var a := 12 + packCount * 4;
    && a + 1024 <= |file| && file[..4] == SIGNATURE && BigEndian32(file[8..12]) == packCount
    && file[12..a] == Flat(Words(Numbers(packCount))) && file[a..a + 1024] == Flat(Words(fanout))
    && |fanout| == 256 && packCount < TWO32 && forall f | 0 <= f < 256 :: fanout[f] < TWO32
  }

  method ReadHead(file: bytes, ghost packCount: nat, ghost fanout: seq<nat>)
    returns (ok: bool, packIds: seq<nat>, fan: seq<nat>, p: nat)
    requires |file| >= 12
    ensures ok ==> |fan| == 256 && p <= |file|
    ensures HeadAt(file, packCount, fanout) ==>
      ok && packIds == Numbers(packCount) && fan == fanout && p == 12 + packCount * 4 + 1024
  {
    hide Flat, Words, BigEndian32;
    var pc := BigEndian32(file[8..12]);
    fan := [];
    ok, packIds, p := ReadWords(file, 12, pc, Numbers(pc));
    if !ok { return; }
    ok, fan, p := ReadWords(file, p, 256, fanout);
  }

  method ReadRows(file: bytes, p: nat, n: nat, w: nat, ghost rows: seq<Row>)
    returns (ok: bool, ids: seq<bytes>, packs: bytes, offsets: seq<nat>)
    ensures RowsAt(file, p, rows, w) && |rows| == n ==>
      ok && ids == Ids(rows) && packs == Packs(rows) && offsets == Offsets(rows)
  {
    hide Flat, Words, BigEndian32, AllWide;
    packs, offsets := [], [];
    var q: nat;
    ok, ids, q := ReadRecords(file, p, w, n);
    if !ok { return; }
    ghost var good := RowsAt(file, p, rows, w) && |rows| == n;
    if good { RecordsAre(file, p, w, Ids(rows), ids); }
    if q + n > |file| { ok := false; return; }
    packs := file[q..q + n];
    ok, offsets, q := ReadWords(file, q + n, n, Offsets(rows));
  }

  /** fastgit_midx_open: a file that was created is read back, whatever the width of its ids. */
  method Load(file: bytes, ghost packCount: nat, ghost fanout: seq<nat>, ghost rows: seq<Row>, ghost w: nat)
    returns (r: Opening)
    ensures |file| < 12 ==> r == NotMidx
    ensures |file| >= 12 && (file[..4] != SIGNATURE || |file| < (12 + BigEndian32(file[8..12]) * 4) % TWO32) ==>
      r == NotMidx
    ensures Holds(file, packCount, fanout, rows, w) ==>
      r == Open(Table(Numbers(packCount), fanout, Ids(rows), Packs(rows), Offsets(rows)))
  {
    hide HeadAt, RowsAt, BigEndian32, Holds, DetectWidth, Numbers, Ids, Packs, Offsets;
    ghost var good := Holds(file, packCount, fanout, rows, w);
    if good { OpenFacts(file, packCount, fanout, rows, w); }
    if |file| < 12 || file[..4] != SIGNATURE { return NotMidx; }
    if |file| < (12 + BigEndian32(file[8..12]) * 4) % TWO32 { return NotMidx; }
    var ok, packIds, fan, p := ReadHead(file, packCount, fanout);
    if !ok { return Outside; }
    var n := fan[255];
    var ids, packs, offsets;
    ok, ids, packs, offsets := ReadRows(file, p, n, DetectWidth(|file| - p, n), rows);
    if !ok { return Outside; }
    r := Open(Table(packIds, fan, ids, packs, offsets));
  }

  lemma OpenFacts(file: bytes, packCount: nat, fanout: seq<nat>, rows: seq<Row>, w: nat)
    requires Holds(file, packCount, fanout, rows, w)
    ensures var p := 12 + packCount * 4 + 1024;
      && HeadAt(file, packCount, fanout) && RowsAt(file, p, rows, w)
      && 12 <= p <= |file| && file[..4] == SIGNATURE && BigEndian32(file[8..12]) == packCount
      && DetectWidth(|file| - p, |rows|) == w
    ensures |fanout| == 256 && fanout[255] == |rows|
  {
    hide Flat, Words, BigEndian32, BE32, Content, DetectWidth, AllWide;
    Layout(file, packCount, fanout, rows, w);
    WidthDetected(|rows|, w);
    MulNat(|rows|, w);
  }

  // ----- lookup -----

  /** Where a lookup reads the fanout: the size of the pack table is computed in 32 bits. */
  function FanoutAt(packCount: nat): nat {
    12 + packCount * 4 % TWO32
  }

  /** What a lookup finds: the two words at the place of the fanout bound the search. */
  function Looked(file: bytes, packCount: nat, ids: seq<bytes>, oid: bytes): Fanout.Probe
    requires oid != []
  {
    if |ids| > 0 && |oid| != |ids[0]| then Fanout.Absent
    else
      var at := FanoutAt(packCount) + 4 * (oid[0] as nat);
      if at + 4 > |file| then Fanout.Beyond
      else
        var lo := if oid[0] == 0 then 0 else BigEndian32(file[at - 4..at]);
        Fanout.Bisect(ids, lo, BigEndian32(file[at..at + 4]), oid)
  }

  /** fastgit_midx_find. */
  method Find(file: bytes, m: Table, oid: bytes) returns (r: Fanout.Probe)
    requires oid != []
    ensures r == Looked(file, |m.packIds|, m.ids, oid)
  {
    hide FanoutAt, BigEndian32;
    if |m.ids| > 0 && |oid| != |m.ids[0]| { return Fanout.Absent; }
    var at := FanoutAt(|m.packIds|) + 4 * (oid[0] as nat);
    if at + 4 > |file| { return Fanout.Beyond; }
    var lo, hi := 0, BigEndian32(file[at..at + 4]);
    if oid[0] > 0 { lo := BigEndian32(file[at - 4..at]); }
    r := Fanout.Search(m.ids, lo, hi, oid);
  }

  /** A file with its rows in order and their fanout, as it is created. */
  ghost predicate Sound(file: bytes, packCount: nat, fanout: seq<nat>, rows: seq<Row>, w: nat) {
    Holds(file, packCount, fanout, rows, w) && Fanout.SortedIds(Ids(rows)) && Fanout.IsFanout(fanout, Ids(rows))
  }

  /** The product wraps to the remainder by 2^30 packs. */
  lemma FanoutWraps(packCount: nat)
    ensures FanoutAt(packCount) == 12 + packCount % TWO30 * 4
  {
    DivModUnique(packCount * 4, TWO32, packCount / TWO30, packCount % TWO30 * 4);
  }

  /** Below 2^30 packs the words are those of the fanout. */
  lemma {:induction false} FewPacks(file: bytes, packCount: nat, fanout: seq<nat>, rows: seq<Row>, w: nat, f: nat)
    requires Holds(file, packCount, fanout, rows, w) && packCount < TWO30 && f < 256
    ensures var at := FanoutAt(packCount) + 4 * f;
      at + 4 <= |file| && BigEndian32(file[at..at + 4]) == fanout[f]
  {
    hide Flat, Words, Holds, RowsAt, BigEndian32, FanoutAt;
    OpenFacts(file, packCount, fanout, rows, w);
    FanoutWraps(packCount);
    var a := 12 + packCount * 4;
    assert FanoutAt(packCount) == a && file[a..a + |fanout| * 4] == Flat(Words(fanout));
    WordIn(file, a, fanout, f);
  }

  /** From 2^30 packs on they are numbers of the pack table, from packCount % 2^30 up. */
  lemma {:induction false} ManyPacks(file: bytes, packCount: nat, fanout: seq<nat>, rows: seq<Row>, w: nat, f: nat)
    requires Holds(file, packCount, fanout, rows, w) && f < 256 && TWO30 <= packCount
    ensures var at := FanoutAt(packCount) + 4 * f;
      at + 4 <= |file| && BigEndian32(file[at..at + 4]) == packCount % TWO30 + f
  {
    hide Flat, Words, Holds, RowsAt, BigEndian32, FanoutAt;
    OpenFacts(file, packCount, fanout, rows, w);
    FanoutWraps(packCount);
    WordIn(file, 12, Numbers(packCount), packCount % TWO30 + f);
  }

  /** Lookups find every id of the table and no other. */
  lemma {:induction false} LookupExact(file: bytes, packCount: nat, fanout: seq<nat>, rows: seq<Row>, w: nat,
                                       oid: bytes)
    requires Sound(file, packCount, fanout, rows, w) && packCount < TWO30 && oid != []
    ensures !Looked(file, packCount, Ids(rows), oid).Beyond?
    ensures Looked(file, packCount, Ids(rows), oid).At? <==> oid in Ids(rows)
  {
    hide Fanout.SortedIds, Fanout.CountTo, BigEndian32, FanoutAt, Fanout.Bisect, Content;
    var ids := Ids(rows);
    if |oid| != |ids[0]| {
      assert oid !in ids;
    } else {
      FewPacks(file, packCount, fanout, rows, w, oid[0]);
      if oid[0] > 0 { FewPacks(file, packCount, fanout, rows, w, oid[0] - 1); }
      var lo := if oid[0] > 0 then fanout[oid[0] - 1] else 0;
      Fanout.Bounds(fanout, ids, oid);
      Fanout.BisectFinds(ids, lo, fanout[oid[0]], oid);
    }
  }

  // ----- a file whose lookups miss -----

  /** One id, then m + 1 times a greater one. */
  function MissedRows(m: nat): (rows: seq<Row>)
    ensures |rows| == m + 2
    ensures forall i | 0 <= i < m + 2 :: rows[i].oid == [if i == 0 then 2 else 3] + Zeros(19)
  {
    seq(m + 2, i => Row([if i == 0 then 2 else 3] + Zeros(19), 0, 0))
  }

  function FanoutOf(ids: seq<bytes>): (fanout: seq<nat>)
    requires Fanout.AllIds(ids)
    ensures Fanout.IsFanout(fanout, ids)
  {
    seq(256, f => Fanout.CountTo(ids, f))
  }

  lemma {:induction false} MissedSound(packCount: nat, m: nat) returns (file: bytes, fanout: seq<nat>)
    requires packCount < TWO32 && m < TWO30
    ensures Sound(file, packCount, fanout, MissedRows(m), 20)
  {
    hide Content, Fanout.CountTo, MissedRows;
    var ids := Ids(MissedRows(m));
    fanout := FanoutOf(ids);
    file := Content(packCount, fanout, MissedRows(m), 20);
    Fanout.CountAll(ids);
    forall f | 0 <= f < 256 ensures fanout[f] <= |ids| { Fanout.CountBound(ids, f); }
  }

  /** The first id is searched among the place of the last row alone. */
  lemma {:induction false} WrappedMiss(packCount: nat)
    returns (file: bytes, fanout: seq<nat>, rows: seq<Row>, oid: bytes)
    requires TWO30 <= packCount < TWO32
    ensures Sound(file, packCount, fanout, rows, 20) && oid != [] && oid in Ids(rows)
    ensures Looked(file, packCount, Ids(rows), oid) == Fanout.Absent
  {
    hide Holds, BigEndian32, FanoutAt;
    var m := packCount % TWO30;
    rows, oid := MissedRows(m), [2] + Zeros(19);
    file, fanout := MissedSound(packCount, m);
    var ids := Ids(rows);
    assert ids[0] == oid;
    ManyPacks(file, packCount, fanout, rows, 20, 1);
    ManyPacks(file, packCount, fanout, rows, 20, 2);
    assert Fanout.Bisect(ids, m + 1, m + 2, oid) == Fanout.Absent;
  }

  /** Every lookup in every file with this many packs is exact. */
  ghost predicate LookupsExact(packCount: nat) {
    forall file: bytes, fanout: seq<nat>, rows: seq<Row>, w: nat, oid: bytes
      | Sound(file, packCount, fanout, rows, w) && oid != [] ::
      && !Looked(file, packCount, Ids(rows), oid).Beyond?
      && (Looked(file, packCount, Ids(rows), oid).At? <==> oid in Ids(rows))
  }

  /** The threshold. */
  lemma {:induction false} Threshold(packCount: nat)
    requires packCount < TWO32
    ensures LookupsExact(packCount) <==> packCount < TWO30
  {
    hide Sound, Looked;
    if packCount < TWO30 {
      forall file: bytes, fanout: seq<nat>, rows: seq<Row>, w: nat, oid: bytes
        | Sound(file, packCount, fanout, rows, w) && oid != []
        ensures !Looked(file, packCount, Ids(rows), oid).Beyond?
        ensures Looked(file, packCount, Ids(rows), oid).At? <==> oid in Ids(rows)
      {
        LookupExact(file, packCount, fanout, rows, w, oid);
      }
    } else {
      var file, fanout, rows, oid := WrappedMiss(packCount);
    }
  }

  /** The place of an object, if there is one; `Lost` is a read outside the table or the file. */
  datatype Place = Place(pack: nat, offset: nat) | Nowhere | Lost

  /** Looking an id up in a file that was created. What is found is the pack and the offset of a row with this
      id. With fewer than 2^30 packs it is found if and only if some row has it. */
  method Locate(file: bytes, oid: bytes, ghost rows: seq<Row>, ghost packCount: nat, ghost w: nat,
                ghost order: seq<nat>, ghost fanout: seq<nat>) returns (r: Place)
    requires oid != [] && rows != [] && IsWidth(w) && |rows| < TWO32 && packCount < TWO32
    requires forall i | 0 <= i < |rows| :: |rows[i].oid| == w
    requires Describes(file, rows, packCount, w, order, fanout)
    ensures r.Place? ==>
      exists i :: 0 <= i < |rows| && rows[i].oid == oid && r == Place(rows[i].pack % 0x100, rows[i].offset % TWO32)
    ensures |order| == |rows| && forall i | 0 <= i < |rows| :: order[i] < |rows|
    ensures match Looked(file, packCount, Ids(Fanout.Arranged(rows, order)), oid)
      case At(_) => r.Place?
      case Absent => r == Nowhere
      case Beyond => r == Lost
    ensures packCount < TWO30 ==> r != Lost && (r.Place? <==> exists i :: 0 <= i < |rows| && rows[i].oid == oid)
  {
    hide Fanout.Permutation, Fanout.SortedIds, Fanout.IsFanout, Content, Holds, Looked;
    Fanout.InRange(order, |rows|);
    ghost var sorted := Fanout.Arranged(rows, order);
    DescribedHolds(file, rows, packCount, w, order, fanout);
    var opening := Load(file, packCount, fanout, sorted, w);
    if !opening.Open? { return Lost; }
    var m := opening.m;
    var at := Find(file, m, oid);
    if packCount < TWO30 {
      LookupExact(file, packCount, fanout, sorted, w, oid);
      SameIds(rows, order, oid);
    }
    match at
    case Absent => r := Nowhere;
    case Beyond => r := Lost;
    case At(k) =>
      LookedHits(file, packCount, m.ids, oid);
      assert rows[order[k]].oid == oid;
      r := Place(m.packs[k] as nat, m.offsets[k]);
  }

  lemma LookedHits(file: bytes, packCount: nat, ids: seq<bytes>, oid: bytes)
    requires oid != []
    ensures var r := Looked(file, packCount, ids, oid); r.At? ==> r.place < |ids| && ids[r.place] == oid
  {
  }

  /** Sorting loses no id. */
  lemma {:induction false} SameIds(rows: seq<Row>, order: seq<nat>, oid: bytes)
    requires Fanout.Permutation(order, |rows|)
    ensures oid in Ids(Fanout.Arranged(rows, order)) <==> exists i :: 0 <= i < |rows| && rows[i].oid == oid
  {
    var ids := Ids(Fanout.Arranged(rows, order));
    if i :| 0 <= i < |rows| && rows[i].oid == oid {
      var k := Fanout.Reached(order, i);
      assert ids[k] == oid;
    }
    if oid in ids {
      var k :| 0 <= k < |ids| && ids[k] == oid;
      assert rows[order[k]].oid == oid;
    }
  }

  lemma {:induction false} DescribedHolds(file: bytes, rows: seq<Row>, packCount: nat, w: nat, order: seq<nat>,
                                          fanout: seq<nat>)
    requires rows != [] && IsWidth(w) && |rows| < TWO32 && packCount < TWO32
    requires forall i | 0 <= i < |rows| :: |rows[i].oid| == w
    requires Describes(file, rows, packCount, w, order, fanout)
    ensures Holds(file, packCount, fanout, Fanout.Arranged(rows, order), w)
  {
    hide Fanout.SortedIds, Content, Fanout.CountTo;
    var ids := Ids(Fanout.Arranged(rows, order));
    forall f | 0 <= f < 256 ensures fanout[f] <= |ids| { Fanout.CountBound(ids, f); }
    Fanout.CountAll(ids);
  }
}
