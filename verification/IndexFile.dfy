/** The index file: a padded list of entries between a header and a checksum, written and read back
    (src/index/index.c). */
module IndexFile {
  import opened Bytes
  import opened Entries
  import opened PackIndex
  import opened StagingIndex
  import ProbeTable
  import TreeFormat
  import Lex

  const SIGNATURE: bytes := [0x44, 0x49, 0x52, 0x43]
  const VERSION := 2
  const HEADER := 12
  const FIXED := 74

  // ----- one entry -----

  /** The ten words of an entry, in their order on disk. */
  function Fields(e: Entry): (ws: seq<nat>)
    ensures |ws| == 10 && forall i | 0 <= i < 10 :: ws[i] < TWO32
  {
    var t := e.stat;
    [t.ctimeSec, t.ctimeNsec, t.mtimeSec, t.mtimeNsec, t.dev, t.ino, e.mode, t.uid, t.gid, e.size]
  }

  function FromFields(ws: seq<nat>, oid: bytes, flags: u16, path: bytes): Entry
    requires |ws| == 10 && forall i | 0 <= i < 10 :: ws[i] < TWO32
  {
    var t := Stat(ws[0], ws[1], ws[2], ws[3], ws[4], ws[5], ws[7], ws[8]);
    Entry.Entry(oid, path, ws[6], flags / 0x1000 % 4, t, ws[9], flags, 0)
  }

  /** The flags on disk: those of the entry, or if they are zero the stage and the length of the path. */
  function Raw(e: Entry): u16 {
    if e.flags == 0 then (|e.path| % 0x1000 + 0x1000 * e.stage) % 0x10000 else e.flags
  }

  /** What an entry is after a round trip. */
  function Normal(e: Entry): Entry {
    e.(flags := Raw(e), flagsExtended := 0)
  }

  /** Entries with 32-byte ids and C-string paths, whose flags, if set, carry the stage. */
  ghost predicate EntryOk(e: Entry) {
    |e.oid| == ID_SIZE && 0 !in e.path && e.stage <= 3 && (e.flags != 0 ==> e.flags / 0x1000 % 4 == e.stage)
  }

  function Pad(n: nat): (r: nat)
    ensures r < 8 && (FIXED + n + 1 + r) % 8 == 0
  {
    (8 - (FIXED + n + 1) % 8) % 8
  }

  /** Ids are cut or filled up to 32 bytes. */
  function FitId(oid: bytes): (r: bytes)
    ensures |r| == ID_SIZE && (|oid| == ID_SIZE ==> r == oid)
  {
    if |oid| >= ID_SIZE then oid[..ID_SIZE] else oid + Zeros(ID_SIZE - |oid|)
  }

  function EntryBytes(e: Entry): bytes {
    Flat(Words(Fields(e))) + FitId(e.oid) + [Raw(e) / 0x100, Raw(e) % 0x100] + (e.path + Zeros(1 + Pad(|e.path|)))
  }

  lemma WordsFill(e: Entry)
    ensures |Flat(Words(Fields(e)))| == 40
  {
    hide Flat;
    WordsWide(Fields(e));
    FlatSize(Words(Fields(e)), 4);
  }

  /** An entry takes the fixed part, its path, a NUL, and padding to a multiple of eight. */
  lemma EntrySize(e: Entry)
    ensures |EntryBytes(e)| == FIXED + |e.path| + 1 + Pad(|e.path|)
  {
    hide Flat, Words, Pad;
    WordsFill(e);
  }

  /** The file holds the entry at this place. */
  ghost predicate Lies(file: bytes, p: nat, e: Entry) {
    EntryOk(e) && p + |EntryBytes(e)| <= |file| && file[p..p + |EntryBytes(e)|] == EntryBytes(e)
  }

  lemma {:induction false} Parts(file: bytes, p: nat, e: Entry)
    requires Lies(file, p, e)
    ensures p + FIXED < |file|
    ensures file[p..p + 40] == Flat(Words(Fields(e))) && file[p + 40..p + 72] == e.oid
    ensures file[p + 72] == Raw(e) / 0x100 && file[p + 73] == Raw(e) % 0x100
    ensures TreeFormat.Index(file[p + FIXED..], 0) == |e.path| && file[p + FIXED..p + FIXED + |e.path|] == e.path
    ensures p + FIXED + |e.path| < |file|
  {
    hide Flat, Words, Raw, Pad, Zeros, FitId;
    WordsFill(e);
    EntrySize(e);
    FitSame(e.oid);
    var n, z := |EntryBytes(e)|, 1 + Pad(|e.path|);
    Cut(file, p, n, Flat(Words(Fields(e))), e.oid, [Raw(e) / 0x100, Raw(e) % 0x100], e.path, Zeros(z));
    SomeZero(z);
    var rest := Zeros(z)[1..] + file[p + n..];
    assert file[p + FIXED..] == file[p + FIXED..p + n] + file[p + n..];
    assert Zeros(z) == [0] + Zeros(z)[1..];
    assert file[p + FIXED..] == e.path + [0] + rest;
    TreeFormat.IndexAfter(e.path, 0, rest);
  }

  /** Where everything is in an entry of the file: words, id, flags, path, and NULs up to a multiple of eight. */
  lemma {:induction false} EntryLayout(e: Entry)
    requires |e.oid| == ID_SIZE
    ensures var b, n := EntryBytes(e), |e.path|;
      && FIXED + n < |b| <= FIXED + n + 8 && |b| % 8 == 0
      && BigEndian32(b[0..4]) == e.stat.ctimeSec && BigEndian32(b[4..8]) == e.stat.ctimeNsec
      && BigEndian32(b[8..12]) == e.stat.mtimeSec && BigEndian32(b[12..16]) == e.stat.mtimeNsec
      && BigEndian32(b[16..20]) == e.stat.dev && BigEndian32(b[20..24]) == e.stat.ino
      && BigEndian32(b[24..28]) == e.mode
      && BigEndian32(b[28..32]) == e.stat.uid && BigEndian32(b[32..36]) == e.stat.gid
      && BigEndian32(b[36..40]) == e.size
      && b[40..72] == e.oid && 0x100 * (b[72] as int) + b[73] == Raw(e)
      && b[FIXED..FIXED + n] == e.path && forall i | FIXED + n <= i < |b| :: b[i] == 0
  {
    hide Flat, Words, Raw, Pad, FitId, BigEndian32;
    var b, ws, z := EntryBytes(e), Fields(e), 1 + Pad(|e.path|);
    WordsFill(e);
    EntrySize(e);
    FitSame(e.oid);
    FieldsSmall(e);
    PadBound(|e.path|);
    assert b[0..|b|] == b;
    Cut(b, 0, |b|, Flat(Words(ws)), e.oid, [Raw(e) / 0x100, Raw(e) % 0x100], e.path, Zeros(z));
    FlagBytes(Raw(e));
    forall k | 0 <= k < 10 ensures BigEndian32(b[k * 4..k * 4 + 4]) == ws[k] { WordIn(b, 0, ws, k); }
    assert b[FIXED..|b|] == e.path + Zeros(z);
    forall i | FIXED + |e.path| <= i < |b| ensures b[i] == 0 { assert b[i] == b[FIXED..|b|][i - FIXED]; }
    EachWord(b, ws);
  }

  lemma EachWord(b: bytes, ws: seq<nat>)
    requires |b| >= 40 && |ws| == 10 && forall k | 0 <= k < 10 :: BigEndian32(b[k * 4..k * 4 + 4]) == ws[k]
    ensures BigEndian32(b[0..4]) == ws[0] && BigEndian32(b[4..8]) == ws[1] && BigEndian32(b[8..12]) == ws[2]
    ensures BigEndian32(b[12..16]) == ws[3] && BigEndian32(b[16..20]) == ws[4] && BigEndian32(b[20..24]) == ws[5]
    ensures BigEndian32(b[24..28]) == ws[6] && BigEndian32(b[28..32]) == ws[7] && BigEndian32(b[32..36]) == ws[8]
    ensures BigEndian32(b[36..40]) == ws[9]
  {
    hide BigEndian32;
    assert forall k | 0 <= k < 10 :: BigEndian32(b[k * 4..k * 4 + 4]) == ws[k];
    assert BigEndian32(b[0 * 4..0 * 4 + 4]) == ws[0] && BigEndian32(b[1 * 4..1 * 4 + 4]) == ws[1];
    assert BigEndian32(b[2 * 4..2 * 4 + 4]) == ws[2] && BigEndian32(b[3 * 4..3 * 4 + 4]) == ws[3];
    assert BigEndian32(b[4 * 4..4 * 4 + 4]) == ws[4] && BigEndian32(b[5 * 4..5 * 4 + 4]) == ws[5];
    assert BigEndian32(b[6 * 4..6 * 4 + 4]) == ws[6] && BigEndian32(b[7 * 4..7 * 4 + 4]) == ws[7];
    assert BigEndian32(b[8 * 4..8 * 4 + 4]) == ws[8] && BigEndian32(b[9 * 4..9 * 4 + 4]) == ws[9];
  }

  /** Set flags are kept; otherwise the low twelve bits hold the length of the path, the two above the stage. */
  lemma RawMeans(e: Entry)
    requires e.stage <= 3
    ensures e.flags != 0 ==> Raw(e) == e.flags
    ensures e.flags == 0 ==> Raw(e) % 0x1000 == |e.path| % 0x1000 && Raw(e) / 0x1000 == e.stage
  {
    var low, k := |e.path| % 0x1000, e.stage;
    assert low + 0x1000 * k < 0x10000;
  }

  lemma PadBound(n: nat)
    ensures Pad(n) < 8 && (FIXED + n + 1 + Pad(n)) % 8 == 0
  {
  }

  lemma FitSame(oid: bytes)
    requires |oid| == ID_SIZE
    ensures FitId(oid) == oid
  {
  }

  lemma SomeZero(n: nat)
    ensures |Zeros(n)| == n && (n > 0 ==> Zeros(n)[0] == 0)
  {
  }

  lemma Cut(file: bytes, p: nat, n: nat, w: bytes, oid: bytes, f: bytes, path: bytes, z: bytes)
    requires p + n <= |file| && file[p..p + n] == w + oid + f + (path + z)
    requires |w| == 40 && |oid| == 32 && |f| == 2 && n == FIXED + |path| + |z|
    ensures file[p..p + 40] == w && file[p + 40..p + 72] == oid && file[p + 72] == f[0] && file[p + 73] == f[1]
    ensures file[p + FIXED..p + FIXED + |path|] == path && file[p + FIXED..p + n] == path + z
  {
    var s := file[p..p + n];
    SliceOfSlice(file, p, n, 0, 40);
    SliceOfSlice(file, p, n, 40, 32);
    SliceOfSlice(file, p, n, FIXED, |path|);
    SliceOfSlice(file, p, n, FIXED, |path| + |z|);
    assert s[72] == f[0] && s[73] == f[1];
    assert s[0..40] == w && s[40..72] == oid;
    assert s[FIXED..FIXED + |path| + |z|] == path + z;
    assert s[FIXED..FIXED + |path|] == path;
  }

  lemma {:induction false} FlagBytes(f: u16)
    ensures 0x100 * (f / 0x100) + f % 0x100 == f
  {
  }

  lemma {:induction false} RawStage(e: Entry)
    requires EntryOk(e)
    ensures Raw(e) / 0x1000 % 4 == e.stage
  {
    var low, k := |e.path| % 0x1000, e.stage;
    assert low + 0x1000 * k < 0x10000;
    assert (low + 0x1000 * k) / 0x1000 == k;
  }

  /** The words, id, flags and path of an entry make the normalised entry. */
  lemma Rebuilt(e: Entry)
    requires EntryOk(e)
    ensures FromFields(Fields(e), e.oid, Raw(e), e.path) == Normal(e)
  {
    hide Raw;
    RawStage(e);
  }

  /** What reading at a place gives: an entry and the next place; `Stop` when the fixed part does not fit;
      `Bad` when the path has no end. */
  datatype Reading = Got(e: Entry, next: nat) | Stop | Bad

  /** The words, id and flags at the front of an entry. */
  method ReadFixed(file: bytes, p: nat, ghost e: Entry) returns (ws: seq<nat>, oid: bytes, flags: u16)
    requires p + FIXED <= |file|
    ensures |ws| == 10 && forall i | 0 <= i < 10 :: ws[i] < TWO32
    ensures Lies(file, p, e) ==> ws == Fields(e) && oid == e.oid && flags == Raw(e)
  {
    hide Flat, Words, Raw, Lies, Fields;
    FieldsSmall(e);
    if Lies(file, p, e) {
      Parts(file, p, e);
      FlagBytes(Raw(e));
    }
    var ok, q;
    ok, ws, q := ReadWords(file, p, 10, Fields(e));
    oid := file[p + 40..p + 72];
    flags := 0x100 * (file[p + 72] as int) + file[p + 73];
  }

  method ReadOne(file: bytes, p: nat, ghost e: Entry) returns (r: Reading)
    ensures r.Stop? <==> p + FIXED > |file|
    ensures r.Bad? <==> p + FIXED <= |file| && 0 !in file[p + FIXED..]
    ensures r.Got? ==> r.next > p
    ensures Lies(file, p, e) ==> r == Got(Normal(e), p + |EntryBytes(e)|)
  {
    hide Flat, Words, Raw, Lies, FromFields, Normal, EntryBytes, EntryOk, Pad, Fields, TreeFormat.Index;
    if Lies(file, p, e) {
      Parts(file, p, e);
      EntryIsOk(file, p, e);
      Rebuilt(e);
      EntrySize(e);
    }
    if p + FIXED > |file| { return Stop; }
    var ws, oid, flags := ReadFixed(file, p, e);
    TreeFormat.IndexFits(file[p + FIXED..], 0);
    var nul := TreeFormat.Memchr(file, p + FIXED, 0);
    if nul == |file| { return Bad; }
    var path := file[p + FIXED..nul];
    var actual := nul - (p + FIXED);
    if flags % 0x1000 == 0xFFF {
      var end := TreeFormat.Memchr(file, p + FIXED, 0);
      actual := end - (p + FIXED);
    }
    r := Got(FromFields(ws, oid, flags, path), p + FIXED + actual + 1 + Pad(actual));
  }

  lemma EntryIsOk(file: bytes, p: nat, e: Entry)
    requires Lies(file, p, e)
    ensures EntryOk(e)
  {
  }

  lemma FieldsSmall(e: Entry)
    ensures |Fields(e)| == 10 && forall i | 0 <= i < 10 :: Fields(e)[i] < TWO32
  {
  }

  // ----- the whole file -----

  function Body(es: seq<Entry>): bytes {
    if es == [] then [] else Body(es[..|es| - 1]) + EntryBytes(es[|es| - 1])
  }

  /** A header that announces n entries, and entries. */
  function Announced(n: nat, es: seq<Entry>): bytes {
    SIGNATURE + BE32(VERSION) + BE32(n) + Body(es)
  }

  /** Everything before the checksum. */
  function Contents(es: seq<Entry>): bytes {
    Announced(|es|, es)
  }

  /** A file that announces n entries and holds those of es: all of them, or fewer and nothing after them that
      could be another. */
  ghost predicate Carries(file: bytes, n: nat, es: seq<Entry>, tail: bytes) {
    && file == Announced(n, es) + tail && |tail| >= 32 && EntriesOk(es) && n < TWO32
    && (n == |es| || (n > |es| && |tail| < FIXED))
  }

  function TotalSize(es: seq<Entry>): nat {
    if es == [] then HEADER + 32
    else
      var n := |es| - 1;
      TotalSize(es[..n]) + FIXED + |es[n].path| + 1 + Pad(|es[n].path|)
  }

  ghost predicate EntriesOk(es: seq<Entry>) {
    |es| < TWO32 && forall i | 0 <= i < |es| :: EntryOk(es[i])
  }

  function Normals(es: seq<Entry>): (r: seq<Entry>)
    ensures |r| == |es| && forall i | 0 <= i < |es| :: r[i] == Normal(es[i])
  {
    seq(|es|, i requires 0 <= i < |es| => Normal(es[i]))
  }

  lemma BodyNext(es: seq<Entry>, i: nat)
    requires i < |es|
    ensures Body(es[..i + 1]) == Body(es[..i]) + EntryBytes(es[i])
    ensures TotalSize(es[..i + 1]) == TotalSize(es[..i]) + FIXED + |es[i].path| + 1 + Pad(|es[i].path|)
  {
    hide EntryBytes, Pad;
    assert es[..i + 1][..i] == es[..i];
  }

  lemma {:induction false} BodyPrefix(es: seq<Entry>, i: nat)
    requires i <= |es|
    ensures Body(es[..i]) <= Body(es)
    decreases |es| - i
  {
    hide EntryBytes, Body;
    if i == |es| {
      assert es[..i] == es;
    } else {
      BodyNext(es, i);
      BodyPrefix(es, i + 1);
    }
  }

  lemma NoBody(es: seq<Entry>)
    ensures Body(es[..0]) == [] && TotalSize(es[..0]) == HEADER + 32 && es[..|es|] == es
  {
  }

  /** Entry i lies after the entries before it. */
  lemma {:induction false} LiesAt(file: bytes, n: nat, es: seq<Entry>, sum: bytes, i: nat)
    requires file == Announced(n, es) + sum && i < |es| && EntryOk(es[i])
    ensures Lies(file, HEADER + |Body(es[..i])|, es[i])
  {
    hide EntryBytes, Body, EntryOk, BE32;
    var a, len := |Body(es[..i])|, |EntryBytes(es[i])|;
    BodyPrefix(es, i + 1);
    BodyNext(es, i);
    var body := Body(es);
    assert body[a..a + len] == body[..a + len][a..] == EntryBytes(es[i]);
    InFile(file, SIGNATURE + BE32(VERSION) + BE32(n), body, sum, a, len);
  }

  /** The file: DIRC, the version, the number of entries, and every entry where those before it end. */
  lemma {:induction false} FileLayout(file: bytes, es: seq<Entry>, sum: bytes, i: nat)
    requires file == Contents(es) + sum && |sum| == 32 && EntriesOk(es) && i <= |es|
    ensures |file| >= HEADER + 32 && file[..4] == Ascii("DIRC")
    ensures BigEndian32(file[4..8]) == 2 && BigEndian32(file[8..12]) == |es|
    ensures i == 0 ==> TotalSize(es[..i]) == 44
    ensures i < |es| ==> TotalSize(es[..i + 1]) == TotalSize(es[..i]) + |EntryBytes(es[i])|
    ensures i < |es| ==> Lies(file, TotalSize(es[..i]) - 32, es[i])
  {
    hide Body, BE32, BigEndian32, EntryBytes, EntryOk, Pad, Lies;
    HeaderFields(file, |es|, es, sum);
    NoBody(es);
    BodySize(es, i);
    if i < |es| {
      LiesAt(file, |es|, es, sum, i);
      BodyNext(es, i);
      EntrySize(es[i]);
    }
  }

  lemma {:induction false} BodySize(es: seq<Entry>, i: nat)
    requires i <= |es|
    ensures TotalSize(es[..i]) == HEADER + |Body(es[..i])| + 32
    decreases i
  {
    hide Body, EntryBytes, Pad, TotalSize;
    if i == 0 {
      NoBody(es);
    } else {
      BodySize(es, i - 1);
      BodyNext(es, i - 1);
      EntrySize(es[i - 1]);
    }
  }

  lemma InFile(file: bytes, head: bytes, body: bytes, sum: bytes, a: nat, n: nat)
    requires file == head + body + sum && |head| == HEADER && a + n <= |body|
    ensures HEADER + a + n <= |file| && file[HEADER + a..HEADER + a + n] == body[a..a + n]
  {
    SliceOfSlice(file, HEADER, |body|, a, n);
    assert file[HEADER..HEADER + |body|] == body;
  }

  // ----- writing -----

  method MeasureTotal(es: seq<Entry>) returns (total: nat)
    ensures total == TotalSize(es)
  {
    hide Pad;
    NoBody(es);
    total := HEADER;
    var i := 0;
    while i < |es|
      invariant i <= |es| && total + 32 == TotalSize(es[..i])
    {
      BodyNext(es, i);
      var entryLen := FIXED + |es[i].path| + 1;
      total := total + entryLen + Pad(|es[i].path|);
      i := i + 1;
    }
    assert es[..i] == es;
    total := total + 32;
  }

  method Put(out: bytes, e: Entry) returns (more: bytes)
    ensures more == out + EntryBytes(e)
  {
    hide Flat, Words, Raw, Pad, Zeros, FitId;
    more := Emit(out, Words(Fields(e)));
    more := more + FitId(e.oid);
    more := more + [Raw(e) / 0x100, Raw(e) % 0x100];
    more := more + e.path;
    more := more + Zeros(1 + Pad(|e.path|));
    assert more == out + EntryBytes(e);
  }

  /** Prints the entries and the checksum; what is written fills exactly the size computed first. */
  method Print(es: seq<Entry>, h: bytes -> bytes) returns (file: bytes, total: nat)
    requires forall x :: |h(x)| == 32
    ensures file == Contents(es) + h(Contents(es))
    ensures |file| == total == TotalSize(es)
  {
    hide EntryBytes, Pad, BE32;
    total := MeasureTotal(es);
    NoBody(es);
    file := SIGNATURE + BE32(VERSION) + BE32(|es|);
    var i := 0;
    ghost var head := file;
    while i < |es|
      invariant i <= |es| && file == head + Body(es[..i]) && |file| + 32 == TotalSize(es[..i])
    {
      BodyNext(es, i);
      EntrySize(es[i]);
      file := Put(file, es[i]);
      assert file == head + Body(es[..i + 1]);
      i := i + 1;
    }
    assert es[..i] == es;
    file := file + h(file);
  }

  /** fastgit_index_write_to: sorts the index if it is not in order, rebuilding the table, and prints it. */
  method WriteTo(idx: Index, h: bytes -> bytes) returns (file: bytes)
    requires idx.Valid() && forall x :: |h(x)| == 32
    modifies idx, idx.ht
    ensures idx.Valid() && idx.Abs() == old(idx.Abs()) && Sorted(idx.InUse()) && !idx.dirty
    ensures multiset(idx.InUse()) == multiset(old(idx.InUse()))
    ensures file == Contents(idx.InUse()) + h(Contents(idx.InUse()))
  {
    hide Contents, Sorted, Model, Distinct, ProbeTable.Structure, Homes, Upto;
    idx.SortEntries();
    var total;
    file, total := Print(idx.entries[..idx.count], h);
    idx.dirty := false;
  }

  // ----- reading -----

  lemma {:induction false} HeaderFields(file: bytes, n: nat, es: seq<Entry>, sum: bytes)
    requires file == Announced(n, es) + sum && |sum| >= 32 && n < TWO32
    ensures |file| >= HEADER + 32 && file[..4] == SIGNATURE && BigEndian32(file[4..8]) == VERSION
      && BigEndian32(file[8..12]) == n
  {
    hide Body, BE32, BigEndian32;
    BE32RoundTrip(VERSION);
    BE32RoundTrip(n);
    assert file[4..8] == BE32(VERSION) && file[8..12] == BE32(n);
  }

  lemma AtTail(file: bytes, n: nat, es: seq<Entry>, tail: bytes, i: nat)
    requires file == Announced(n, es) + tail && i == |es|
    ensures HEADER + |Body(es[..i])| + |tail| == |file|
  {
    hide Body, BE32;
    assert es[..i] == es;
    HeadSize(n);
  }

  lemma HeadSize(n: nat)
    ensures |SIGNATURE + BE32(VERSION) + BE32(n)| == HEADER
  {
  }

  /** The reading loop: it stops early when an entry does not fit, and fails on a path without an end. */
  method ReadEntries(file: bytes, ghost n: nat, ghost es: seq<Entry>, ghost tail: bytes) returns (r: Result<seq<Entry>>)
    ensures |file| < HEADER + 32 ==> r == Err(ERROR)
    ensures |file| >= HEADER + 32 && file[..4] != SIGNATURE ==> r == Err(ERROR)
    ensures |file| >= HEADER + 32 && file[..4] == SIGNATURE && BigEndian32(file[4..8]) != VERSION ==>
      r == Err(EUNSUPPORTED)
    ensures Carries(file, n, es, tail) ==> r == Ok(Normals(es))
  {
    hide Body, BE32, BigEndian32, Announced, Normal, EntryBytes, EntryOk, Lies;
    ghost var good := Carries(file, n, es, tail);
    if good { HeaderFields(file, n, es, tail); }
    if |file| < HEADER + 32 { return Err(ERROR); }
    if file[..4] != SIGNATURE { return Err(ERROR); }
    if BigEndian32(file[4..8]) != VERSION { return Err(EUNSUPPORTED); }
    var count := BigEndian32(file[8..12]);
    var p, i, read := HEADER, 0, [];
    NoBody(es);
    while i < count
      invariant 0 <= i && p >= 0
      invariant good ==> i <= |es| <= count == n && p == HEADER + |Body(es[..i])| && read == Normals(es[..i])
      decreases count - i
    {
      ghost var e := if good && i < |es| then es[i] else UNUSED;
      if good && i < |es| {
        LiesAt(file, n, es, tail, i);
        BodyNext(es, i);
      } else if good {
        AtTail(file, n, es, tail, i);
      }
      var one := ReadOne(file, p, e);
      if one.Stop? {
        if good && i < |es| { Parts(file, p, e); }
        break;
      }
      if one.Bad? { return Err(ERROR); }
      read, p := read + [one.e], one.next;
      i := i + 1;
      if good { assert read == Normals(es[..i]); }
    }
    r := Ok(read);
  }

  /** fastgit_index_open: a new index with the entries read, its table built anew. */
  method Open(hash: Key -> nat, blobOid: bytes -> bytes, file: bytes, ghost es: seq<Entry>, ghost sum: bytes)
    returns (r: Result<Index>)
    ensures r.Ok? ==> fresh(r.value) && fresh(r.value.ht)
    ensures file == Contents(es) + sum && |sum| == 32 && EntriesOk(es) && Distinct(es) && Sorted(es) ==>
      r.Ok? && r.value.Valid() && r.value.InUse() == Normals(es)
    ensures r.Ok? ==> r.value.sorted && !r.value.dirty
  {
    hide Announced, EntriesOk, Normal, Distinct, Sorted, Model, ProbeTable.Structure, Homes, Upto;
    if EntriesOk(es) { Few(es); }
    var read := ReadEntries(file, |es|, es, sum);
    if read.Err? { return Err(read.error); }
    var idx := new Index(hash, blobOid);
    var n := |read.value|;
    idx.entries := read.value + seq(ProbeTable.FIRST_CAPACITY, _ => UNUSED);
    idx.count := n;
    idx.HtRebuild();
    idx.sorted := true;
    assert idx.InUse() == read.value;
    if Distinct(es) && Sorted(es) { NormalOrder(es); }
    r := Ok(idx);
  }

  lemma Few(es: seq<Entry>)
    requires EntriesOk(es)
    ensures |es| < TWO32
  {
  }

  /** Normalising flags changes no key. */
  lemma NormalOrder(es: seq<Entry>)
    requires Distinct(es) && Sorted(es)
    ensures Distinct(Normals(es)) && Sorted(Normals(es))
  {
    hide Raw, Lex.Compare;
  }

  /** The round trip of the index file: opening what was written gives an index that holds, under the same
      keys and in key order, the same entries, their flags normalised. */
  method RoundTrip(idx: Index, h: bytes -> bytes) returns (r: Result<Index>)
    requires idx.Valid() && EntriesOk(idx.InUse()) && forall x :: |h(x)| == 32
    modifies idx, idx.ht
    ensures idx.Valid() && idx.Abs() == old(idx.Abs())
    ensures r.Ok? && r.value.Valid() && r.value.InUse() == Normals(idx.InUse()) && Sorted(r.value.InUse())
    ensures r.value.Abs().Keys == old(idx.Abs()).Keys
    ensures forall k <- old(idx.Abs()) :: r.value.Abs()[k] == Normal(old(idx.Abs())[k])
  {
    hide Contents, EntriesOk, Normal, Distinct, Sorted, Model;
    ghost var before := idx.InUse();
    var file := WriteTo(idx, h);
    ghost var es := idx.InUse();
    StillOk(before, es);
    r := Open(idx.hash, idx.blobOid, file, es, h(Contents(es)));
    NormalOrder(es);
    NormalModel(es);
  }

  lemma {:induction false} StillOk(es: seq<Entry>, fs: seq<Entry>)
    requires EntriesOk(es) && multiset(fs) == multiset(es)
    ensures EntriesOk(fs)
  {
    hide EntryOk;
    SameSize(es, fs);
    forall i | 0 <= i < |fs| ensures EntryOk(fs[i]) {
      assert fs[i] in multiset(fs);
      assert fs[i] in es;
    }
  }

  lemma {:induction false} NormalModel(es: seq<Entry>)
    ensures Model(Normals(es)).Keys == Model(es).Keys
    ensures forall k <- Model(es) :: Model(Normals(es))[k] == Normal(Model(es)[k])
    decreases |es|
  {
    hide Normal;
    if es != [] {
      var n := |es| - 1;
      NormalModel(es[..n]);
      assert Normals(es)[..n] == Normals(es[..n]);
      NormalKey(es[n]);
    }
  }

  lemma NormalKey(e: Entry)
    ensures KeyOf(Normal(e)) == KeyOf(e)
  {
  }
}
