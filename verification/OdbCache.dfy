/** The object store and the small probing cache in front of it (src/odb/odb.c). */
module OdbCache {
  import opened Bytes
  import opened ObjectFormat
  import TreeFormat

  const CACHE_SIZE := 16384
  const PROBES := 8

  // ----- the store without a cache -----

  /** A loose object: the header up to the first NUL, then as many bytes as the header says. */
  function ParseLoose(s: bytes): Result<Object> {
    var n := TreeFormat.Index(s, 0);
    if n == |s| then Err(ERROR)
    else match ScanHeader(s[..n])
      case None => Err(ERROR)
      case Some((name, size)) =>
        if n + 1 + size > |s| then Err(ERROR) else Ok(Object(KindFromName(name), s[n + 1..n + 1 + size]))
  }

  /** The packs are fixed and come first; then the loose objects. */
  datatype World = World(hash: bytes -> bytes, home: bytes -> nat, packs: bytes -> Option<Object>)

  type Disk = map<bytes, bytes>

  function Lookup(w: World, disk: Disk, oid: bytes): Result<Object> {
    match w.packs(oid)
    case Some(o) => Ok(o)
    case None => if oid in disk then ParseLoose(disk[oid]) else Err(ENOENT)
  }

  function IdOf(w: World, o: Object): bytes {
    OidOf(w.hash, o.kind, o.data)
  }

  /** The answer without the store's own words: a packed object wins, an object that is nowhere is ENOENT, and
      what lies on disk in the printed form is found. */
  ghost predicate Right(w: World, disk: Disk, oid: bytes, r: Result<Object>) {
    && (w.packs(oid).Some? ==> r == Ok(w.packs(oid).value))
    && (w.packs(oid).None? && oid !in disk ==> r == Err(ENOENT))
    && (w.packs(oid).None? && oid in disk ==>
          forall o: Object :: disk[oid] == Serialize(o.kind, o.data) && |o.data| < TWO64 ==> r == Ok(o))
  }

  lemma LookupRight(w: World, disk: Disk, oid: bytes)
    ensures Right(w, disk, oid, Lookup(w, disk, oid))
  {
    hide ParseLoose, Serialize;
    if w.packs(oid).None? && oid in disk {
      forall o: Object | disk[oid] == Serialize(o.kind, o.data) && |o.data| < TWO64
        ensures Lookup(w, disk, oid) == Ok(o)
      {
        LooseRoundTrip(o);
      }
    }
  }

  /** A loose object that exists already is not written again; nothing is said of a misread one. */
  function Stored(w: World, disk: Disk, o: Object): Disk {
    if ForStructure(o.kind, o.data) || IdOf(w, o) in disk then disk else disk[IdOf(w, o) := Serialize(o.kind, o.data)]
  }

  /** What the caller of a write is told. */
  function Receipt(w: World, o: Object): Written {
    if ForStructure(o.kind, o.data) then Misread else Id(IdOf(w, o))
  }

  /** Objects whose id stands for nothing else in packs or on disk. */
  ghost predicate NoClash(w: World, disk: Disk, o: Object) {
    ForStructure(o.kind, o.data)
    || (&& |o.data| < TWO64
        && (w.packs(IdOf(w, o)).Some? ==> w.packs(IdOf(w, o)).value == o)
        && (IdOf(w, o) in disk ==> ParseLoose(disk[IdOf(w, o)]) == Ok(o)))
  }

  lemma {:induction false} LooseRoundTrip(o: Object)
    requires |o.data| < TWO64
    ensures ParseLoose(Serialize(o.kind, o.data)) == Ok(o)
  {
    hide TypeName, Decimal, ScanHeader, TreeFormat.Index;
    var head := TypeName(o.kind) + ([SPACE] + Decimal(|o.data|));
    var s := Serialize(o.kind, o.data);
    assert s == head + [0] + o.data;
    NoNul(o.kind, |o.data|);
    TreeFormat.IndexAfter(head, 0, o.data);
    ScanPrinted(o.kind, |o.data|);
    NameRoundTrip(o.kind);
    var n := |head|;
    assert s[..n] == head && s[n + 1..n + 1 + |o.data|] == o.data;
  }

  /** A loose object whose payload has not the announced size: bytes that are too many are dropped, too few are
      an error, and so is a header without an end. */
  lemma {:induction false} LooseParts(k: Kind, size: nat, data: bytes)
    requires size < TWO64
    ensures var head := TypeName(k) + ([SPACE] + Decimal(size));
      && ParseLoose(head) == Err(ERROR)
      && ParseLoose(head + [0] + data) == if size <= |data| then Ok(Object(k, data[..size])) else Err(ERROR)
  {
    hide TypeName, Decimal, ScanHeader, TreeFormat.Index;
    var head := TypeName(k) + ([SPACE] + Decimal(size));
    NoNul(k, size);
    TreeFormat.IndexFits(head, 0);
    TreeFormat.IndexAfter(head, 0, data);
    ScanPrinted(k, size);
    NameRoundTrip(k);
    var s, n := head + [0] + data, |head|;
    assert s[..n] == head && s[n + 1..] == data;
    if size <= |data| { assert s[n + 1..n + 1 + size] == data[..size]; }
  }

  lemma NoNul(k: Kind, size: nat)
    ensures 0 !in TypeName(k) + ([SPACE] + Decimal(size))
  {
    hide TypeName, Decimal;
    LowerCase(k);
    DecimalDigits(size);
  }

  lemma DecimalDigits(n: nat)
    ensures forall i | 0 <= i < |Decimal(n)| :: IsDigit(Decimal(n)[i])
  {
  }

  /** An object written is what the store has under its id. */
  lemma WrittenIsFound(w: World, disk: Disk, o: Object)
    requires NoClash(w, disk, o) && !ForStructure(o.kind, o.data)
    ensures Lookup(w, Stored(w, disk, o), IdOf(w, o)) == Ok(o)
  {
    hide ParseLoose, Serialize;
    LooseRoundTrip(o);
  }

  // ----- the cache -----

  datatype Line = Line(oid: bytes, obj: Object)

  function Spot(home: nat, d: nat): (p: nat)
    ensures p < CACHE_SIZE
  {
    (home + d) % CACHE_SIZE
  }

  /** A cached object lies within eight probes of its home, with no free line before it, and is what the
      store has under its id, as a loose object. */
  ghost predicate LineOk(w: World, disk: Disk, lines: seq<Option<Line>>, p: nat)
    requires |lines| == CACHE_SIZE && p < CACHE_SIZE && lines[p].Some?
  {
    var l := lines[p].value;
    && l.oid in disk && Lookup(w, disk, l.oid) == Ok(l.obj)
    && exists d :: 0 <= d < PROBES && Spot(w.home(l.oid), d) == p && Taken(lines, w.home(l.oid), d)
  }

  ghost predicate Taken(lines: seq<Option<Line>>, home: nat, d: nat)
    requires |lines| == CACHE_SIZE
  {
    forall e | 0 <= e < d :: lines[Spot(home, e)].Some?
  }

  ghost predicate Coherent(w: World, disk: Disk, lines: seq<Option<Line>>) {
    |lines| == CACHE_SIZE && forall p | 0 <= p < CACHE_SIZE && lines[p].Some? :: LineOk(w, disk, lines, p)
  }

  /** An object is cached within eight lines of its home, unless all of these hold others. */
  ghost predicate CachedOrFull(w: World, lines: seq<Option<Line>>, oid: bytes, obj: Object)
    requires |lines| == CACHE_SIZE
  {
    || (exists d :: 0 <= d < 8 && Taken(lines, w.home(oid), d) && lines[Spot(w.home(oid), d)] == Some(Line(oid, obj)))
    || forall d | 0 <= d < 8 :: lines[Spot(w.home(oid), d)].Some? && lines[Spot(w.home(oid), d)].value.oid != oid
  }

  ghost predicate NotHere(w: World, lines: seq<Option<Line>>, oid: bytes, d: nat)
    requires |lines| == CACHE_SIZE
  {
    lines[Spot(w.home(oid), d)].Some? && lines[Spot(w.home(oid), d)].value.oid != oid
  }

  lemma Here(w: World, lines: seq<Option<Line>>, oid: bytes, obj: Object, d: nat)
    requires |lines| == CACHE_SIZE && d < PROBES && Taken(lines, w.home(oid), d)
    requires lines[Spot(w.home(oid), d)] == Some(Line(oid, obj))
    ensures CachedOrFull(w, lines, oid, obj)
  {
  }

  lemma Nowhere(w: World, lines: seq<Option<Line>>, oid: bytes, obj: Object)
    requires |lines| == CACHE_SIZE && forall d | 0 <= d < PROBES :: NotHere(w, lines, oid, d)
    ensures CachedOrFull(w, lines, oid, obj)
  {
    hide Spot;
    forall d | 0 <= d < 8 ensures Spot(w.home(oid), d) < CACHE_SIZE
      && lines[Spot(w.home(oid), d)].Some? && lines[Spot(w.home(oid), d)].value.oid != oid
    {
      SpotFits(w.home(oid), d);
      assert NotHere(w, lines, oid, d);
    }
  }

  lemma LineMeans(w: World, disk: Disk, lines: seq<Option<Line>>, p: nat)
    requires Coherent(w, disk, lines) && p < CACHE_SIZE && lines[p].Some?
    ensures lines[p].value.oid in disk && Lookup(w, disk, lines[p].value.oid) == Ok(lines[p].value.obj)
  {
    hide Lookup;
    assert LineOk(w, disk, lines, p);
  }

  /** Filling a free line, or renewing a line of the same id, keeps the cache coherent. */
  lemma FillLine(w: World, disk: Disk, lines: seq<Option<Line>>, d: nat, l: Line)
    requires Coherent(w, disk, lines) && d < PROBES && Taken(lines, w.home(l.oid), d)
    requires l.oid in disk && Lookup(w, disk, l.oid) == Ok(l.obj)
    requires var p := Spot(w.home(l.oid), d); lines[p].None? || lines[p].value.oid == l.oid
    ensures Coherent(w, disk, lines[Spot(w.home(l.oid), d) := Some(l)])
  {
    hide Lookup, Spot;
    SpotFits(w.home(l.oid), d);
    var p := Spot(w.home(l.oid), d);
    var filled := lines[p := Some(l)];
    forall q | 0 <= q < CACHE_SIZE && filled[q].Some? ensures LineOk(w, disk, filled, q) {
      if q == p {
        TakenStill(lines, filled, w.home(l.oid), d, p);
      } else {
        assert LineOk(w, disk, lines, q);
        var m := lines[q].value;
        var e :| 0 <= e < PROBES && Spot(w.home(m.oid), e) == q && Taken(lines, w.home(m.oid), e);
        TakenStill(lines, filled, w.home(m.oid), e, p);
      }
    }
  }

  lemma SpotFits(home: nat, d: nat)
    ensures Spot(home, d) < CACHE_SIZE
  {
  }

  lemma TakenStill(lines: seq<Option<Line>>, filled: seq<Option<Line>>, home: nat, d: nat, p: nat)
    requires |lines| == |filled| == CACHE_SIZE && Taken(lines, home, d) && p < CACHE_SIZE && filled[p].Some?
    requires forall q | 0 <= q < CACHE_SIZE && q != p :: filled[q] == lines[q]
    ensures Taken(filled, home, d)
  {
  }

  /** More loose objects do not disturb the cache. */
  lemma DiskGrows(w: World, disk: Disk, disk': Disk, lines: seq<Option<Line>>)
    requires Coherent(w, disk, lines) && forall k <- disk :: k in disk' && disk'[k] == disk[k]
    ensures Coherent(w, disk', lines)
  {
    hide ParseLoose, Spot, Taken;
    forall p | 0 <= p < CACHE_SIZE && lines[p].Some? ensures LineOk(w, disk', lines, p) {
      assert LineOk(w, disk, lines, p);
    }
  }

  class Odb {
    const w: World
    var disk: Disk
    const cache: array<Option<Line>>

    ghost predicate Valid()
      reads this, cache
    {
      cache.Length == CACHE_SIZE && Coherent(w, disk, cache[..])
    }

    constructor (w: World, disk: Disk)
      ensures Valid() && fresh(cache) && this.w == w && this.disk == disk
    {
      this.w := w;
      this.disk := disk;
      cache := new Option<Line>[CACHE_SIZE](_ => None);
    }

    /** The probe shared by reads and writes: up to eight lines, until a free one. */
    method Probe(oid: bytes) returns (r: Option<Object>)
      requires Valid()
      ensures r.Some? ==> oid in disk && Lookup(w, disk, oid) == Ok(r.value)
      ensures r.Some? ==> CachedOrFull(w, cache[..], oid, r.value)
      ensures r.None? ==> forall d | 0 <= d < PROBES && Taken(cache[..], w.home(oid), d + 1) ::
                cache[Spot(w.home(oid), d)].value.oid != oid
    {
      hide Lookup, Coherent;
      var probe := 0;
      while probe < PROBES
        invariant 0 <= probe <= PROBES && Taken(cache[..], w.home(oid), probe)
        invariant forall d | 0 <= d < probe :: cache[Spot(w.home(oid), d)].value.oid != oid
      {
        var p := Spot(w.home(oid), probe);
        if cache[p].None? { break; }
        if cache[p].value.oid == oid {
          LineMeans(w, disk, cache[..], p);
          Here(w, cache[..], oid, cache[p].value.obj, probe);
          return Some(cache[p].value.obj);
        }
        probe := probe + 1;
      }
      r := None;
    }

    /** Puts an object the store has into the first free line, unless its id comes first. `renew` says
        whether a line of this id gets the object again. */
    method Remember(oid: bytes, obj: Object, renew: bool)
      requires Valid() && oid in disk && Lookup(w, disk, oid) == Ok(obj)
      modifies cache
      ensures Valid() && CachedOrFull(w, cache[..], oid, obj)
    {
      hide Lookup, Coherent, Spot, CachedOrFull;
      var probe := 0;
      while probe < PROBES
        invariant 0 <= probe <= PROBES && cache.Length == CACHE_SIZE && Coherent(w, disk, cache[..])
        invariant Taken(cache[..], w.home(oid), probe)
        invariant forall d | 0 <= d < probe :: NotHere(w, cache[..], oid, d)
      {
        SpotFits(w.home(oid), probe);
        var p := Spot(w.home(oid), probe);
        if cache[p].None? || (cache[p].value.oid == oid && renew) {
          FillLine(w, disk, cache[..], probe, Line(oid, obj));
          ghost var was := cache[..];
          ghost var filled := cache[..][p := Some(Line(oid, obj))];
          cache[p] := Some(Line(oid, obj));
          assert cache[..] == filled;
          TakenStill(was, cache[..], w.home(oid), probe, p);
          Here(w, cache[..], oid, obj, probe);
          return;
        }
        if cache[p].value.oid == oid {
          LineMeans(w, disk, cache[..], p);
          Here(w, cache[..], oid, obj, probe);
          return;
        }
        probe := probe + 1;
      }
      Nowhere(w, cache[..], oid, obj);
    }

    /** fastgit_odb_read: the same answer as without the cache. */
    method Read(oid: bytes) returns (r: Result<Object>)
      requires Valid()
      modifies cache
      ensures Valid() && r == Lookup(w, disk, oid) && Right(w, disk, oid, r)
      ensures r.Ok? && w.packs(oid).None? ==> CachedOrFull(w, cache[..], oid, r.value)
    {
      hide Coherent, ParseLoose, Right;
      LookupRight(w, disk, oid);
      var hit := Probe(oid);
      if hit.Some? { return Ok(hit.value); }
      var packed := w.packs(oid);
      if packed.Some? { return Ok(packed.value); }
      if oid !in disk { return Err(ENOENT); }
      r := ReadLoose(disk[oid]);
      if r.Ok? { Remember(oid, r.value, false); }
    }

    /** fastgit_odb_write: the same effect on the store as without the cache. */
    method Write(k: Kind, data: bytes) returns (r: Written)
      requires Valid() && NoClash(w, disk, Object(k, data))
      modifies this, cache
      ensures r == if k != Blob && data == [] then Misread else Id(w.hash(Serialize(k, data)))
      ensures Valid() && r == Receipt(w, Object(k, data)) && disk == Stored(w, old(disk), Object(k, data))
      ensures r.Id? ==> exists o :: CachedOrFull(w, cache[..], r.oid, o)
    {
      hide Coherent, ParseLoose, Serialize, Lookup;
      var o := Object(k, data);
      if ForStructure(k, data) { return Misread; }
      var oid := IdOf(w, o);
      r := Id(oid);
      var hit := Probe(oid);
      if hit.Some? { return; }
      WrittenIsFound(w, disk, o);
      if oid in disk {
        Remember(oid, o, false);
        return;
      }
      DiskGrows(w, disk, Stored(w, disk, o), cache[..]);
      disk := disk[oid := Serialize(k, data)];
      Remember(oid, o, true);
    }
  }

  /** Finds the NUL, scans the header, and takes the payload. */
  method ReadLoose(s: bytes) returns (r: Result<Object>)
    ensures r == ParseLoose(s)
  {
    hide ScanHeader;
    var n := TreeFormat.Memchr(s, 0, 0);
    assert s[0..] == s;
    if n >= |s| { return Err(ERROR); }
    var head := ScanHeader(s[..n]);
    if head.None? { return Err(ERROR); }
    var (name, size) := head.value;
    if n + 1 + size > |s| { return Err(ERROR); }
    r := Ok(Object(KindFromName(name), s[n + 1..n + 1 + size]));
  }

  // ----- whole runs -----

  datatype Op = ReadOp(oid: bytes) | WriteOp(obj: Object)
  datatype Reply = Answer(r: Result<Object>) | Wrote(w: Written)

  function After(w: World, disk: Disk, op: Op): Disk {
    match op case ReadOp(_) => disk case WriteOp(o) => Stored(w, disk, o)
  }

  function ReplyTo(w: World, disk: Disk, op: Op): Reply {
    match op case ReadOp(oid) => Answer(Lookup(w, disk, oid)) case WriteOp(o) => Wrote(Receipt(w, o))
  }

  /** The run of the store without a cache. */
  function DiskAfter(w: World, disk: Disk, ops: seq<Op>): Disk {
    if ops == [] then disk else After(w, DiskAfter(w, disk, ops[..|ops| - 1]), ops[|ops| - 1])
  }

  predicate Misreads(op: Op) {
    op.WriteOp? && ForStructure(op.obj.kind, op.obj.data)
  }

  /** How far a run can be followed: up to and including the first misread write. */
  function Followed(ops: seq<Op>): (n: nat)
    ensures n <= |ops| && forall i | 0 <= i < n - 1 :: !Misreads(ops[i])
    ensures n < |ops| ==> n > 0 && Misreads(ops[n - 1])
  {
    if ops == [] then 0 else if Misreads(ops[0]) then 1 else
      assert forall i | 1 <= i < |ops| :: ops[i] == ops[1..][i - 1];
      1 + Followed(ops[1..])
  }

  ghost predicate RunOk(w: World, disk: Disk, ops: seq<Op>) {
    forall i | 0 <= i < Followed(ops) && ops[i].WriteOp? :: NoClash(w, DiskAfter(w, disk, ops[..i]), ops[i].obj)
  }

  lemma DiskNext(w: World, disk: Disk, ops: seq<Op>, i: nat)
    requires i < |ops|
    ensures DiskAfter(w, disk, ops[..i + 1]) == After(w, DiskAfter(w, disk, ops[..i]), ops[i])
  {
    assert ops[..i + 1][..i] == ops[..i];
  }

  /** Any run of reads and writes, as far as it can be followed: every reply is the one the store would give
      without the cache. */
  method Replay(odb: Odb, ops: seq<Op>) returns (replies: seq<Reply>)
    requires odb.Valid() && RunOk(odb.w, odb.disk, ops)
    modifies odb, odb.cache
    ensures |replies| == Followed(ops)
    ensures odb.Valid() && odb.disk == DiskAfter(odb.w, old(odb.disk), ops[..|replies|])
    ensures forall i | 0 <= i < |replies| ::
      replies[i] == ReplyTo(odb.w, DiskAfter(odb.w, old(odb.disk), ops[..i]), ops[i])
  {
    hide Coherent, Lookup, NoClash, Stored, DiskAfter, Receipt, ForStructure, IdOf;
    replies := [];
    ghost var start := odb.disk;
    NoOps(odb.w, start, ops);
    var i := 0;
    while i < |ops| && (i == 0 || !Misreads(ops[i - 1]))
      invariant i <= Followed(ops) && (i < |ops| && i == Followed(ops) ==> Misreads(ops[i - 1]))
      invariant odb.Valid() && odb.disk == DiskAfter(odb.w, start, ops[..i]) && |replies| == i
      invariant forall j | 0 <= j < i :: replies[j] == ReplyTo(odb.w, DiskAfter(odb.w, start, ops[..j]), ops[j])
    {
      DiskNext(odb.w, start, ops, i);
      match ops[i] {
        case ReadOp(oid) =>
          var r := odb.Read(oid);
          replies := replies + [Answer(r)];
        case WriteOp(o) =>
          var r := odb.Write(o.kind, o.data);
          replies := replies + [Wrote(r)];
      }
      i := i + 1;
    }
  }

  lemma NoOps(w: World, disk: Disk, ops: seq<Op>)
    ensures DiskAfter(w, disk, ops[..0]) == disk
  {
  }

  /** What is on disk after a run: what was there before, and the objects written. */
  lemma {:induction false} DiskIs(w: World, disk: Disk, ops: seq<Op>, j: nat, oid: bytes)
    requires j <= |ops|
    ensures oid in DiskAfter(w, disk, ops[..j]) <==>
      oid in disk || exists i :: 0 <= i < j && ops[i].WriteOp? && !Misreads(ops[i]) && IdOf(w, ops[i].obj) == oid
    ensures oid in disk ==> DiskAfter(w, disk, ops[..j])[oid] == disk[oid]
    ensures oid !in disk && oid in DiskAfter(w, disk, ops[..j]) ==>
      exists i :: 0 <= i < j && ops[i].WriteOp? && !Misreads(ops[i]) && IdOf(w, ops[i].obj) == oid
        && DiskAfter(w, disk, ops[..j])[oid] == Serialize(ops[i].obj.kind, ops[i].obj.data)
    decreases j
  {
    hide DiskAfter, Serialize, IdOf;
    if j == 0 {
      NoOps(w, disk, ops);
    } else {
      DiskIs(w, disk, ops, j - 1, oid);
      DiskNext(w, disk, ops, j - 1);
    }
  }

  /** Every answer of a run is right for what is on disk at that point. */
  lemma RepliesRight(w: World, disk: Disk, ops: seq<Op>, i: nat)
    requires i < |ops| && ops[i].ReadOp?
    ensures var r := ReplyTo(w, DiskAfter(w, disk, ops[..i]), ops[i]);
      r.Answer? && Right(w, DiskAfter(w, disk, ops[..i]), ops[i].oid, r.r)
  {
    hide Right, Lookup, DiskAfter;
    LookupRight(w, DiskAfter(w, disk, ops[..i]), ops[i].oid);
  }

  /** Whatever is written reads back, at every later point of the run. */
  lemma {:induction false} WrittenReadsBack(w: World, disk: Disk, ops: seq<Op>, i: nat, j: nat)
    requires RunOk(w, disk, ops) && i < j <= Followed(ops) && ops[i].WriteOp? && !Misreads(ops[i])
    ensures IdOf(w, ops[i].obj) in DiskAfter(w, disk, ops[..j])
    ensures Lookup(w, DiskAfter(w, disk, ops[..j]), IdOf(w, ops[i].obj)) == Ok(ops[i].obj)
    decreases j
  {
    hide ParseLoose, DiskAfter, Serialize, IdOf;
    DiskNext(w, disk, ops, j - 1);
    if j == i + 1 {
      WrittenIsFound(w, DiskAfter(w, disk, ops[..i]), ops[i].obj);
    } else {
      WrittenReadsBack(w, disk, ops, i, j - 1);
    }
  }
}
