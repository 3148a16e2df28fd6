/** Writing packs, one object at a time or through the thread pool, and reading them back
    (src/pack/packfile.c). */
module PackWriter {
  import opened Bytes
  import opened ObjectFormat
  import opened PackFormat
  import opened PackRead
  import opened PackIndex
  import Fanout
  import ThreadPool

  const DEFAULT_LEVEL := -1
  const BEST_SPEED := 1
  const PARALLEL_FROM := 128
  const START: bytes := [80, 65, 67, 75, 0, 0, 0, 2, 0, 0, 0, 0]

  /** The library functions a pack relies on: zlib, the hash of ids and checksums, and the CRC. */
  datatype Lib = Lib(z: Zlib, hash: bytes -> bytes, crc: bytes -> nat)

  ghost predicate LibOk(lib: Lib) {
    && Faithful(lib.z) && (forall x :: |lib.hash(x)| == 32) && (forall x :: lib.crc(x) < TWO32)
  }

  /** An object and the compression level it is packed with. */
  datatype Item = Item(level: int, obj: Object)

  /** The bytes, id and CRC of one object: what one task of the parallel writer computes. */
  datatype Packed = Packed(oid: bytes, hdr: bytes, comp: bytes, crc: nat)

  function PackOne(lib: Lib, t: Item): Packed {
    var hdr := EncodeHeader(PackNumber(t.obj.kind), |t.obj.data|);
    var comp := lib.z.deflate(t.level, t.obj.data);
    Packed(OidOf(lib.hash, t.obj.kind, t.obj.data), hdr, comp, lib.crc(hdr + comp))
  }

  function PackAll(lib: Lib, items: seq<Item>): (r: seq<Packed>)
    ensures |r| == |items| && forall i | 0 <= i < |items| :: r[i] == PackOne(lib, items[i])
  {
    seq(|items|, i requires 0 <= i < |items| => PackOne(lib, items[i]))
  }

  /** The pack being written and the write tables. */
  datatype Disk = Disk(file: bytes, oids: seq<bytes>, crcs: seq<nat>, offsets: seq<nat>)

  function AddOne(d: Disk, p: Packed): Disk {
    Disk(d.file + p.hdr + p.comp, d.oids + [p.oid], d.crcs + [p.crc], d.offsets + [|d.file|])
  }

  function AddAll(d: Disk, ps: seq<Packed>): Disk {
    if ps == [] then d else AddOne(AddAll(d, ps[..|ps| - 1]), ps[|ps| - 1])
  }

  lemma {:induction false} AddAllAppend(d: Disk, ps: seq<Packed>, qs: seq<Packed>)
    ensures AddAll(AddAll(d, ps), qs) == AddAll(d, ps + qs)
    decreases |qs|
  {
    if qs == [] {
      assert ps + qs == ps;
    } else {
      var n := |qs| - 1;
      AddAllAppend(d, ps, qs[..n]);
      assert (ps + qs)[..|ps + qs| - 1] == ps + qs[..n];
    }
  }

  lemma AddAllNext(d: Disk, ps: seq<Packed>, i: nat)
    requires i < |ps|
    ensures AddAll(d, ps[..i + 1]) == AddOne(AddAll(d, ps[..i]), ps[i])
  {
    assert ps[..i + 1][..i] == ps[..i];
  }

  lemma NextItem(lib: Lib, d: Disk, items: seq<Item>, t: Item)
    requires Sizes(items) && |t.obj.data| < TWO64
    ensures Sizes(items + [t])
    ensures AddAll(d, PackAll(lib, items + [t])) == AddOne(AddAll(d, PackAll(lib, items)), PackOne(lib, t))
  {
    hide PackOne;
    var ps := PackAll(lib, items + [t]);
    AddAllNext(d, ps, |items|);
    assert ps[..|items|] == PackAll(lib, items) && ps[..|items| + 1] == ps;
  }

  lemma PackAllMeans(lib: Lib, items: seq<Item>)
    ensures |PackAll(lib, items)| == |items|
    ensures forall i | 0 <= i < |items| :: PackAll(lib, items)[i] == PackOne(lib, items[i])
  {
  }

  lemma AddNothing(d: Disk)
    ensures AddAll(d, []) == d && forall ps: seq<Packed> :: AddAll(d, ps[..0]) == d
  {
  }

  function Fresh(): Disk {
    Disk(START, [], [], [])
  }

  // ----- what the tables say about the file -----

  function EntryFor(lib: Lib, t: Item): Entry {
    Plain(PackNumber(t.obj.kind), t.obj.data, lib.z.deflate(t.level, t.obj.data))
  }

  function Entries(lib: Lib, items: seq<Item>): (es: seq<Entry>)
    ensures |es| == |items| && Kinds(es) && forall i | 0 <= i < |items| :: es[i] == EntryFor(lib, items[i])
  {
    seq(|items|, i requires 0 <= i < |items| => EntryFor(lib, items[i]))
  }

  ghost predicate Sizes(items: seq<Item>) {
    forall t <- items :: |t.obj.data| < TWO64
  }

  lemma EntryIsPacked(lib: Lib, t: Item)
    requires LibOk(lib) && |t.obj.data| < TWO64
    ensures EntryOk(lib.z, EntryFor(lib, t))
    ensures Front(EntryFor(lib, t)) == PackOne(lib, t).hdr && EntryFor(lib, t).stream == PackOne(lib, t).comp
  {
    hide EncodeHeader;
    var s := lib.z.deflate(t.level, t.obj.data);
    forall rest ensures lib.z.inflate(s + rest) == Some((|s|, t.obj.data)) {
    }
  }

  /** Entry i lies at its recorded offset, the running sum of the entry sizes. */
  ghost predicate Lies(d: Disk, es: seq<Entry>, i: nat)
    requires Kinds(es) && i < |es| && |d.offsets| == |es|
  {
    d.offsets[i] == Offset(es, i) && At(d.file, Offset(es, i), es[i])
  }

  ghost predicate Describes(d: Disk, es: seq<Entry>) {
    && Kinds(es) && |d.oids| == |d.crcs| == |d.offsets| == |es| && |d.file| == Offset(es, |es|)
    && forall i | 0 <= i < |es| :: Lies(d, es, i)
  }

  lemma {:induction false} OffsetPrefix(es: seq<Entry>, fs: seq<Entry>, i: nat)
    requires Kinds(es) && Kinds(fs) && i <= |es| <= |fs| && fs[..|es|] == es
    ensures Offset(fs, i) == Offset(es, i)
  {
    hide Front;
    if i > 0 {
      OffsetPrefix(es, fs, i - 1);
      assert fs[i - 1] == fs[..|es|][i - 1];
    }
  }

  lemma StaysAt(file: bytes, more: bytes, o: nat, e: Entry)
    requires (e.Plain? ==> e.kind < 8) && At(file, o, e)
    ensures At(file + more, o, e)
  {
    hide Front;
    assert (file + more)[o..o + Size(e)] == file[o..o + Size(e)];
  }

  lemma NowAt(file: bytes, e: Entry)
    requires e.Plain? ==> e.kind < 8
    ensures At(file + Front(e) + e.stream, |file|, e)
  {
    hide Front;
    var g := file + Front(e) + e.stream;
    assert g[|file|..|file| + Size(e)] == Front(e) + e.stream;
  }

  lemma {:induction false} DescribesNext(d: Disk, es: seq<Entry>, e: Entry, p: Packed)
    requires Describes(d, es) && (e.Plain? ==> e.kind < 8) && p.hdr == Front(e) && p.comp == e.stream
    ensures Kinds(es + [e]) && Describes(AddOne(d, p), es + [e])
  {
    hide Front, At, Offset;
    var fs, d' := es + [e], AddOne(d, p);
    forall i | 0 <= i < |fs| ensures Lies(d', fs, i) {
      OffsetPrefix(es, fs, i);
      if i < |es| {
        assert Lies(d, es, i);
        StaysAt(d.file, p.hdr + p.comp, Offset(es, i), es[i]);
        assert d'.file == d.file + (p.hdr + p.comp);
      } else {
        NowAt(d.file, e);
      }
    }
    OffsetPrefix(es, fs, |es|);
    assert Offset(fs, |fs|) == Offset(fs, |es|) + Size(e) by { OffsetNext(fs); }
  }

  lemma OffsetNext(fs: seq<Entry>)
    requires Kinds(fs) && fs != []
    ensures Offset(fs, |fs|) == Offset(fs, |fs| - 1) + Size(fs[|fs| - 1])
  {
    hide Front;
  }

  /** After any sequence of additions the tables describe the file. */
  lemma {:induction false} Written(lib: Lib, items: seq<Item>)
    requires LibOk(lib) && Sizes(items)
    ensures Describes(AddAll(Fresh(), PackAll(lib, items)), Entries(lib, items))
    decreases |items|
  {
    hide PackOne, EntryFor;
    if items != [] {
      var n := |items| - 1;
      var t := items[n];
      Written(lib, items[..n]);
      assert PackAll(lib, items)[..n] == PackAll(lib, items[..n]);
      assert Entries(lib, items) == Entries(lib, items[..n]) + [EntryFor(lib, t)];
      PlainEntry(lib, t);
      EntryIsPacked(lib, t);
      DescribesNext(AddAll(Fresh(), PackAll(lib, items[..n])), Entries(lib, items[..n]), EntryFor(lib, t),
        PackOne(lib, t));
    }
  }

  lemma PlainEntry(lib: Lib, t: Item)
    ensures EntryFor(lib, t).Plain? && 1 <= EntryFor(lib, t).kind <= 4
  {
  }

  /** The recorded ids are the ids of the objects, in order. */
  lemma {:induction false} IdsWritten(d: Disk, ps: seq<Packed>)
    requires d.oids == [] && d.crcs == []
    ensures |AddAll(d, ps).oids| == |AddAll(d, ps).crcs| == |ps|
    ensures forall i | 0 <= i < |ps| :: AddAll(d, ps).oids[i] == ps[i].oid && AddAll(d, ps).crcs[i] == ps[i].crc
    decreases |ps|
  {
    if ps != [] { IdsWritten(d, ps[..|ps| - 1]); }
  }

  // ----- the writer -----

  method Compress(lib: Lib, t: Item) returns (p: Packed)
    requires |t.obj.data| < TWO64
    ensures p == PackOne(lib, t)
  {
    hide EncodeHeader;
    var hdr := WriteHeader(PackNumber(t.obj.kind), |t.obj.data|);
    var comp := lib.z.deflate(t.level, t.obj.data);
    p := Packed(OidOf(lib.hash, t.obj.kind, t.obj.data), hdr, comp, lib.crc(hdr + comp));
  }

  class Writer {
    const lib: Lib
    var file: bytes
    var oids: seq<bytes>
    var crcs: seq<nat>
    var offsets: seq<nat>
    var curOffset: nat
    var objectCount: nat
    ghost var items: seq<Item>   // what has been added so far

    ghost function View(): Disk
      reads this
    {
      Disk(file, oids, crcs, offsets)
    }

    ghost predicate Valid()
      reads this
    {
      && LibOk(lib) && Sizes(items) && curOffset == |file| && objectCount == |oids|
      && View() == AddAll(Fresh(), PackAll(lib, items))
    }

    constructor (lib: Lib)
      requires LibOk(lib)
      ensures Valid() && this.lib == lib && items == []
    {
      this.lib := lib;
      file := START;
      oids, crcs, offsets := [], [], [];
      curOffset, objectCount := 12, 0;
      items := [];
    }

    /** Writes an object that has been packed, and records it. */
    method Record(p: Packed, ghost t: Item)
      requires Valid() && p == PackOne(lib, t) && |t.obj.data| < TWO64
      modifies this
      ensures Valid() && View() == AddOne(old(View()), p) && items == old(items) + [t]
    {
      hide PackOne, LibOk, PackAll, AddAll, Fresh, Sizes;
      NextItem(lib, Fresh(), items, t);
      var off := curOffset;
      file := file + p.hdr;
      file := file + p.comp;
      oids, crcs, offsets := oids + [p.oid], crcs + [p.crc], offsets + [off];
      curOffset := curOffset + (|p.hdr| + |p.comp|);
      objectCount := objectCount + 1;
      items := items + [t];
    }

    /** fastgit_pack_add_object. */
    method AddObject(o: Object) returns (oid: bytes)
      requires Valid() && |o.data| < TWO64
      modifies this
      ensures Valid() && items == old(items) + [Item(-1, o)] && oid == lib.hash(Serialize(o.kind, o.data))
      ensures oid == OidOf(lib.hash, o.kind, o.data)
      ensures View() == AddOne(old(View()), PackOne(lib, Item(DEFAULT_LEVEL, o)))
    {
      var p := Compress(lib, Item(DEFAULT_LEVEL, o));
      Record(p, Item(DEFAULT_LEVEL, o));
      oid := p.oid;
    }

    /** Writes the results of the tasks in task order. */
    method RecordAll(ps: seq<Packed>, ghost ts: seq<Item>) returns (out: seq<bytes>)
      requires Valid() && Sizes(ts) && ps == PackAll(lib, ts)
      modifies this
      ensures Valid() && View() == AddAll(old(View()), ps) && items == old(items) + ts
      ensures |out| == |ps| && forall i | 0 <= i < |ps| :: out[i] == ps[i].oid
    {
      hide PackOne, LibOk, AddAll, AddOne;
      AddNothing(View());
      out := [];
      var i := 0;
      while i < |ps|
        invariant i <= |ps| && Valid() && View() == AddAll(old(View()), ps[..i]) && items == old(items) + ts[..i]
        invariant |out| == i && forall j | 0 <= j < i :: out[j] == ps[j].oid
      {
        AddAllNext(old(View()), ps, i);
        Record(ps[i], ts[i]);
        assert ts[..i + 1] == ts[..i] + [ts[i]];
        out := out + [ps[i].oid];
        i := i + 1;
      }
      assert ps[..i] == ps && ts[..i] == ts;
    }

    /** fastgit_pack_add_objects_parallel. `pooled` is what the workers have left in the tasks when `wait`
        returns, if there is a pool. Small batches go through AddObject; a large batch is written the
        same with a pool, under any schedule, as without. */
    method AddObjectsParallel(os: seq<Object>, pooled: Option<seq<Packed>>, ghost run: PoolRun)
      returns (r: Result<seq<bytes>>)
      requires Valid() && forall o <- os :: |o.data| < TWO64
      requires pooled.Some? ==> LeftByPool(lib, os, pooled.value, run)
      modifies this
      ensures Valid() && (r.Err? <==> os == [])
      ensures r.Err? ==> r.error == EINVAL && View() == old(View()) && items == old(items)
      ensures r.Ok? ==>
        var ts := Tasks(if |os| < 128 then -1 else 1, os);
        && View() == AddAll(old(View()), PackAll(lib, ts)) && items == old(items) + ts
        && |r.value| == |os| && forall i | 0 <= i < |os| :: r.value[i] == OidOf(lib.hash, os[i].kind, os[i].data)
    {
      hide LibOk, AddAll, LeftByPool, EncodeHeader;
      if os == [] { return Err(EINVAL); }
      var ps, out: seq<bytes>;
      if |os| < PARALLEL_FROM {
        out := AddEach(os);
      } else {
        ghost var ts := Tasks(BEST_SPEED, os);
        if pooled.Some? {
          ps := pooled.value;
          PoolResults(lib, os, ps, run);
        } else {
          ps := CompressAll(lib, os);
        }
        out := RecordAll(ps, ts);
      }
      r := Ok(out);
    }

    /** fastgit_pack_close: fills in the object count, appends the checksum, and writes the index. */
    method Close() returns (pack: bytes, idx: bytes, ghost x: Indexing)
      requires Valid()
      modifies this
      ensures |old(file)| >= HEADER_SIZE && |pack| == |old(file)| + TRAILER_SIZE
      ensures pack[..|old(file)|] == Ascii("PACK") + BE32(2) + BE32(|old(items)|) + old(file)[HEADER_SIZE..]
      ensures pack[|old(file)|..] == lib.hash(pack[..|old(file)|])
      ensures |idx| >= 64 && idx[|idx| - 64..|idx| - 32] == lib.hash(pack[..|old(file)|])
      ensures idx[|idx| - 32..] == lib.hash(idx[..|idx| - 32])
      ensures |pack| < TWO31 ==> Closed(lib, old(items), pack, idx, x)
    {
      hide LibOk, AddAll, PackAll, Fresh, Sizes, BE32;
      ghost var d := View();
      Tables(lib, items);
      ChecksumSize(lib);
      StartIs();
      file := file[..8] + BE32(objectCount) + file[12..];
      assert file == Ascii("PACK") + BE32(2) + BE32(objectCount) + old(file)[12..];
      var sum := lib.hash(file);
      ghost var body := file;
      file := file + sum;
      assert file[..|body|] == body && file[|body|..] == sum;
      pack := file;
      idx, x := CreateIndex();
      if |pack| < TWO31 { SealedHolds(lib, items, d, pack, sum); }
    }

    /** fastgit_pack_index_create: ids sorted, fanout, offsets truncated to 32 bits, both checksums. */
    method CreateIndex() returns (idx: bytes, ghost x: Indexing)
      requires LibOk(lib) && |oids| == |crcs| == |offsets| && |file| >= TRAILER_SIZE && AllWide(oids, ID_SIZE)
      ensures |idx| >= 64 && idx[|idx| - 32..] == lib.hash(idx[..|idx| - 32])
      ensures idx[|idx| - 64..|idx| - 32] == file[|file| - TRAILER_SIZE..]
      ensures FitsFields(View()) ==> Indexes(View(), idx, x)
    {
      hide Fanout.SortedIds, Fanout.Permutation, Fanout.IsFanout, Content, FitsFields;
      ChecksumSize(lib);
      var order := Fanout.SortOrder(oids);
      Fanout.InRange(order[..], |oids|);
      var ids, cs, os := Arrange(order[..]);
      IdsNotEmpty(ids);
      var fanout := Fanout.FanoutByIncrement(ids);
      var packSum := file[|file| - TRAILER_SIZE..];
      var content := Assemble(fanout[..], ids, cs, os, packSum);
      idx := content + lib.hash(content);
      assert idx[..|content|] == content;
      SumLast(fanout[..], ids, cs, os, packSum);
      assert idx[|idx| - 64..|idx| - 32] == content[|content| - 32..];
      x := Indexing(order[..], Loaded(fanout[..], ids, cs, os), packSum, lib.hash(content));
      if FitsFields(View()) { IndexParts(View(), idx, x); }
    }

    /** The tables read in the given order, offsets cut to 32 bits. */
    method Arrange(order: seq<nat>) returns (ids: seq<bytes>, cs: seq<nat>, os: seq<nat>)
      requires |oids| == |crcs| == |offsets| == |order| && forall i | 0 <= i < |order| :: order[i] < |oids|
      ensures ids == Fanout.Arranged(oids, order) && cs == Fanout.Arranged(crcs, order) && |os| == |order|
      ensures forall i | 0 <= i < |order| :: os[i] == offsets[order[i]] % TWO32
    {
      ids, cs, os := [], [], [];
      var i := 0;
      while i < |order|
        invariant i <= |order| && |ids| == |cs| == |os| == i
        invariant forall j | 0 <= j < i ::
          ids[j] == oids[order[j]] && cs[j] == crcs[order[j]] && os[j] == offsets[order[j]] % TWO32
      {
        ids, cs, os := ids + [oids[order[i]]], cs + [crcs[order[i]]], os + [offsets[order[i]] % TWO32];
        i := i + 1;
      }
    }

    method AddEach(os: seq<Object>) returns (out: seq<bytes>)
      requires Valid() && forall o <- os :: |o.data| < TWO64
      modifies this
      ensures Valid() && items == old(items) + Tasks(DEFAULT_LEVEL, os)
      ensures View() == AddAll(old(View()), PackAll(lib, Tasks(DEFAULT_LEVEL, os)))
      ensures |out| == |os| && forall i | 0 <= i < |os| :: out[i] == OidOf(lib.hash, os[i].kind, os[i].data)
    {
      hide PackOne, LibOk, AddAll, AddOne, PackAll, Fresh, Sizes, OidOf;
      AddNothing(View());
      ghost var ts := Tasks(DEFAULT_LEVEL, os);
      PackAllMeans(lib, ts);
      ghost var ps := PackAll(lib, ts);
      out := [];
      var i := 0;
      while i < |os|
        invariant i <= |os| && Valid() && View() == AddAll(old(View()), ps[..i]) && items == old(items) + ts[..i]
        invariant |out| == i && forall j | 0 <= j < i :: out[j] == OidOf(lib.hash, os[j].kind, os[j].data)
      {
        AddAllNext(old(View()), ps, i);
        var oid := AddObject(os[i]);
        assert ts[..i + 1] == ts[..i] + [Item(DEFAULT_LEVEL, os[i])];
        out := out + [oid];
        i := i + 1;
      }
      assert ps[..i] == ps && ts[..i] == ts;
    }
  }

  // ----- the pool path -----

  function Tasks(level: int, os: seq<Object>): (ts: seq<Item>)
    ensures |ts| == |os| && forall i | 0 <= i < |os| :: ts[i] == Item(level, os[i])
  {
    seq(|os|, i requires 0 <= i < |os| => Item(level, os[i]))
  }

  function Task(lib: Lib): Item -> Packed {
    t => PackOne(lib, t)
  }

  /** A run of the thread pool up to a return of `wait`, and where the tasks of this batch were accepted. */
  datatype PoolRun = PoolRun(states: seq<ThreadPool.State<Item, Packed>>, actions: seq<ThreadPool.Action<Item>>,
    waited: nat, first: nat)

  /** The tasks of the batch were submitted in order, some run of the pool led to the return of `wait`, and
      `ps` is what that run left in the tasks. */
  ghost predicate LeftByPool(lib: Lib, os: seq<Object>, ps: seq<Packed>, run: PoolRun) {
    && ThreadPool.IsRun(Task(lib), run.states, run.actions)
    && |run.states| > run.waited && run.waited < |run.actions| && run.actions[run.waited] == ThreadPool.WaitReturns
    && var s := run.states[run.waited];
    && run.first + |os| <= |s.accepted| && s.accepted[run.first..run.first + |os|] == Tasks(BEST_SPEED, os)
    && |ps| == |os| && forall i | 0 <= i < |os| :: run.first + i in s.results ==> ps[i] == s.results[run.first + i]
  }

  /** Whatever the schedule, the tasks hold what the sequential code computes. */
  lemma {:induction false} PoolResults(lib: Lib, os: seq<Object>, ps: seq<Packed>, run: PoolRun)
    requires LeftByPool(lib, os, ps, run)
    ensures ps == PackAll(lib, Tasks(BEST_SPEED, os))
  {
    hide PackOne, ThreadPool.IsRun;
    var s := run.states[run.waited];
    ThreadPool.WaitMeansDone(Task(lib), run.states, run.actions, run.waited);
    forall i | 0 <= i < |os| ensures ps[i] == PackOne(lib, Tasks(BEST_SPEED, os)[i]) {
      assert s.accepted[run.first..run.first + |os|][i] == s.accepted[run.first + i];
    }
  }

  /** The fallback without a pool. */
  method CompressAll(lib: Lib, os: seq<Object>) returns (ps: seq<Packed>)
    requires forall o <- os :: |o.data| < TWO64
    ensures ps == PackAll(lib, Tasks(BEST_SPEED, os))
  {
    hide PackOne;
    ps := [];
    var i := 0;
    while i < |os|
      invariant i <= |os| && |ps| == i && forall j | 0 <= j < i :: ps[j] == PackOne(lib, Item(BEST_SPEED, os[j]))
    {
      var p := Compress(lib, Item(BEST_SPEED, os[i]));
      ps := ps + [p];
      i := i + 1;
    }
  }

  // ----- closed packs -----

  /** What an index file was made from: the sort order, the tables, and the two checksums. */
  datatype Indexing = Indexing(order: seq<nat>, tables: Loaded, packSum: bytes, sum: bytes)

  /** The index file lists the write tables in id order, under their fanout. */
  ghost predicate Indexes(d: Disk, idx: bytes, x: Indexing) {
    && |d.oids| == |d.crcs| == |d.offsets| && Fanout.Permutation(x.order, |d.oids|)
    && x.tables.ids == Fanout.Arranged(d.oids, x.order) && x.tables.crcs == Fanout.Arranged(d.crcs, x.order)
    && x.tables.offsets == Fanout.Arranged(d.offsets, x.order)
    && Fanout.SortedIds(x.tables.ids) && Fanout.IsFanout(x.tables.fanout, x.tables.ids)
    && Parts(idx, x.tables.fanout, x.tables.ids, x.tables.crcs, x.tables.offsets, x.packSum, x.sum)
  }

  /** A pack and its index that hold these objects. */
  ghost predicate Closed(lib: Lib, items: seq<Item>, pack: bytes, idx: bytes, x: Indexing) {
    && LibOk(lib) && Sizes(items)
    && Holds(lib.z, pack, Entries(lib, items)) && pack[..8] == START[..8]
    && Indexes(AddAll(Fresh(), PackAll(lib, items)), idx, x)
  }

  // ----- closing -----

  /** Every number in the tables fits its field in the index. */
  ghost predicate FitsFields(d: Disk) {
    && |d.oids| < TWO32 && (forall i | 0 <= i < |d.crcs| :: d.crcs[i] < TWO32)
    && forall i | 0 <= i < |d.offsets| :: d.offsets[i] < TWO31
  }

  lemma ChecksumSize(lib: Lib)
    requires LibOk(lib)
    ensures forall x :: |lib.hash(x)| == 32
  {
  }

  lemma StartIs()
    ensures START == Ascii("PACK") + BE32(2) + BE32(0) && |BE32(2)| == 4 && |Ascii("PACK")| == 4
  {
  }

  lemma SumLast(fanout: seq<nat>, ids: seq<bytes>, crcs: seq<nat>, offsets: seq<nat>, packSum: bytes)
    ensures |Content(fanout, ids, crcs, offsets, packSum)| >= |packSum|
    ensures var c := Content(fanout, ids, crcs, offsets, packSum); c[|c| - |packSum|..] == packSum
  {
    hide Flat, Words;
  }

  /** What the index of a closed pack says of its entries: under the id of an object, the place where its entry
      starts and the CRC of the bytes of that entry. */
  lemma {:induction false} IndexedEntry(lib: Lib, items: seq<Item>, pack: bytes, idx: bytes, x: Indexing, k: nat)
    requires Closed(lib, items, pack, idx, x) && k < |items|
    ensures |x.order| == |x.tables.ids| == |x.tables.crcs| == |x.tables.offsets| == |items| && x.order[k] < |items|
    ensures var t, o := items[x.order[k]], x.tables.offsets[k];
      var n := Size(EntryFor(lib, t));
      && x.tables.ids[k] == OidOf(lib.hash, t.obj.kind, t.obj.data)
      && o + n <= |pack| && x.tables.crcs[k] == lib.crc(pack[o..o + n])
  {
    hide AddAll, Parts, Fanout.SortedIds, Fanout.IsFanout, OidOf, Fresh, Offset, Front, LibOk, EncodeHeader;
    var d, es := AddAll(Fresh(), PackAll(lib, items)), Entries(lib, items);
    NoIdsYet();
    IdsWritten(Fresh(), PackAll(lib, items));
    IndexedIds(lib, items, d, idx, x);
    var i := x.order[k];
    Written(lib, items);
    assert Lies(d, es, i) && At(pack, Offset(es, i), es[i]);
    EntryIsPacked(lib, items[i]);
  }

  lemma IdsNotEmpty(ids: seq<bytes>)
    requires AllWide(ids, ID_SIZE)
    ensures Fanout.AllIds(ids)
  {
  }

  lemma {:induction false} StartKept(d: Disk, ps: seq<Packed>)
    ensures |d.file| <= |AddAll(d, ps).file| && AddAll(d, ps).file[..|d.file|] == d.file
    decreases |ps|
  {
    if ps != [] { StartKept(d, ps[..|ps| - 1]); }
  }

  /** What a valid writer's tables hold. */
  lemma Tables(lib: Lib, items: seq<Item>)
    requires LibOk(lib) && Sizes(items)
    ensures var d := AddAll(Fresh(), PackAll(lib, items));
      && |d.oids| == |d.crcs| == |d.offsets| == |items| <= |d.file| && AllWide(d.oids, ID_SIZE)
      && |d.file| >= 12 && d.file[..12] == START && (|d.file| < TWO31 ==> FitsFields(d))
  {
    hide AddAll, Offset, Front, At, EncodeHeader;
    var d, es := AddAll(Fresh(), PackAll(lib, items)), Entries(lib, items);
    Written(lib, items);
    IdsWritten(Fresh(), PackAll(lib, items));
    StartKept(Fresh(), PackAll(lib, items));
    OffsetsIncrease(es, 0, |es|);
    forall i | 0 <= i < |d.offsets| ensures d.offsets[i] <= |d.file| {
      assert Lies(d, es, i);
      OffsetsIncrease(es, i, |es|);
    }
  }

  /** Sealing leaves every entry where it was. */
  lemma {:induction false} SealedHolds(lib: Lib, items: seq<Item>, d: Disk, pack: bytes, sum: bytes)
    requires LibOk(lib) && Sizes(items) && d == AddAll(Fresh(), PackAll(lib, items))
    requires |d.file| >= 12 && d.file[..12] == START && |items| <= |d.file| && |d.file| + 32 < TWO31 && |sum| == 32
    requires pack == d.file[..8] + BE32(|items|) + d.file[12..] + sum
    ensures Holds(lib.z, pack, Entries(lib, items)) && pack[..8] == START[..8]
  {
    hide AddAll, PackAll, Offset, Front, BE32, BigEndian32, EntryFor, EncodeHeader, EntryOk, LibOk;
    var es := Entries(lib, items);
    Written(lib, items);
    BE32RoundTrip(|items|);
    assert pack[8..12] == BE32(|items|);
    assert d.file[..8] == d.file[..12][..8];
    forall i | 0 <= i < |es| ensures At(pack, Offset(es, i), es[i]) {
      assert Lies(d, es, i);
      PlainEntry(lib, items[i]);
      SealedAt(d.file, pack, Offset(es, i), es[i]);
    }
    forall e <- es ensures EntryOk(lib.z, e) {
      var i :| 0 <= i < |es| && es[i] == e;
      EntryIsPacked(lib, items[i]);
    }
  }

  lemma SealedAt(file: bytes, pack: bytes, o: nat, e: Entry)
    requires (e.Plain? ==> e.kind < 8) && At(file, o, e) && o >= 12 && |pack| >= |file|
      && pack[12..|file|] == file[12..]
    ensures At(pack, o, e)
  {
    hide Front;
    var n := Size(e);
    forall k | o <= k < o + n ensures pack[k] == file[k] {
      assert pack[12..|file|][k - 12] == file[12..][k - 12];
    }
    assert pack[o..o + n] == file[o..o + n];
  }

  lemma IndexParts(d: Disk, idx: bytes, x: Indexing)
    requires |d.oids| == |d.crcs| == |d.offsets| == |x.order| && FitsFields(d) && Fanout.Permutation(x.order, |d.oids|)
    requires AllWide(d.oids, ID_SIZE) && |x.packSum| == |x.sum| == 32
    requires forall i | 0 <= i < |x.order| :: x.order[i] < |d.oids|
    requires x.tables.ids == Fanout.Arranged(d.oids, x.order) && x.tables.crcs == Fanout.Arranged(d.crcs, x.order)
    requires |x.tables.offsets| == |x.order| && forall i | 0 <= i < |x.order| ::
      x.tables.offsets[i] == d.offsets[x.order[i]] % TWO32
    requires Fanout.SortedIds(x.tables.ids) && Fanout.IsFanout(x.tables.fanout, x.tables.ids)
    requires idx == Content(x.tables.fanout, x.tables.ids, x.tables.crcs, x.tables.offsets, x.packSum) + x.sum
    ensures Indexes(d, idx, x)
  {
    hide Fanout.SortedIds, Fanout.Permutation, Content, Fanout.CountTo;
    var t := x.tables;
    forall f | 0 <= f < 256 ensures t.fanout[f] <= |t.ids| { Fanout.CountBound(t.ids, f); }
    Fanout.CountAll(t.ids);
    assert t.offsets == Fanout.Arranged(d.offsets, x.order);
  }

  function IdOf(lib: Lib, t: Item): bytes {
    OidOf(lib.hash, t.obj.kind, t.obj.data)
  }

  ghost predicate DistinctIds(lib: Lib, items: seq<Item>) {
    forall i, j | 0 <= i < j < |items| :: IdOf(lib, items[i]) != IdOf(lib, items[j])
  }

  /** fastgit_pack_open and fastgit_pack_read_entry on a pack and index this writer closed: every object is
      read back under its id, and other ids are not found. `lookup` would find the bases of reference
      deltas, which this writer never makes. */
  method ReadEntry(lib: Lib, pack: bytes, idx: bytes, oid: bytes, lookup: bytes -> Option<nat>,
                   ghost items: seq<Item>, ghost x: Indexing) returns (r: Outcome)
    requires Closed(lib, items, pack, idx, x)
    ensures r == Failed(ENOENT) || exists i :: 0 <= i < |items| && IdOf(lib, items[i]) == oid && r == Read(items[i].obj)
    ensures r == Failed(ENOENT) <==> forall i | 0 <= i < |items| :: IdOf(lib, items[i]) != oid
    ensures DistinctIds(lib, items) ==>
      forall i | 0 <= i < |items| && IdOf(lib, items[i]) == oid :: r == Read(items[i].obj)
  {
    hide LibOk, Holds, Indexes, Parts, AddAll, PackAll, ReadAt, Fanout.SortedIds, Fanout.IsFanout, OidOf;
    ghost var d := AddAll(Fresh(), PackAll(lib, items));
    HeaderThere(lib, items, pack);
    if |pack| < 12 || pack[..8] != START[..8] { return Failed(ERROR); }
    LoadsBack(d, idx, x);
    var index := Load(idx, x.tables.fanout, x.tables.ids, x.tables.crcs, x.tables.offsets, x.packSum, x.sum);
    if !index.Opened? { return Failed(ERROR); }
    var t := index.index;
    IndexedIds(lib, items, d, idx, x);
    if |t.ids| == 0 || |t.ids[0]| != |oid| {
      return Failed(ENOENT);
    }
    var at := Fanout.Find(t.fanout, t.ids, oid);
    if at.Err? { return Failed(at.error); }
    r := ReadObjectAt(lib.z, pack, lookup, t.offsets[at.value], 0);
    ghost var i := x.order[at.value];
    ReadsItem(lib, items, pack, idx, x, lookup, at.value);
    assert 0 <= i < |items| && IdOf(lib, items[i]) == oid && r == Read(items[i].obj);
  }

  lemma HeaderThere(lib: Lib, items: seq<Item>, pack: bytes)
    requires Holds(lib.z, pack, Entries(lib, items))
    ensures |pack| >= 12
  {
    hide Offset;
    assert Offset(Entries(lib, items), |items|) >= HEADER_SIZE;
  }

  lemma LoadsBack(d: Disk, idx: bytes, x: Indexing)
    requires Indexes(d, idx, x)
    ensures Parts(idx, x.tables.fanout, x.tables.ids, x.tables.crcs, x.tables.offsets, x.packSum, x.sum)
    ensures Fanout.SortedIds(x.tables.ids) && Fanout.IsFanout(x.tables.fanout, x.tables.ids)
  {
    hide Parts, Fanout.SortedIds, Fanout.IsFanout;
  }

  /** The index lists exactly the ids of the items. */
  lemma {:induction false} IndexedIds(lib: Lib, items: seq<Item>, d: Disk, idx: bytes, x: Indexing)
    requires LibOk(lib) && Sizes(items) && d == AddAll(Fresh(), PackAll(lib, items)) && Indexes(d, idx, x)
    ensures |x.order| == |x.tables.ids| == |x.tables.offsets| == |items|
    ensures forall k | 0 <= k < |items| :: |x.tables.ids[k]| == ID_SIZE
    ensures forall i | 0 <= i < |items| :: IdOf(lib, items[i]) in x.tables.ids && |IdOf(lib, items[i])| == ID_SIZE
    ensures forall k | 0 <= k < |items| :: x.order[k] < |items| && x.tables.ids[k] == IdOf(lib, items[x.order[k]])
  {
    hide AddAll, Parts, Fanout.SortedIds, Fanout.IsFanout, OidOf, Fresh;
    NoIdsYet();
    IdsWritten(Fresh(), PackAll(lib, items));
    Tables(lib, items);
    forall i | 0 <= i < |items| ensures d.oids[i] == IdOf(lib, items[i]) { }
    Fanout.InRange(x.order, |d.oids|);
    forall i | 0 <= i < |items| ensures IdOf(lib, items[i]) in x.tables.ids {
      var k := Fanout.Reached(x.order, i);
      assert x.tables.ids[k] == d.oids[i];
    }
  }

  lemma NoIdsYet()
    ensures Fresh().oids == [] && Fresh().crcs == []
  {
  }

  /** Reading at the offset recorded for place k of the index gives the item listed there. */
  lemma {:induction false} ReadsItem(lib: Lib, items: seq<Item>, pack: bytes, idx: bytes, x: Indexing,
                                     lookup: bytes -> Option<nat>, k: nat)
    requires Closed(lib, items, pack, idx, x) && k < |x.order| == |items| && x.order[k] < |items|
      && |x.tables.offsets| == |items|
    ensures ReadAt(lib.z, pack, lookup, x.tables.offsets[k], 0) == Read(items[x.order[k]].obj)
  {
    hide AddAll, PackAll, Parts, ReadAt, Fanout.SortedIds, Fanout.IsFanout, Offset, Front, At, Fanout.Permutation;
    hide LibOk, Sizes, Holds;
    var es, i := Entries(lib, items), x.order[k];
    Written(lib, items);
    assert Lies(AddAll(Fresh(), PackAll(lib, items)), es, i);
    PlainAccess(lib.z, pack, es, lookup, i, 0);
  }
}
