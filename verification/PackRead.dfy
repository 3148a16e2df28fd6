/** Reading packs: what a pack of plain and offset-delta entries means, random access by offset, and the
    one-pass unpackers of src/network/protocol.c and src/bundle/bundle.c. */
module PackRead {
  import opened Bytes
  import opened PackFormat
  import opened ObjectFormat
  import Delta

  /** Type numbers in packs; those outside 1..4 (0 and 5 here) count as blobs. */
  function KindOf(n: nat): Kind {
    if n == 1 then Commit else if n == 2 then Tree else if n == 4 then Tag else Blob
  }

  function PackNumber(k: Kind): (n: nat)
    ensures 1 <= n <= 4 && KindOf(n) == k
  {
    match k
    case Commit => 1
    case Tree => 2
    case Blob => 3
    case Tag => 4
  }

  /** The numbers of the format. */
  lemma PackNumbers()
    ensures PackNumber(Commit) == 1 && PackNumber(Tree) == 2 && PackNumber(Blob) == 3 && PackNumber(Tag) == 4
    ensures KindOf(0) == KindOf(3) == KindOf(5) == Blob
    ensures KindOf(1) == Commit && KindOf(2) == Tree && KindOf(4) == Tag
  {
  }

  /** A pack entry, with the compressed stream that carries its payload. */
  datatype Entry = Plain(kind: nat, data: bytes, stream: bytes) | Ofs(dist: nat, delta: bytes, stream: bytes)

  /** The stream inflates to the payload whatever follows it. */
  ghost predicate Carries(z: Zlib, stream: bytes, payload: bytes) {
    forall rest :: z.inflate(stream + rest) == Some((|stream|, payload))
  }

  ghost predicate EntryOk(z: Zlib, e: Entry) {
    match e
    case Plain(kind, data, stream) => 1 <= kind <= 4 && |data| < TWO64 && Carries(z, stream, data)
    case Ofs(dist, delta, stream) => dist < TWO60 && |delta| < TWO64 && Carries(z, stream, delta)
  }

  function Front(e: Entry): (r: bytes)
    requires e.Plain? ==> e.kind < 8
    ensures |r| >= 1
  {
    match e
    case Plain(kind, data, _) => EncodeHeader(kind, |data|)
    case Ofs(dist, delta, _) => EncodeHeader(OFS_DELTA, |delta|) + EncodeOfs(dist)
  }

  function Size(e: Entry): (n: nat)
    requires e.Plain? ==> e.kind < 8
    ensures n >= 1
  {
    |Front(e)| + |e.stream|
  }

  predicate Kinds(es: seq<Entry>) {
    forall e <- es :: e.Plain? ==> e.kind < 8
  }

  /** Where entry i starts. */
  function Offset(es: seq<Entry>, i: nat): (o: nat)
    requires i <= |es| && Kinds(es)
    ensures o >= HEADER_SIZE
  {
    if i == 0 then HEADER_SIZE else Offset(es, i - 1) + Size(es[i - 1])
  }

  lemma {:induction false} OffsetsIncrease(es: seq<Entry>, i: nat, j: nat)
    requires i <= j <= |es| && Kinds(es)
    ensures Offset(es, i) + (j - i) <= Offset(es, j)
    decreases j
  {
    hide Front, EncodeHeader;
    if i < j {
      OffsetsIncrease(es, i, j - 1);
      var last := es[j - 1];
      assert Offset(es, j) == Offset(es, j - 1) + Size(last);
    }
  }

  /** The pack holds exactly these entries between its header and its trailer. */
  ghost predicate Holds(z: Zlib, pack: bytes, es: seq<Entry>) {
    && Kinds(es) && (forall e <- es :: EntryOk(z, e))
    && |pack| == Offset(es, |es|) + TRAILER_SIZE && |pack| < TWO60
    && BigEndian32(pack[8..12]) == |es|
    && forall i | 0 <= i < |es| :: At(pack, Offset(es, i), es[i])
  }

  ghost predicate At(pack: bytes, o: nat, e: Entry)
    requires e.Plain? ==> e.kind < 8
  {
    o + Size(e) <= |pack| && pack[o..o + Size(e)] == Front(e) + e.stream
  }

  // ----- the meaning of a pack -----

  /** The earlier entry that starts at an offset. */
  function FindBase(es: seq<Entry>, i: nat, o: nat): (b: Option<nat>)
    requires i <= |es| && Kinds(es)
    ensures b.Some? ==> b.value < i
    decreases i
  {
    if i == 0 then None else if Offset(es, i - 1) == o then Some(i - 1) else FindBase(es, i - 1, o)
  }

  /** Following the chain of bases: the object an entry stands for, if its bases and deltas are valid. */
  function Resolve(es: seq<Entry>, i: nat): (r: Option<Object>)
    requires i < |es| && Kinds(es)
    decreases i
  {
    match es[i]
    case Plain(kind, data, _) => Some(Object(KindOf(kind), data))
    case Ofs(dist, delta, _) =>
      if dist > Offset(es, i) then None
      else match FindBase(es, i, Offset(es, i) - dist)
        case None => None
        case Some(b) =>
          match Resolve(es, b)
          case None => None
          case Some(base) =>
            match Delta.StrictApply(base.data, delta)
            case Done(out, _) => Some(Object(base.kind, out))
            case _ => None
  }

  /** How many deltas the chain of entry i has. */
  function Chain(es: seq<Entry>, i: nat): nat
    requires i < |es| && Kinds(es)
    decreases i
  {
    match es[i]
    case Plain(_, _, _) => 0
    case Ofs(dist, _, _) =>
      if dist > Offset(es, i) then 1
      else match FindBase(es, i, Offset(es, i) - dist)
        case None => 1
        case Some(b) => 1 + Chain(es, b)
  }

  ghost predicate Sound(es: seq<Entry>) {
    Kinds(es) && forall i | 0 <= i < |es| :: Resolve(es, i).Some?
  }

  // ----- random access -----

  /** `Undefined` is a read outside the mapping. */
  datatype Outcome = Read(obj: Object) | Failed(error: Error) | Undefined

  const MAX_DEPTH := 32

  /** Inflates into a buffer of exactly the expected size. */
  function InflateSlice(z: Zlib, input: bytes, size: nat): Option<bytes> {
    match z.inflate(input)
    case None => None
    case Some((_, d)) => if |d| == size then Some(d) else None
  }

  function Applied(base: Outcome, delta: bytes): Outcome {
    if !base.Read? then base
    else match Delta.StrictApply(base.obj.data, delta)
      case Done(out, _) => Read(Object(base.obj.kind, out))
      case Failed => Failed(ERROR)
      case OutOfBounds => Undefined
  }

  /** pack_read_object_at. `lookup` is the pack index, which finds the bases of reference deltas. */
  function ReadAt(z: Zlib, pack: bytes, lookup: bytes -> Option<nat>, offset: nat, depth: nat): Outcome
    decreases MAX_DEPTH + 1 - depth
  {
    if depth > MAX_DEPTH then Failed(ERROR)
    else if (offset + 12) % TWO64 > |pack| then Failed(ENOENT)
    else if offset > |pack| then Undefined
    else match ParseHeader(pack[offset..])
      case None => Failed(ERROR)
      case Some(h) =>
        var cur := offset + h.length;
        if h.kind == OFS_DELTA then ReadOfsAt(z, pack, lookup, offset, depth, cur, h.size)
        else if h.kind == REF_DELTA then ReadRefAt(z, pack, lookup, depth, cur, h.size)
        else if cur + TRAILER_SIZE > |pack| then Undefined
        else match InflateSlice(z, pack[cur..|pack| - TRAILER_SIZE], h.size)
          case None => Failed(ERROR)
          case Some(d) => Read(Object(KindOf(h.kind), d))
  }

  function ReadOfsAt(z: Zlib, pack: bytes, lookup: bytes -> Option<nat>, offset: nat, depth: nat, cur: nat,
                     size: nat): Outcome
    requires depth <= MAX_DEPTH && cur <= |pack|
    decreases MAX_DEPTH + 1 - depth, 0
  {
    match ParseOfs(pack[cur..])
    case None => Failed(ERROR)
    case Some(d) =>
      var at := cur + d.length;
      var input := if at + TRAILER_SIZE > |pack| then [] else pack[at..|pack| - TRAILER_SIZE];
      match InflateSlice(z, input, size)
      case None => Failed(ERROR)
      case Some(delta) => Applied(ReadAt(z, pack, lookup, (offset - d.ofs) % TWO64, depth + 1), delta)
  }

  function ReadRefAt(z: Zlib, pack: bytes, lookup: bytes -> Option<nat>, depth: nat, cur: nat, size: nat): Outcome
    requires depth <= MAX_DEPTH && cur <= |pack|
    decreases MAX_DEPTH + 1 - depth, 0
  {
    if cur + 32 > |pack| then Failed(ERROR)
    else
      var at := cur + 32;
      if at + TRAILER_SIZE > |pack| then Undefined
      else match InflateSlice(z, pack[at..|pack| - TRAILER_SIZE], size)
        case None => Failed(ERROR)
        case Some(delta) =>
          match lookup(pack[cur..at])
          case None => Failed(ENOENT)
          case Some(base) => Applied(ReadAt(z, pack, lookup, base, depth + 1), delta)
  }

  /** The recursion of the source, over its parsing loops. */
  method ReadObjectAt(z: Zlib, pack: bytes, lookup: bytes -> Option<nat>, offset: nat, depth: nat) returns (r: Outcome)
    ensures r == ReadAt(z, pack, lookup, offset, depth)
    decreases MAX_DEPTH + 1 - depth
  {
    hide ParseHeader, ParseOfs, Delta.StrictApply;
    if depth > MAX_DEPTH { return Failed(ERROR); }
    if (offset + 12) % TWO64 > |pack| { return Failed(ENOENT); }
    if offset > |pack| { return Undefined; }
    var header := ReadHeader(pack[offset..]);
    if header.None? { return Failed(ERROR); }
    HeaderFits(pack, offset);
    var h, cur := header.value, offset + header.value.length;
    if h.kind == OFS_DELTA {
      var dist := ReadOfs(pack[cur..]);
      if dist.None? { return Failed(ERROR); }
      DistanceFits(pack, cur);
      var at := cur + dist.value.length;
      var back := dist.value.ofs;
      var delta := InflateSlice(z, if at + TRAILER_SIZE > |pack| then [] else pack[at..|pack| - TRAILER_SIZE], h.size);
      if delta.None? { return Failed(ERROR); }
      var base := ReadObjectAt(z, pack, lookup, (offset - back) % TWO64, depth + 1);
      r := ApplyTo(base, delta.value);
    } else if h.kind == REF_DELTA {
      if cur + 32 > |pack| { return Failed(ERROR); }
      var at := cur + 32;
      if at + TRAILER_SIZE > |pack| { return Undefined; }
      var delta := InflateSlice(z, pack[at..|pack| - TRAILER_SIZE], h.size);
      if delta.None? { return Failed(ERROR); }
      var o := lookup(pack[cur..at]);
      if o.None? { return Failed(ENOENT); }
      var base := ReadObjectAt(z, pack, lookup, o.value, depth + 1);
      r := ApplyTo(base, delta.value);
    } else {
      if cur + TRAILER_SIZE > |pack| { return Undefined; }
      var data := InflateSlice(z, pack[cur..|pack| - TRAILER_SIZE], h.size);
      if data.None? { return Failed(ERROR); }
      r := Read(Object(KindOf(h.kind), data.value));
    }
  }

  lemma HeaderFits(pack: bytes, offset: nat)
    requires offset <= |pack| && ParseHeader(pack[offset..]).Some?
    ensures offset + ParseHeader(pack[offset..]).value.length <= |pack|
  {
  }

  lemma DistanceFits(pack: bytes, cur: nat)
    requires cur <= |pack| && ParseOfs(pack[cur..]).Some?
    ensures cur + ParseOfs(pack[cur..]).value.length <= |pack|
  {
  }

  method ApplyTo(base: Outcome, delta: bytes) returns (r: Outcome)
    ensures r == Applied(base, delta)
  {
    if !base.Read? { return base; }
    var applied := Delta.GitDeltaApply(base.obj.data, delta);
    match applied
    case Done(out, _) => r := Read(Object(base.obj.kind, out));
    case Failed => r := Failed(ERROR);
    case OutOfBounds => r := Undefined;
  }

  // ----- random access finds the meaning -----

  /** The pack from the start of entry i on. */
  lemma {:induction false} EntryBytes(z: Zlib, pack: bytes, es: seq<Entry>, i: nat)
    requires Holds(z, pack, es) && i < |es|
    ensures Offset(es, i) + Size(es[i]) + TRAILER_SIZE <= |pack|
    ensures pack[Offset(es, i)..] == Front(es[i]) + (es[i].stream + pack[Offset(es, i) + Size(es[i])..])
  {
    hide Front, Offset;
    var o, e := Offset(es, i), es[i];
    Tail(es, i);
    assert At(pack, o, e);
    assert pack[o..] == pack[o..o + Size(e)] + pack[o + Size(e)..];
  }

  lemma Tail(es: seq<Entry>, i: nat)
    requires Kinds(es) && i < |es|
    ensures Offset(es, i) + Size(es[i]) <= Offset(es, |es|)
  {
    OffsetsIncrease(es, i + 1, |es|);
  }

  /** What the parsers read at the start of entry i, and what is left to inflate. */
  lemma {:induction false} ParsePlain(z: Zlib, pack: bytes, es: seq<Entry>, i: nat)
    requires Holds(z, pack, es) && i < |es| && es[i].Plain?
    ensures var o, e := Offset(es, i), es[i];
      && ParseHeader(pack[o..]) == Some(Header(e.kind, |e.data|, |Front(e)|))
      && o + |Front(e)| + TRAILER_SIZE <= |pack|
      && z.inflate(pack[o + |Front(e)|..|pack| - TRAILER_SIZE]) == Some((|e.stream|, e.data))
  {
    hide EncodeHeader, ParseHeader, Offset;
    var o, e := Offset(es, i), es[i];
    EntryBytes(z, pack, es, i);
    assert EntryOk(z, e);
    HeaderRoundTrip(e.kind, |e.data|, e.stream + pack[o + Size(e)..]);
    StreamAt(pack, o + |Front(e)|, e.stream, pack[o + Size(e)..], Front(e), o);
  }

  /** Dropping the front and the trailer leaves the stream and something after it. */
  lemma {:induction false} StreamAt(pack: bytes, at: nat, stream: bytes, rest: bytes, front: bytes, o: nat)
    requires at == o + |front| && at + |stream| + TRAILER_SIZE <= |pack|
    requires pack[o..] == front + (stream + rest)
    ensures pack[at..] == stream + rest
    ensures pack[at..|pack| - TRAILER_SIZE] == stream + pack[at + |stream|..|pack| - TRAILER_SIZE]
  {
    var n := |pack| - TRAILER_SIZE;
    assert pack[at..] == pack[o..][|front|..];
    assert pack[at..][..|stream|] == stream;
    assert pack[at..n] == pack[at..at + |stream|] + pack[at + |stream|..n];
  }

  lemma {:induction false} ParseOfsEntry(z: Zlib, pack: bytes, es: seq<Entry>, i: nat)
    requires Holds(z, pack, es) && i < |es| && es[i].Ofs?
    ensures var o, e := Offset(es, i), es[i];
      var h, d := EncodeHeader(OFS_DELTA, |e.delta|), EncodeOfs(e.dist);
      && ParseHeader(pack[o..]) == Some(Header(OFS_DELTA, |e.delta|, |h|))
      && o + |h| + |d| + TRAILER_SIZE <= |pack|
      && ParseOfs(pack[o + |h|..]) == Some(Distance(e.dist, |d|))
      && z.inflate(pack[o + |h| + |d|..|pack| - TRAILER_SIZE]) == Some((|e.stream|, e.delta))
  {
    hide EncodeHeader, ParseHeader, EncodeOfs, ParseOfs, Offset;
    var o, e := Offset(es, i), es[i];
    var h, d := EncodeHeader(OFS_DELTA, |e.delta|), EncodeOfs(e.dist);
    var rest := pack[o + Size(e)..];
    EntryBytes(z, pack, es, i);
    assert EntryOk(z, e);
    assert pack[o..] == h + (d + (e.stream + rest));
    HeaderRoundTrip(OFS_DELTA, |e.delta|, d + (e.stream + rest));
    assert pack[o + |h|..] == pack[o..][|h|..] == d + (e.stream + rest);
    OfsFits(e.dist);
    OfsRoundTrip(e.dist, e.stream + rest);
    StreamAt(pack, o + |h| + |d|, e.stream, rest, Front(e), o);
  }

  /** An offset inside the file passes the first check. */
  lemma OffsetOk(z: Zlib, pack: bytes, es: seq<Entry>, i: nat)
    requires Holds(z, pack, es) && i < |es|
    ensures (Offset(es, i) + 12) % TWO64 <= |pack| && Offset(es, i) <= |pack|
  {
    hide Offset, Front, Size, EntryOk, At;
    Tail(es, i);
    var o := Offset(es, i);
    assert o <= |pack| < TWO60;
    SmallOffset(o);
  }

  lemma SmallOffset(o: nat)
    requires o < TWO60
    ensures (o + 12) % TWO64 == o + 12
  {
  }

  /** One unfolding of the reader at a plain entry. */
  lemma ReadPlain(z: Zlib, pack: bytes, lookup: bytes -> Option<nat>, offset: nat, depth: nat, kind: nat, n: nat,
                  used: nat, data: bytes)
    requires depth <= MAX_DEPTH && (offset + 12) % TWO64 <= |pack| && offset <= |pack| && kind < 6
    requires ParseHeader(pack[offset..]) == Some(Header(kind, |data|, n)) && offset + n + TRAILER_SIZE <= |pack|
    requires z.inflate(pack[offset + n..|pack| - TRAILER_SIZE]) == Some((used, data))
    ensures ReadAt(z, pack, lookup, offset, depth) == Read(Object(KindOf(kind), data))
    ensures kind == 0 || kind == 5 ==> ReadAt(z, pack, lookup, offset, depth) == Read(Object(Blob, data))
  {
    hide ParseHeader, ParseOfs;
  }

  /** One unfolding of the reader at an offset delta. */
  lemma ReadDelta(z: Zlib, pack: bytes, lookup: bytes -> Option<nat>, offset: nat, depth: nat, n: nat, d: Distance,
                  used: nat, delta: bytes)
    requires depth <= MAX_DEPTH && (offset + 12) % TWO64 <= |pack| && offset <= |pack|
    requires ParseHeader(pack[offset..]) == Some(Header(OFS_DELTA, |delta|, n))
    requires offset + n + d.length + TRAILER_SIZE <= |pack| && ParseOfs(pack[offset + n..]) == Some(d)
    requires z.inflate(pack[offset + n + d.length..|pack| - TRAILER_SIZE]) == Some((used, delta))
    ensures ReadAt(z, pack, lookup, offset, depth)
         == Applied(ReadAt(z, pack, lookup, (offset - d.ofs) % TWO64, depth + 1), delta)
  {
    hide ParseHeader, ParseOfs, Applied;
    assert ReadAt(z, pack, lookup, offset, depth)
        == ReadOfsAt(z, pack, lookup, offset, depth, offset + n, |delta|);
  }

  /** Random access: reading at the start of an entry of a sound pack gives the object the entry stands
      for, exactly when the chain is not longer than the depth allows. */
  lemma {:induction false} RandomAccess(z: Zlib, pack: bytes, es: seq<Entry>, lookup: bytes -> Option<nat>, i: nat,
                                        depth: nat)
    requires Holds(z, pack, es) && Sound(es) && i < |es|
    ensures ReadAt(z, pack, lookup, Offset(es, i), depth)
         == if depth + Chain(es, i) <= 32 then Read(Resolve(es, i).value) else Failed(ERROR)
    decreases i
  {
    hide ParseHeader, ParseOfs, Delta.StrictApply, Offset, FindBase, Front, Size, At, ReadAt, Carries, EncodeHeader;
    hide EncodeOfs, InflateSlice;
    if depth > MAX_DEPTH {
      TooDeep(z, pack, lookup, Offset(es, i), depth);
    } else {
      var o, e := Offset(es, i), es[i];
      OffsetOk(z, pack, es, i);
      match e
      case Plain(kind, data, stream) =>
        PlainAccess(z, pack, es, lookup, i, depth);
      case Ofs(dist, delta, stream) =>
        ParseOfsEntry(z, pack, es, i);
        BaseOf(es, i);
        var b := FindBase(es, i, o - dist).value;
        var h, d := EncodeHeader(OFS_DELTA, |delta|), EncodeOfs(dist);
        ReadDelta(z, pack, lookup, o, depth, |h|, Distance(dist, |d|), |stream|, delta);
        InRange(z, pack, es, b);
        RandomAccess(z, pack, es, lookup, b, depth + 1);
    }
  }

  lemma PlainAccess(z: Zlib, pack: bytes, es: seq<Entry>, lookup: bytes -> Option<nat>, i: nat, depth: nat)
    requires Holds(z, pack, es) && i < |es| && es[i].Plain? && depth <= MAX_DEPTH
    ensures ReadAt(z, pack, lookup, Offset(es, i), depth) == Read(Object(KindOf(es[i].kind), es[i].data))
      && Chain(es, i) == 0
  {
    hide ParseHeader, Offset, Front, Size, At, ReadAt, Carries, EncodeHeader, InflateSlice;
    var o, e := Offset(es, i), es[i];
    OffsetOk(z, pack, es, i);
    ParsePlain(z, pack, es, i);
    assert EntryOk(z, e);
    ReadPlain(z, pack, lookup, o, depth, e.kind, |Front(e)|, |e.stream|, e.data);
  }

  /** Reading at a reference delta: the object its delta makes of the object found under the base's id. */
  lemma {:induction false} RefAccess(z: Zlib, pack: bytes, lookup: bytes -> Option<nat>, o: nat, depth: nat,
                                     id: bytes, delta: bytes, stream: bytes, rest: bytes)
    requires depth <= MAX_DEPTH && o <= |pack| < TWO60 && |id| == ID_SIZE && |delta| < TWO64
    requires Carries(z, stream, delta) && |rest| >= TRAILER_SIZE
    requires pack[o..] == EncodeHeader(REF_DELTA, |delta|) + (id + (stream + rest))
    ensures lookup(id).None? ==> ReadAt(z, pack, lookup, o, depth) == Failed(ENOENT)
    ensures lookup(id).Some? ==>
      var r, base := ReadAt(z, pack, lookup, o, depth), ReadAt(z, pack, lookup, lookup(id).value, depth + 1);
      if !base.Read? then r == base
      else match Delta.StrictApply(base.obj.data, delta)
        case Done(out, _) => r == Read(Object(base.obj.kind, out))
        case Failed => r == Failed(ERROR)
        case OutOfBounds => r == Undefined
  {
    hide ParseHeader, ParseOfs, Delta.StrictApply, EncodeHeader, ReadAt;
    var h := EncodeHeader(REF_DELTA, |delta|);
    HeaderRoundTrip(REF_DELTA, |delta|, id + (stream + rest));
    var cur := o + |h|;
    assert pack[cur..] == pack[o..][|h|..] == id + (stream + rest);
    assert pack[cur..cur + 32] == pack[cur..][..32] == id;
    assert pack[o..] == (h + id) + (stream + rest);
    StreamAt(pack, cur + 32, stream, rest, h + id, o);
    ReadRef(z, pack, lookup, o, depth, |h|, id, |stream|, delta);
  }

  /** One unfolding of the reader at a reference delta. */
  lemma ReadRef(z: Zlib, pack: bytes, lookup: bytes -> Option<nat>, offset: nat, depth: nat, n: nat, id: bytes,
                used: nat, delta: bytes)
    requires depth <= MAX_DEPTH && (offset + 12) % TWO64 <= |pack| && offset <= |pack| && |id| == 32
    requires ParseHeader(pack[offset..]) == Some(Header(REF_DELTA, |delta|, n))
    requires offset + n + 32 + TRAILER_SIZE <= |pack| && pack[offset + n..offset + n + 32] == id
    requires z.inflate(pack[offset + n + 32..|pack| - TRAILER_SIZE]) == Some((used, delta))
    ensures ReadAt(z, pack, lookup, offset, depth) ==
      match lookup(id)
      case None => Failed(ENOENT)
      case Some(b) => Applied(ReadAt(z, pack, lookup, b, depth + 1), delta)
  {
    hide ParseHeader, ParseOfs, Applied;
    assert ReadAt(z, pack, lookup, offset, depth) == ReadRefAt(z, pack, lookup, depth, offset + n, |delta|);
  }

  /** The error codes: past the end there is no object; too deep a chain, a broken header and a payload of
      another size than announced are errors. */
  lemma {:induction false} ReadErrors(z: Zlib, pack: bytes, lookup: bytes -> Option<nat>, o: nat, depth: nat)
    requires |pack| < TWO60 && o < TWO60
    ensures depth > 32 ==> ReadAt(z, pack, lookup, o, depth) == Failed(ERROR)
    ensures depth <= 32 && o + 12 > |pack| ==> ReadAt(z, pack, lookup, o, depth) == Failed(ENOENT)
    ensures depth <= MAX_DEPTH && o + 12 <= |pack| && ParseHeader(pack[o..]).None? ==>
      ReadAt(z, pack, lookup, o, depth) == Failed(ERROR)
    ensures forall h, data, used | depth <= MAX_DEPTH && o + 12 <= |pack| && ParseHeader(pack[o..]) == Some(h)
      && 1 <= h.kind <= 4 && o + h.length + TRAILER_SIZE <= |pack| && |data| != h.size
      && z.inflate(pack[o + h.length..|pack| - TRAILER_SIZE]) == Some((used, data)) ::
      ReadAt(z, pack, lookup, o, depth) == Failed(ERROR)
  {
    hide ParseHeader, ParseOfs;
    SmallOffset(o);
  }

  lemma TooDeep(z: Zlib, pack: bytes, lookup: bytes -> Option<nat>, offset: nat, depth: nat)
    requires depth > MAX_DEPTH
    ensures ReadAt(z, pack, lookup, offset, depth) == Failed(ERROR)
  {
  }

  lemma InRange(z: Zlib, pack: bytes, es: seq<Entry>, i: nat)
    requires Holds(z, pack, es) && i < |es|
    ensures Offset(es, i) % TWO64 == Offset(es, i)
  {
    hide Offset, Front, Size, EntryOk, At;
    Tail(es, i);
    var o := Offset(es, i);
    assert o < TWO60;
  }

  lemma {:induction false} FindsEarlier(es: seq<Entry>, i: nat, o: nat)
    requires i <= |es| && Kinds(es)
    ensures FindBase(es, i, o).Some? ==> FindBase(es, i, o).value < i && Offset(es, FindBase(es, i, o).value) == o
    decreases i
  {
    hide Offset;
    if i > 0 { FindsEarlier(es, i - 1, o); }
  }

  /** In a sound pack the base of an offset delta is an earlier entry, resolved, and its delta applies. */
  lemma BaseOf(es: seq<Entry>, i: nat)
    requires Sound(es) && i < |es| && es[i].Ofs?
    ensures es[i].dist <= Offset(es, i) && FindBase(es, i, Offset(es, i) - es[i].dist).Some?
    ensures var b := FindBase(es, i, Offset(es, i) - es[i].dist).value;
      && b < i && Offset(es, b) == Offset(es, i) - es[i].dist && Chain(es, i) == 1 + Chain(es, b)
      && Resolve(es, b).Some? && Delta.StrictApply(Resolve(es, b).value.data, es[i].delta).Done?
      && Resolve(es, i) == Some(Object(Resolve(es, b).value.kind,
                                       Delta.StrictApply(Resolve(es, b).value.data, es[i].delta).out))
  {
    hide Delta.StrictApply, FindBase, Offset;
    assert Resolve(es, i).Some?;
    var o := Offset(es, i) - es[i].dist;
    if o >= 0 { FindsEarlier(es, i, o); }
  }
}
