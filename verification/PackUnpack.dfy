/** The one-pass unpacker of src/network/protocol.c, copied in src/bundle/bundle.c: walks the entries in
    order with a cache from offset to object. */
module PackUnpack {
  import opened Bytes
  import opened PackFormat
  import opened ObjectFormat
  import opened PackRead
  import Delta
  import Varint

  datatype Cached = Cached(off: nat, obj: Object)

  /** `Malformed` ends the walk quietly; `Next` goes on at an offset, with the object written, if any. */
  datatype Turn = Malformed | Outside | Next(off: nat, obj: Option<Object>)

  /** The objects written, in order; `outside` says that the walk read outside a buffer. */
  datatype Unpacked = Unpacked(written: seq<Object>, outside: bool)

  // ----- the tolerant parsers -----

  /** The header loop that stops, rather than fails, at the end of the pack or after eleven bytes. */
  method WalkHeader(pack: bytes, off: nat) returns (kind: nat, size: nat, hlen: nat)
    requires off < |pack|
    ensures hlen >= 1 && off + hlen <= |pack| && kind < 8
    ensures ParseHeader(pack[off..]).Some? ==> ParseHeader(pack[off..]) == Some(Header(kind, size, hlen))
  {
    hide Varint.Length, Varint.Value, Pow2, Gathered;
    var c: byte, shift: nat := pack[off], 4;
    kind, size, hlen := c / 0x10 % 8, c % 0x10, 1;
    if c < 0x80 { return; }
    ghost var s: bytes, low: nat, exact: nat, k: nat := pack[off..][1..], size, 0, 0;
    GatherFirst(s, low, c, k, shift);
    while c >= 0x80
      invariant 1 <= hlen <= 10 && off + hlen <= |pack| && hlen == 1 + k && Gathered(s, low, k, c, size, exact, shift)
      decreases 11 - hlen
    {
      Ends(s, low, k, c, size, exact, shift);
      if off + hlen >= |pack| { return; }
      GatherNext(s, low, k, c, size, exact, shift);
      assert s[k] == pack[off + hlen];
      c := pack[off + hlen];
      size := (size + c % 0x80 * Pow2(shift)) % TWO64;
      exact := exact + c % 0x80 * Pow2(7 * k);
      shift := shift + 7;
      hlen := hlen + 1;
      k := k + 1;
      Ends(s, low, k, c, size, exact, shift);
      if hlen > 10 { break; }
    }
    Ends(s, low, k, c, size, exact, shift);
  }

  /** The distance loop that only stops at the end of the pack. */
  method WalkOfs(pack: bytes, cur: nat) returns (ofs: nat, olen: nat)
    requires cur < |pack|
    ensures olen >= 1 && cur + olen <= |pack|
    ensures ParseOfs(pack[cur..]).Some? ==> ParseOfs(pack[cur..]) == Some(Distance(ofs, olen))
  {
    ghost var p := pack[cur..];
    ofs, olen := pack[cur] % 0x80, 1;
    ghost var exact: nat := ofs;
    while pack[cur + olen - 1] >= 0x80
      invariant 1 <= olen <= |p| && ofs == exact % TWO64
      invariant OfsFrom(p, 1, p[0], p[0] % 0x80) == OfsFrom(p, olen, p[olen - 1], exact)
      decreases |p| - olen
    {
      if cur + olen >= |pack| { break; }
      OfsStep(ofs, exact, pack[cur + olen] % 0x80);
      ofs := ((ofs + 1) * 0x80 + pack[cur + olen] % 0x80) % TWO64;
      exact := (exact + 1) * 0x80 + p[olen] % 0x80;
      olen := olen + 1;
    }
  }

  /** The first cached object at an offset. */
  method Lookup(cache: seq<Cached>, off: nat) returns (r: Option<Object>)
    ensures r.None? ==> forall k | 0 <= k < |cache| :: cache[k].off != off
    ensures r.Some? ==> exists k :: 0 <= k < |cache| && cache[k] == Cached(off, r.value)
  {
    var k := 0;
    while k < |cache|
      invariant k <= |cache| && forall j | 0 <= j < k :: cache[j].off != off
    {
      if cache[k].off == off { return Some(cache[k].obj); }
      k := k + 1;
    }
    r := None;
  }

  /** Inflates up to `size` bytes: how much input was used and what came out. A stream that is too long
      stops the walk; one that is too short leaves part of the buffer unset. */
  method Inflate(z: Zlib, pack: bytes, at: nat, size: nat) returns (turn: Turn, used: nat, data: bytes)
    ensures turn.Next? ==> turn.obj.None?
    ensures at + TRAILER_SIZE <= |pack| ==>
      match z.inflate(pack[at..|pack| - TRAILER_SIZE])
      case Some((n, d)) => |d| == size ==> turn.Next? && used == n && data == d
      case None => turn == Malformed
  {
    turn, used, data := Outside, 0, [];
    if at + TRAILER_SIZE > |pack| { return; }
    var r := z.inflate(pack[at..|pack| - TRAILER_SIZE]);
    if r.None? || |r.value.1| > size { return Malformed, 0, []; }
    if |r.value.1| < size { return; }
    turn, used, data := Next(at, None), r.value.0, r.value.1;
  }

  // ----- one turn -----

  /** The cache after i entries of a sound pack. */
  ghost predicate CacheOk(es: seq<Entry>, i: nat, cache: seq<Cached>)
    requires Sound(es) && i <= |es|
  {
    |cache| == i && forall k | 0 <= k < i :: cache[k] == Cached(Offset(es, k), Resolve(es, k).value)
  }

  method PlainTurn(z: Zlib, pack: bytes, off: nat, kind: nat, size: nat, hlen: nat, ghost es: seq<Entry>, ghost i: nat)
    returns (turn: Turn)
    requires off + hlen <= |pack|
    ensures Holds(z, pack, es) && i < |es| && es[i].Plain? && off == Offset(es, i)
         && ParseHeader(pack[off..]) == Some(Header(kind, size, hlen))
      ==> turn == Next(off + Size(es[i]), Some(Object(KindOf(es[i].kind), es[i].data)))
  {
    hide ParseHeader, Front, Offset, EncodeHeader, At, KindOf;
    if Holds(z, pack, es) && i < |es| && es[i].Plain? && off == Offset(es, i) {
      ParsePlain(z, pack, es, i);
      assert EntryOk(z, es[i]);
    }
    var data: bytes, used;
    turn, used, data := Inflate(z, pack, off + hlen, size);
    if !turn.Next? { return; }
    turn := Next(off + hlen + used, Some(Object(KindOf(kind), data)));
  }

  method OfsTurn(z: Zlib, pack: bytes, off: nat, size: nat, hlen: nat, cache: seq<Cached>, ghost es: seq<Entry>,
                 ghost i: nat)
    returns (turn: Turn)
    requires off + hlen <= |pack|
    ensures Holds(z, pack, es) && Sound(es) && i < |es| && es[i].Ofs? && off == Offset(es, i) && CacheOk(es, i, cache)
         && ParseHeader(pack[off..]) == Some(Header(OFS_DELTA, size, hlen))
      ==> turn == Next(off + Size(es[i]), Resolve(es, i))
  {
    hide ParseHeader, ParseOfs, Offset, EncodeHeader, EncodeOfs, At, FindBase, Resolve, Chain, Delta.StrictApply;
    hide Delta.InlineApply, Holds;
    ghost var ok := Holds(z, pack, es) && Sound(es) && i < |es| && es[i].Ofs? && off == Offset(es, i)
      && CacheOk(es, i, cache) && ParseHeader(pack[off..]) == Some(Header(OFS_DELTA, size, hlen));
    if ok {
      ParseOfsEntry(z, pack, es, i);
      BaseOf(es, i);
    }
    var cur := off + hlen;
    if cur >= |pack| { return Malformed; }
    var ofs, olen := WalkOfs(pack, cur);
    cur := cur + olen;
    var delta: bytes, used;
    turn, used, delta := Inflate(z, pack, cur, size);
    if !turn.Next? { return; }
    var base := Lookup(cache, (off - ofs) % TWO64);
    if ok { OnlyBase(z, pack, es, i, cache, base); }
    if base.None? { return Next(cur + used, None); }
    turn := Rebuild(base.value, delta, cur + used);
  }

  /** The object that follows from a base and a delta; a delta that does not fill its target is skipped. */
  method Rebuild(base: Object, delta: bytes, next: nat) returns (turn: Turn)
    ensures Delta.StrictApply(base.data, delta).Done? ==>
      turn == Next(next, Some(Object(base.kind, Delta.StrictApply(base.data, delta).out)))
  {
    hide Delta.StrictApply, Delta.InlineApply, Delta.LenientApply, Delta.Exec;
    Delta.AppliersAgree(base.data, delta);
    var applied := Delta.InlinedDeltaApply(base.data, delta);
    match applied
    case Done(out, _) => turn := Next(next, Some(Object(base.kind, out)));
    case Failed => turn := Next(next, None);
    case OutOfBounds => turn := Outside;
  }

  /** The cache finds the base that the entry means. */
  lemma OnlyBase(z: Zlib, pack: bytes, es: seq<Entry>, i: nat, cache: seq<Cached>, found: Option<Object>)
    requires Holds(z, pack, es) && Sound(es) && i < |es| && es[i].Ofs? && CacheOk(es, i, cache)
    requires var o := (Offset(es, i) - es[i].dist) % TWO64;
      && (found.None? ==> forall k | 0 <= k < |cache| :: cache[k].off != o)
      && (found.Some? ==> exists k :: 0 <= k < |cache| && cache[k] == Cached(o, found.value))
    ensures es[i].dist <= Offset(es, i) && FindBase(es, i, Offset(es, i) - es[i].dist).Some?
    ensures found == Resolve(es, FindBase(es, i, Offset(es, i) - es[i].dist).value)
  {
    hide Offset, FindBase, Resolve, Chain, Front, Size, Delta.StrictApply, At, EntryOk;
    BaseOf(es, i);
    var b := FindBase(es, i, Offset(es, i) - es[i].dist).value;
    InRange(z, pack, es, b);
    assert cache[b] == Cached(Offset(es, b), Resolve(es, b).value);
    var k :| 0 <= k < |cache| && cache[k] == Cached(Offset(es, b), found.value);
    if k < b { OffsetsIncrease(es, k, b); }
    if b < k { OffsetsIncrease(es, b, k); }
  }

  /** The rest of a reference delta: the id of its base and the stream of its delta. */
  ghost predicate RefAt(z: Zlib, pack: bytes, cur: nat, size: nat, id: bytes, delta: bytes, stream: bytes) {
    && |id| == 32 && |delta| == size && Carries(z, stream, delta) && cur + 32 + |stream| + TRAILER_SIZE <= |pack|
    && pack[cur..cur + 32 + |stream|] == id + stream
  }

  /** Without its base in the store nothing is written; otherwise what a delta that applies makes of the base. */
  ghost predicate RefDone(odb: bytes -> Option<Object>, id: bytes, delta: bytes, next: nat, turn: Turn) {
    match odb(id)
    case None => turn == Next(next, None)
    case Some(base) => Delta.StrictApply(base.data, delta).Done? ==>
      turn == Next(next, Some(Object(base.kind, Delta.StrictApply(base.data, delta).out)))
  }

  lemma StreamThere(z: Zlib, pack: bytes, cur: nat, size: nat, id: bytes, delta: bytes, stream: bytes)
    requires RefAt(z, pack, cur, size, id, delta, stream)
    ensures pack[cur..cur + 32] == id
    ensures z.inflate(pack[cur + 32..|pack| - TRAILER_SIZE]) == Some((|stream|, delta))
  {
    var n, at := |pack| - TRAILER_SIZE, cur + 32;
    var both := pack[cur..cur + 32 + |stream|];
    assert pack[cur..cur + 32] == both[..32] == id && pack[at..at + |stream|] == both[32..] == stream;
    assert pack[at..n] == stream + pack[at + |stream|..n];
  }

  /** A reference delta: the base comes from the object store, or is not found. */
  method RefTurn(z: Zlib, pack: bytes, off: nat, size: nat, hlen: nat, odb: bytes -> Option<Object>,
                 ghost id: bytes, ghost delta: bytes, ghost stream: bytes)
    returns (turn: Turn)
    requires off + hlen <= |pack|
    ensures RefAt(z, pack, off + hlen, size, id, delta, stream) ==>
      RefDone(odb, id, delta, off + hlen + 32 + |stream|, turn)
  {
    hide Delta.StrictApply, Carries;
    if RefAt(z, pack, off
      + hlen, size, id, delta, stream) { StreamThere(z, pack, off + hlen, size, id, delta, stream); }
    var cur := off + hlen;
    if cur + 32 > |pack| { return Malformed; }
    var oid := pack[cur..cur + 32];
    cur := cur + 32;
    var payload: bytes, used;
    turn, used, payload := Inflate(z, pack, cur, size);
    if !turn.Next? { return; }
    var base := odb(oid);
    if base.None? { return Next(cur + used, None); }
    turn := Rebuild(base.value, payload, cur + used);
  }

  method EntryTurn(z: Zlib, pack: bytes, off: nat, cache: seq<Cached>, odb: bytes -> Option<Object>,
                   ghost es: seq<Entry>, ghost i: nat, ghost id: bytes, ghost delta: bytes, ghost stream: bytes)
    returns (turn: Turn)
    requires off < |pack|
    ensures Holds(z, pack, es) && Sound(es) && i < |es| && off == Offset(es, i) && CacheOk(es, i, cache)
      ==> turn == Next(Offset(es, i + 1), Resolve(es, i))
    ensures var h := ParseHeader(pack[off..]);
      h.Some? && h.value.kind == REF_DELTA && RefAt(z, pack, off + h.value.length, h.value.size, id, delta, stream)
      ==> RefDone(odb, id, delta, off + h.value.length + 32 + |stream|, turn)
  {
    hide RefAt, RefDone;
    hide ParseHeader, ParseOfs, Front, EncodeHeader, EncodeOfs, At, FindBase, Chain, Delta.StrictApply, CacheOk;
    ghost var ok := Holds(z, pack, es) && Sound(es) && i < |es| && off == Offset(es, i) && CacheOk(es, i, cache);
    var kind, size, hlen := WalkHeader(pack, off);
    if ok {
      assert EntryOk(z, es[i]);
      if es[i].Plain? { ParsePlain(z, pack, es, i); } else { ParseOfsEntry(z, pack, es, i); }
    }
    if kind == OFS_DELTA {
      turn := OfsTurn(z, pack, off, size, hlen, cache, es, i);
    } else if kind == REF_DELTA {
      turn := RefTurn(z, pack, off, size, hlen, odb, id, delta, stream);
    } else {
      turn := PlainTurn(z, pack, off, kind, size, hlen, es, i);
    }
  }

  // ----- the walk -----

  /** What the pack of these entries unpacks to. */
  function Meaning(es: seq<Entry>, n: nat): (os: seq<Object>)
    requires Kinds(es) && n <= |es| && forall i | 0 <= i < n :: Resolve(es, i).Some?
    ensures |os| == n && forall i | 0 <= i < n :: os[i] == Resolve(es, i).value
  {
    seq(n, i requires 0 <= i < n => Resolve(es, i).value)
  }

  /** One pass over the pack writes, for every sound pack, the object of every entry in order: what random
      access by offset gives for each of them. On other packs it writes what it can. */
  method Unpack(z: Zlib, pack: bytes, odb: bytes -> Option<Object>, ghost es: seq<Entry>) returns (r: Result<Unpacked>)
    ensures |pack| < 12 ==> r == Err(EINVAL)
    ensures Holds(z, pack, es) && Sound(es) ==> r == Ok(Unpacked(Meaning(es, |es|), false))
  {
    hide Front, EncodeHeader, EncodeOfs, At, FindBase, Chain, Resolve, Offset, Meaning;
    ghost var ok := Holds(z, pack, es) && Sound(es);
    if ok { FirstOffset(es); }
    if |pack| < 12 { return Err(EINVAL); }
    var off: nat, i: nat := HEADER_SIZE, 0;
    var count := BigEndian32(pack[8..12]);
    var cache: seq<Cached>, written: seq<Object> := [], [];
    if ok { MeaningEmpty(es, i, cache, written); }
    while i < count && off < (|pack| - TRAILER_SIZE) % TWO64
      invariant i <= count
      invariant ok ==> i <= |es| && off == Offset(es, i) && CacheOk(es, i, cache) && written == Meaning(es, i)
      decreases count - i
    {
      if off >= |pack| { break; }
      var turn := EntryTurn(z, pack, off, cache, odb, es, i, [], [], []);
      if turn.Outside? { return Ok(Unpacked(written, true)); }
      if turn.Malformed? { break; }
      if turn.obj.Some? {
        written := written + [turn.obj.value];
        cache := cache + [Cached(off, turn.obj.value)];
      }
      if ok { MeaningGrows(es, i, cache, written); }
      off := turn.off;
      i := i + 1;
    }
    if ok && i < |es| { StopsInside(z, pack, es, i); }
    r := Ok(Unpacked(written, false));
  }

  lemma FirstOffset(es: seq<Entry>)
    requires Kinds(es)
    ensures Offset(es, |es|) >= HEADER_SIZE && Offset(es, 0) == HEADER_SIZE
  {
  }

  lemma MeaningEmpty(es: seq<Entry>, i: nat, cache: seq<Cached>, written: seq<Object>)
    requires Sound(es) && i == 0 && cache == [] && written == []
    ensures Offset(es, i) == HEADER_SIZE && CacheOk(es, i, cache) && written == Meaning(es, i)
  {
  }

  lemma MeaningGrows(es: seq<Entry>, i: nat, cache: seq<Cached>, written: seq<Object>)
    requires Sound(es) && i < |es| && |cache| == |written| == i + 1
    requires cache[i] == Cached(Offset(es, i), Resolve(es, i).value) && written[i] == Resolve(es, i).value
    requires CacheOk(es, i, cache[..i]) && written[..i] == Meaning(es, i)
    ensures CacheOk(es, i + 1, cache) && written == Meaning(es, i + 1)
  {
    hide Resolve, Offset;
    forall k | 0 <= k < i + 1 ensures cache[k] == Cached(Offset(es, k), Resolve(es, k).value)
      && written[k] == Resolve(es, k).value {
      if k < i { assert cache[..i][k] == cache[k] && written[..i][k] == written[k]; }
    }
  }

  /** No entry starts in the trailer. */
  lemma StopsInside(z: Zlib, pack: bytes, es: seq<Entry>, i: nat)
    requires Holds(z, pack, es) && i < |es|
    ensures Offset(es, i) < (|pack| - TRAILER_SIZE) % TWO64 && Offset(es, i) < |pack|
  {
    hide Front, Size, Offset, At, EntryOk;
    OffsetsIncrease(es, i, |es|);
    FirstOffset(es);
    var n := |pack| - TRAILER_SIZE;
    assert n == Offset(es, |es|) && 0 <= n < TWO60;
    assert n % TWO64 == n;
  }
}
