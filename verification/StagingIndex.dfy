/** The in-memory staging index of src/index/index.c: an entry buffer and the hash table over it. */
module StagingIndex {
  import opened Bytes
  import opened ProbeTable
  import opened Entries

  function Homes(hash: Key -> nat, es: seq<Entry>, cap: nat): (hs: seq<nat>)
    requires cap > 0
    ensures |hs| == |es| && forall i | 0 <= i < |es| :: hs[i] == hash(KeyOf(es[i])) % cap
  {
    seq(|es|, i requires 0 <= i < |es| => hash(KeyOf(es[i])) % cap)
  }

  /** What a linear scan for (path, stage) returns. */
  function Scan(es: seq<Entry>, key: Key): (r: Option<nat>)
    ensures r.Some? ==> r.value < |es| && KeyOf(es[r.value]) == key
    ensures r.None? ==> forall i | 0 <= i < |es| :: KeyOf(es[i]) != key
  {
    if es == [] then None
    else if KeyOf(es[0]) == key then Some(0)
    else
      var r := Scan(es[1..], key);
      assert r.None? ==> forall i | 0 <= i < |es[1..]| :: es[i + 1] == es[1..][i];
      if r.None? then None else Some(r.value + 1)
  }

  const UNUSED := Entry([], [], 0, 0, Stat(0, 0, 0, 0, 0, 0, 0, 0), 0, 0, 0)

  function FlagsFor(path: bytes): u16 {
    |path| % 0x1000
  }

  /** The entry a new path gets, and what an existing one becomes, when content is added under it. */
  function FreshEntry(blobOid: bytes -> bytes, path: bytes, mode: u32, data: bytes): Entry {
    Entry(blobOid(data), path, mode, 0, Stat(0, 0, 0, 0, 0, 0, 0, 0), |data| % TWO32, FlagsFor(path), 0)
  }

  function Updated(blobOid: bytes -> bytes, e: Entry, mode: u32, data: bytes): Entry {
    e.(oid := blobOid(data), mode := mode, size := |data| % TWO32, flags := FlagsFor(e.path))
  }

  class Index {
    /** The path hash and the object hash are parameters: every statement holds for any functions. */
    const hash: Key -> nat
    const blobOid: bytes -> bytes

    var entries: seq<Entry>  // the allocated buffer; the first `count` elements are in use
    var count: nat
    var sorted: bool
    var dirty: bool
    var ht: array<Slot>
    ghost var dist: map<nat, nat>

    ghost function InUse(): seq<Entry>
      requires count <= |entries|
      reads this
    {
      entries[..count]
    }

    ghost function Abs(): map<Key, Entry>
      requires count <= |entries|
      reads this
    {
      Model(InUse())
    }

    /** The table describes the entries of `dist`, which are all in the buffer. */
    ghost predicate TableOk()
      reads this, ht
    {
      && count <= |entries| && 2 * count + 62 <= ht.Length && FIRST_CAPACITY <= ht.Length && IsPow2(ht.Length)
      && Structure(ht[..], Homes(hash, entries, ht.Length), dist)
    }

    /** Table and entries in use are in bijection, the keys are distinct, and `sorted` is honest. */
    ghost predicate Valid()
      reads this, ht
    {
      && TableOk() && dist.Keys == Upto(count)
      && Distinct(InUse()) && (sorted ==> Sorted(InUse()))
    }

    constructor (hash: Key -> nat, blobOid: bytes -> bytes)
      ensures Valid() && fresh(ht) && count == 0 && ht.Length == FIRST_CAPACITY
      ensures this.hash == hash && this.blobOid == blobOid && Abs() == map[] && sorted && !dirty
    {
      FirstIsPow2();
      this.hash, this.blobOid := hash, blobOid;
      entries := seq(FIRST_CAPACITY, _ => UNUSED);
      count, sorted, dirty := 0, true, false;
      ht := new Slot[FIRST_CAPACITY](_ => Empty);
      dist := map[];
    }

    // ----- the probe loops -----

    /** A new table of the smallest power of two, from 1024 on, that is enough. */
    method HtInit(need: nat)
      modifies this`ht, this`dist
      ensures fresh(ht) && ht.Length == Capacity(need) && IsPow2(ht.Length)
      ensures (forall p | 0 <= p < ht.Length :: ht[p] == Empty) && dist == map[]
    {
      CapacityIsLeast(need);
      var p2 := FIRST_CAPACITY;
      while p2 < need
        invariant p2 >= FIRST_CAPACITY && Capacity(need) == Doubled(p2, need)
        decreases need - p2
      {
        p2 := p2 * 2;
      }
      ht := new Slot[p2](_ => Empty);
      dist := map[];
    }

    /** The first slot from home that is not live, found because there are more slots than entries. */
    method FreeSlot(home: nat) returns (pos: nat, ghost d: nat)
      requires TableOk() && home < ht.Length && |dist.Keys| < ht.Length
      ensures d < ht.Length && pos == Wrap(home, d, ht.Length)
      ensures !ht[pos].Live? && NoEmptyBefore(ht[..], home, d)
    {
      hide Structure, Homes, IsPow2, And;
      SomeSlotFree(ht[..], Homes(hash, entries, ht.Length), dist);
      ghost var free :| 0 <= free < ht.Length && !ht[..][free].Live?;
      StepsTo(home, free, ht.Length);
      ghost var steps :| 0 <= steps < ht.Length && Wrap(home, steps, ht.Length) == free;
      pos, d := home, 0;
      while ht[pos].Live?
        invariant d <= steps && pos == Wrap(home, d, ht.Length)
        invariant forall e | 0 <= e < d :: ht[Wrap(home, e, ht.Length)].Live?
        decreases steps - d
      {
        NextIsWrap(home, d, ht.Length);
        pos := Masked(pos + 1, ht.Length);
        d := d + 1;
      }
    }

    /** Puts entry i into its free slot. */
    method Settle(i: nat)
      requires TableOk() && i < |entries| && i !in dist && |dist.Keys| < ht.Length
      modifies ht, this`dist
      ensures TableOk() && dist.Keys == old(dist.Keys) + {i}
    {
      hide IsPow2;
      ghost var homes := Homes(hash, entries, ht.Length);
      var home := Masked(hash(KeyOf(entries[i])), ht.Length);
      var pos, d := FreeSlot(home);
      Fill(ht[..], homes, dist, i, d);
      ghost var filled := ht[..][pos := Live(i)];
      ht[pos] := Live(i);
      assert ht[..] == filled;
      dist := dist[i := d];
    }

    /** Builds the table anew from the entries in use. */
    method HtRebuild()
      requires count <= |entries|
      modifies this`ht, this`dist
      ensures fresh(ht) && TableOk() && dist.Keys == Upto(count) && 2 * count + 64 <= ht.Length
      ensures ht.Length == Capacity(if count == 0 then FIRST_CAPACITY else 2 * count + 64)
    {
      hide Structure, Upto, IsPow2, Capacity, Homes;
      FirstFits();
      UptoGrows(0);
      var need := if count == 0 then FIRST_CAPACITY else count * 2 + 64;
      HtInit(need);
      NothingIn(ht[..], Homes(hash, entries, ht.Length), dist);
      ghost var made := ht;
      var i := 0;
      while i < count
        invariant i <= count && ht == made && TableOk() && dist.Keys == Upto(i)
      {
        UptoGrows(i);
        Settle(i);
        i := i + 1;
      }
    }

    method HtFind(key: Key) returns (r: Option<nat>)
      requires TableOk()
      ensures r == Search(ht[..], Keys(entries), hash(key) % ht.Length, 0, key)
    {
      hide IsPow2, Structure, Homes;
      InBuffer(ht[..], Homes(hash, entries, ht.Length), dist);
      var home := Masked(hash(key), ht.Length);
      var pos, probe := home, 0;
      while probe < ht.Length
        invariant probe <= ht.Length && (probe < ht.Length ==> pos == Wrap(home, probe, ht.Length))
        invariant Search(ht[..], Keys(entries), home, 0, key) == Search(ht[..], Keys(entries), home, probe, key)
      {
        if ht[pos].Empty? { return None; }
        if ht[pos].Live? && KeyOf(entries[ht[pos].i]) == key { return Some(ht[pos].i); }
        NextIsWrap(home, probe, ht.Length);
        pos := Masked(pos + 1, ht.Length);
        probe := probe + 1;
      }
      r := None;
    }

    /** Leaves a tombstone where probing finds the key. */
    method HtRemove(key: Key, ghost v: nat)
      requires TableOk() && Only(Keys(entries), dist, v, key)
      modifies ht, this`dist
      ensures TableOk() && dist == old(dist) - {v}
    {
      hide IsPow2, Structure, And;
      var home := Masked(hash(key), ht.Length);
      ghost var homes := Homes(hash, entries, ht.Length);
      assert homes[v] == home;
      var pos, probe := home, 0;
      Along(ht[..], homes, dist, v, 0);
      while probe < ht.Length
        invariant ht[..] == old(ht[..]) && dist == old(dist)
        invariant probe <= dist[v] && pos == Wrap(home, probe, ht.Length)
      {
        Along(ht[..], homes, dist, v, probe);
        if ht[pos].Empty? { return; }
        if ht[pos].Live? && KeyOf(entries[ht[pos].i]) == key {
          Bury(ht[..], homes, dist, v);
          ghost var buried := ht[..][pos := Tomb];
          ht[pos] := Tomb;
          assert ht[..] == buried;
          dist := dist - {v};
          return;
        }
        NextIsWrap(home, probe, ht.Length);
        pos := Masked(pos + 1, ht.Length);
        probe := probe + 1;
      }
    }

    /** Puts the key of entry i into the table. A table that is half full is rebuilt from the entries in
        use first; if i is one of them, it then gets a second slot. */
    method HtInsert(i: nat)
      requires TableOk() && i < |entries| && i !in dist && dist.Keys <= Upto(count)
      modifies this`ht, ht, this`dist
      ensures ht == old(ht) || fresh(ht)
      ensures 2 * count + 64 <= old(ht.Length) ==> ht == old(ht)
      ensures 2 * count + 64 > old(ht.Length) ==> ht.Length == Capacity(2 * count + 64)
      ensures 2 * count + 64 <= ht.Length
      ensures 2 * count + 64 <= old(ht.Length) ==> TableOk() && dist.Keys == old(dist.Keys) + {i}
      ensures 2 * count + 64 > old(ht.Length) && i >= count ==> TableOk() && dist.Keys == Upto(count) + {i}
      ensures 2 * count + 64 > old(ht.Length) && i < count ==>
        HasTwo(i) && forall j | 0 <= j < count :: Live(j) in ht[..]
    {
      hide Structure, Homes, IsPow2, Doubled;
      if count * 2 + 64 > ht.Length {
        HtRebuild();
        if count * 2 + 64 > ht.Length {
          assert false;  // the inner regrow branch of the source is never taken
        }
        if i < count {
          SecondSlot(i);
          return;
        }
      }
      Small(dist.Keys, count);
      Settle(i);
    }

    /** Entry i is in two slots. */
    ghost predicate HasTwo(i: nat)
      reads this, ht
    {
      exists p, q :: 0 <= p < q < ht.Length && ht[p] == ht[q] == Live(i)
    }

    /** What the insertion does to an entry that already has a slot. */
    method SecondSlot(i: nat)
      requires TableOk() && i < count && dist.Keys == Upto(count) && count < ht.Length
      modifies ht
      ensures HasTwo(i) && forall j | 0 <= j < count :: Live(j) in ht[..]
    {
      hide IsPow2;
      ghost var homes := Homes(hash, entries, ht.Length);
      ghost var before := ht[..];
      var home := Masked(hash(KeyOf(entries[i])), ht.Length);
      var pos, d := FreeSlot(home);
      ht[pos] := Live(i);
      ghost var first := Wrap(homes[i], dist[i], |before|);
      assert before[first] == Live(i) && first != pos && ht[first] == ht[pos] == Live(i);
      forall j | 0 <= j < count ensures Live(j) in ht[..] {
        var p := Wrap(homes[j], dist[j], |before|);
        assert before[p] == Live(j) && ht[..][p] == Live(j);
      }
    }

    // ----- probing is scanning -----

    /** In a valid index the hash lookup and the linear scan give the same answer. */
    lemma LookupIsScan(key: Key)
      requires Valid()
      ensures Search(ht[..], Keys(entries), hash(key) % ht.Length, 0, key) == Scan(InUse(), key)
    {
      var homes := Homes(hash, entries, ht.Length);
      var r := Scan(InUse(), key);
      match r
      case Some(v) =>
        OnlyOne(key, v);
        SearchHits(ht[..], homes, Keys(entries), dist, v, 0);
      case None =>
        forall w <- dist ensures w < |entries| && Keys(entries)[w] != key {
          assert InUse()[w] == entries[w];
        }
        SearchMisses(ht[..], homes, Keys(entries), dist, hash(key) % ht.Length, 0, key);
    }

    lemma OnlyOne(key: Key, v: nat)
      requires Valid() && v < count && KeyOf(entries[v]) == key
      ensures Only(Keys(entries), dist, v, key)
    {
      forall w <- dist ensures w < |entries| && (Keys(entries)[w] == key ==> w == v) {
        assert InUse()[w] == entries[w] && InUse()[v] == entries[v];
      }
    }

    /** A lookup as the map sees it. */
    lemma ScanIsModel(key: Key)
      requires Valid()
      ensures match Scan(InUse(), key)
              case Some(v) => key in Abs() && Abs()[key] == entries[v]
              case None => key !in Abs()
    {
      ModelHolds(InUse());
      if Scan(InUse(), key).Some? { assert InUse()[Scan(InUse(), key).value] == entries[Scan(InUse(), key).value]; }
    }

    // ----- the operations -----

    /** The capacity after an operation that adds an entry, or does not. */
    static function Enlarged(cap: nat, count: nat, adds: bool): nat {
      if adds && 2 * count + 64 > cap then Capacity(2 * count + 64) else cap
    }

    /** An entry for this content under this path. */
    ghost predicate Holds(e: Entry, path: bytes, mode: u32, data: bytes) {
      && e.path == path && e.stage == 0 && e.oid == blobOid(data) && e.mode == mode
      && e.size == |data| % TWO32 && e.flags == |path| % 0x1000
    }

    /** Adding a path replaces its stage-0 entry or appends one: in the map, one update. */
    method AddFromBuffer(path: bytes, mode: u32, data: bytes)
      requires Valid()
      modifies this, ht
      ensures Valid() && (ht == old(ht) || fresh(ht))
      ensures 2 * old(count) + 64 <= old(ht.Length) ==> ht == old(ht)
      ensures var key := Key(path, 0); ht.Length == Enlarged(old(ht.Length), old(count), key !in old(Abs()))
      ensures sorted == (old(sorted) && Key(path, 0) in old(Abs())) && dirty
      ensures var key := Key(path, 0);
        if key in old(Abs())
        then count == old(count) && Abs() == old(Abs())[key := Updated(blobOid, old(Abs())[key], mode, data)]
        else count == old(count) + 1 && Abs() == old(Abs())[key := FreshEntry(blobOid, path, mode, data)]
      ensures var key := Key(path, 0); key in Abs() && Holds(Abs()[key], path, mode, data)
      ensures var key, old' := Key(path, 0), old(Abs());
        if key in old' then Abs()[key].stat == old'[key].stat && Abs()[key].flagsExtended == old'[key].flagsExtended
        else Abs()[key].stat == Stat(0, 0, 0, 0, 0, 0, 0, 0) && Abs()[key].flagsExtended == 0
    {
      hide Structure, Distinct, Sorted, Model, Search, Scan, Updated, FreshEntry;
      if Key(path, 0) in Abs() { Keyed(InUse(), Key(path, 0)); }
      AddedEntry(Abs(), path, mode, data);
      if count >= |entries| { Grow(); }
      var key := Key(path, 0);
      var found := HtFind(key);
      LookupIsScan(key);
      ScanIsModel(key);
      if found.Some? {
        ReplaceAt(found.value, Updated(blobOid, entries[found.value], mode, data));
      } else {
        Append(FreshEntry(blobOid, path, mode, data));
      }
    }

    lemma AddedEntry(m: map<Key, Entry>, path: bytes, mode: u32, data: bytes)
      requires Key(path, 0) in m ==> KeyOf(m[Key(path, 0)]) == Key(path, 0)
      ensures var key := Key(path, 0);
        if key in m then
          var e := Updated(blobOid, m[key], mode, data);
          Holds(e, path, mode, data) && e.stat == m[key].stat && e.flagsExtended == m[key].flagsExtended
        else
          var e := FreshEntry(blobOid, path, mode, data);
          Holds(e, path, mode, data) && e.stat == Stat(0, 0, 0, 0, 0, 0, 0, 0) && e.flagsExtended == 0
    {
    }

    /** Doubles the buffer. */
    method Grow()
      requires Valid()
      modifies this`entries
      ensures Valid() && count < |entries| && InUse() == old(InUse())
    {
      hide Structure, Distinct, Sorted;
      var more := if |entries| == 0 then FIRST_CAPACITY else |entries|;
      ghost var homes := Homes(hash, entries, ht.Length);
      entries := entries + seq(more, _ => UNUSED);
      Rehome(ht[..], homes, dist, Homes(hash, entries, ht.Length));
      assert InUse() == old(InUse());
    }

    method ReplaceAt(i: nat, e: Entry)
      requires Valid() && i < count && KeyOf(e) == KeyOf(entries[i])
      modifies this`entries, this`dirty
      ensures Valid() && Abs() == old(Abs())[KeyOf(e) := e]
      ensures sorted == old(sorted) && dirty
    {
      hide Structure, Distinct, Sorted, Model;
      ghost var before, homes := InUse(), Homes(hash, entries, ht.Length);
      ModelReplace(before, i, e);
      SortedReplace(before, i, e);
      entries := entries[i := e];
      assert InUse() == before[i := e];
      assert Homes(hash, entries, ht.Length) == homes;
      dirty := true;
    }

    /** Writes the buffer element after the entries in use. */
    method StoreUnused(e: Entry)
      requires Valid() && count < |entries|
      modifies this`entries
      ensures TableOk() && dist.Keys == Upto(count) && |entries| == |old(entries)|
        && entries == old(entries)[count := e]
    {
      hide Structure;
      ghost var homes := Homes(hash, entries, ht.Length);
      entries := entries[count := e];
      Rehome(ht[..], homes, dist, Homes(hash, entries, ht.Length));
    }

    /** Gives the element after the entries in use a slot and counts it in. */
    method Admit()
      requires TableOk() && count < |entries| && dist.Keys == Upto(count)
      modifies this`count, this`ht, ht, this`dist
      ensures TableOk() && count == old(count) + 1 && dist.Keys == Upto(count) && (ht == old(ht) || fresh(ht))
      ensures 2 * old(count) + 64 <= old(ht.Length) ==> ht == old(ht)
      ensures ht.Length == Enlarged(old(ht.Length), old(count), true)
    {
      hide Structure, Homes, Upto, IsPow2, Doubled;
      UptoMeans(count);
      UptoMeans(count + 1);
      HtInsert(count);
      count := count + 1;
    }

    method Append(e: Entry)
      requires Valid() && count < |entries| && KeyOf(e) !in Abs()
      modifies this, ht
      ensures Valid() && (ht == old(ht) || fresh(ht))
      ensures 2 * old(count) + 64 <= old(ht.Length) ==> ht == old(ht)
      ensures ht.Length == Enlarged(old(ht.Length), old(count), true) && !sorted && dirty
      ensures count == old(count) + 1 && Abs() == old(Abs())[KeyOf(e) := e]
    {
      hide Structure, Distinct, Sorted, Model, Homes, Upto;
      ghost var before := InUse();
      ModelAppend(before, e);
      StoreUnused(e);
      Admit();
      assert InUse() == before + [e];
      dirty, sorted := true, false;
    }

    /** Removing a key takes it out of the entries, whatever the table looks like afterwards. The table
        stays valid exactly when the removed entry is the last one or the table is less than half full:
        otherwise the reinsertion of the moved entry rebuilds the table from the entries including the old
        last position, which then stays in a slot although it is no longer in use. */
    method Remove(key: Key) returns (r: Result<()>)
      requires Valid()
      modifies this, ht
      ensures r == if key in old(Abs()) then Ok(()) else Err(ENOENT)
      ensures ht == old(ht) || fresh(ht)
      ensures r.Err? ==> Valid() && Abs() == old(Abs()) && count == old(count)
      ensures r.Ok? ==> count + 1 == old(count) && count <= |entries| && Abs() == old(Abs()) - {key}
      ensures r.Ok? ==>
        (Valid() <==> KeyOf(old(entries)[old(count) - 1]) == key || 2 * old(count) + 64 <= old(ht.Length))
      ensures r.Ok? && !Valid() ==> Perilous(old(count)) && Slot.Live(count) in ht[..]
      ensures r.Err? || 2 * old(count) + 64 <= old(ht.Length) ==> ht == old(ht)
      ensures sorted == (old(sorted) && r.Err?) && dirty == (old(dirty) || r.Ok?)
    {
      hide Structure, Distinct, Sorted, Model, Search, Scan, Homes, Upto, IsPow2, Doubled;
      RoomToSpare(count, ht.Length);
      var found := HtFind(key);
      LookupIsScan(key);
      ScanIsModel(key);
      if found.None? { return Err(ENOENT); }
      ScanFinds(InUse(), key);
      SamePlace(InUse(), found.value, count - 1);
      assert InUse()[count - 1] == entries[count - 1] && InUse()[found.value] == entries[found.value];
      RemoveAt(found.value, key);
      r := Ok(());
    }

    /** Copies the last entry into the hole at i. */
    method CopyLast(i: nat)
      requires TableOk() && Distinct(InUse()) && i < count - 1 && dist.Keys == Upto(count) - {i}
      modifies this`entries
      ensures |entries| == |old(entries)| && entries == old(entries)[i := old(entries)[count - 1]] && TableOk()
      ensures Only(Keys(entries), dist, count - 1, KeyOf(entries[count - 1]))
    {
      hide Structure, Upto;
      UptoMeans(count);
      ghost var homes, before := Homes(hash, entries, ht.Length), InUse();
      entries := entries[i := entries[count - 1]];
      Rehome(ht[..], homes, dist, Homes(hash, entries, ht.Length));
      forall w <- dist ensures w < |entries| && (Keys(entries)[w] == KeyOf(entries[count - 1]) ==> w == count - 1) {
        assert before[w] == entries[w] && before[count - 1] == entries[count - 1];
      }
    }

    /** Copies the last entry into the hole at i, drops its old slot and inserts it for i. */
    method MoveLast(i: nat)
      requires TableOk() && Distinct(InUse()) && i < count - 1 && dist.Keys == Upto(count) - {i}
      modifies this`entries, this`ht, ht, this`dist
      ensures |entries| == |old(entries)| && entries == old(entries)[i := old(entries)[count - 1]]
      ensures ht == old(ht) || fresh(ht)
      ensures 2 * count + 64 <= old(ht.Length) ==> TableOk() && dist.Keys == Upto(count - 1) && ht == old(ht)
      ensures 2 * count + 64 > old(ht.Length) ==> Slot.Live(count - 1) in ht[..]
    {
      hide Structure, Distinct, Only, Homes, Upto;
      UptoMeans(count);
      UptoMeans(count - 1);
      CopyLast(i);
      HtRemove(KeyOf(entries[count - 1]), count - 1);
      HtInsert(i);
    }

    /** The table's part of a removal, before the count goes down. */
    method Vacate(i: nat, key: Key)
      requires Valid() && i < count && KeyOf(entries[i]) == key
      modifies this`entries, this`ht, ht, this`dist
      ensures |entries| == |old(entries)| && (ht == old(ht) || fresh(ht))
      ensures entries == if i == count - 1 then old(entries) else old(entries)[i := old(entries)[count - 1]]
      ensures i == count - 1 || 2 * count + 64 <= old(ht.Length) ==> TableOk() && dist.Keys == Upto(count - 1)
      ensures 2 * count + 64 <= old(ht.Length) ==> ht == old(ht)
      ensures !(i == count - 1 || 2 * count + 64 <= old(ht.Length)) ==> Slot.Live(count - 1) in ht[..]
    {
      hide Structure, Sorted, Distinct, Only, Homes, Upto, Model, Keys, CompareEntries, IsPow2, HasTwo;
      UptoMeans(count);
      UptoMeans(count - 1);
      OnlyOne(key, i);
      HtRemove(key, i);
      if i != count - 1 {
        MoveLast(i);
      }
    }

    method RemoveAt(i: nat, key: Key)
      requires Valid() && i < count && KeyOf(entries[i]) == key
      modifies this, ht
      ensures ht == old(ht) || fresh(ht)
      ensures count + 1 == old(count) && count <= |entries| && Abs() == old(Abs()) - {key}
      ensures Valid() <==> i == count || 2 * old(count) + 64 <= old(ht.Length)
      ensures Valid() || Slot.Live(count) in ht[..]
      ensures 2 * old(count) + 64 <= old(ht.Length) ==> ht == old(ht)
      ensures !sorted && dirty
    {
      hide Structure, Sorted, Model, Distinct, Homes, Upto;
      ghost var before := InUse();
      ModelSwapOut(before, i);
      Vacate(i, key);
      count := count - 1;
      dirty, sorted := true, false;
      assert InUse() == SwapOut(before, i);
      if Slot.Live(count) in ht[..] { StaleSlot(); }
    }

    /** A slot that names the position after the last entry in use spoils the table. */
    lemma StaleSlot()
      requires Slot.Live(count) in ht[..]
      ensures !Valid()
    {
      var p :| 0 <= p < ht.Length && ht[..][p] == Slot.Live(count);
      if TableOk() { assert count in dist; }
    }

    method Clear()
      requires Valid()
      modifies this, ht
      ensures Valid() && fresh(ht) && count == 0 && Abs() == map[] && sorted && dirty && ht.Length == FIRST_CAPACITY
    {
      count := 0;
      dirty, sorted := true, true;
      HtRebuild();
    }

    /** Sorts the entries in use and builds the table anew: the first step of writing the index. */
    method SortEntries()
      requires Valid()
      modifies this, ht
      ensures Valid() && (ht == old(ht) || fresh(ht)) && Abs() == old(Abs()) && count == old(count)
      ensures Sorted(InUse()) && multiset(InUse()) == multiset(old(InUse())) && sorted && dirty == old(dirty)
      ensures ht.Length == if !old(sorted) && count > 1 then Capacity(2 * count + 64) else old(ht.Length)
    {
      hide Structure, Model, CompareEntries, IsPow2, Doubled;
      if !sorted && count > 1 {
        ghost var before := InUse();
        var es := Sort(entries[..count]);
        SortedKeepsModel(before, es);
        SameSize(before, es);
        entries := es + entries[count..];
        assert InUse() == es;
        HtRebuild();
      }
      sorted := true;
    }

    /** A lookup: the entry the map holds, or ENOENT; a failed lookup may leave the entries sorted. */
    method Find(key: Key) returns (r: Result<nat>)
      requires Valid()
      modifies this, ht
      ensures Valid() && (ht == old(ht) || fresh(ht)) && Abs() == old(Abs()) && count == old(count)
      ensures key in Abs() ==> r.Ok? && r.value < count && entries[r.value] == Abs()[key]
      ensures key !in Abs() ==> r == Err(ENOENT)
      ensures dirty == old(dirty)
      ensures r == match Scan(InUse(), key) case Some(i) => Ok(i) case None => Err(ENOENT)
      ensures var sorts := key !in Abs() && !old(sorted) && count > 1;
        sorted == (old(sorted) || sorts) && ht.Length == if sorts then Capacity(2 * count + 64) else old(ht.Length)
    {
      hide Structure, Distinct, Sorted, Model, Search, Scan, Homes, IsPow2, Doubled;
      var found := HtFind(key);
      LookupIsScan(key);
      ScanIsModel(key);
      if found.Some? {
        ScanFinds(InUse(), key);
        return Ok(found.value);
      }
      if !sorted && count > 1 {
        SortEntries();
        found := HtFind(key);
        LookupIsScan(key);
        ScanIsModel(key);
      }
      r := match found case Some(i) => Ok(i) case None => Err(ENOENT);
    }
  }

  lemma Keyed(es: seq<Entry>, key: Key)
    requires Distinct(es) && key in Model(es)
    ensures KeyOf(Model(es)[key]) == key
  {
    ModelHolds(es);
  }

  lemma {:induction false} SameSize(es: seq<Entry>, fs: seq<Entry>)
    requires multiset(es) == multiset(fs)
    ensures |es| == |fs|
  {
    assert |multiset(es)| == |es| && |multiset(fs)| == |fs|;
  }

  lemma ScanFinds(es: seq<Entry>, key: Key)
    ensures Scan(es, key).Some? ==> Scan(es, key).value < |es| && KeyOf(es[Scan(es, key).value]) == key
  {
  }

  lemma FirstFits()
    ensures Capacity(FIRST_CAPACITY) == Capacity(62) == FIRST_CAPACITY
  {
  }

  lemma UptoMeans(n: nat)
    ensures forall x :: x in Upto(n) <==> 0 <= x < n
  {
  }

  lemma SamePlace(es: seq<Entry>, i: nat, j: nat)
    requires Distinct(es) && i < |es| && j < |es|
    ensures KeyOf(es[i]) == KeyOf(es[j]) <==> i == j
  {
  }

  lemma NothingIn(ht: seq<Slot>, homes: seq<nat>, dist: map<nat, nat>)
    requires dist == map[] && forall p | 0 <= p < |ht| :: ht[p] == Empty
    ensures Structure(ht, homes, dist)
  {
  }

  lemma SortedReplace(es: seq<Entry>, i: nat, e: Entry)
    requires i < |es| && KeyOf(e) == KeyOf(es[i])
    ensures Sorted(es) ==> Sorted(es[i := e])
  {
    var fs := es[i := e];
    assert forall j | 0 <= j < |es| :: fs[j].path == es[j].path && fs[j].stage == es[j].stage;
    if Sorted(es) {
      forall a, b | 0 <= a < b < |fs| ensures CompareEntries(fs[a], fs[b]) <= 0 {
        assert CompareEntries(es[a], es[b]) <= 0;
      }
    }
  }

  lemma Small(s: set<nat>, n: nat)
    requires s <= Upto(n)
    ensures |s| <= n
  {
    Subset(s, Upto(n));
  }

  function Letters(n: nat): bytes {
    seq(n, _ => 97)
  }

  /** Capacities follow the number of entries while an index only grows. */
  lemma CapacityGrows(n: nat)
    ensures Index.Enlarged(Capacity(2 * n + 62), n, true) == Capacity(2 * (n + 1) + 62)
  {
    hide IsPow2;
    CapacityIsLeast(2 * n + 62);
    CapacityIsLeast(2 * n + 64);
    assert 2 * (n + 1) + 62 == 2 * n + 64;
  }

  lemma PerilIsExact(n: nat)
    ensures 2 * n + 64 > Capacity(2 * n + 62) <==> Perilous(n)
  {
    CapacityIsLeast(2 * n + 62);
    RoomToSpare(n, Capacity(2 * n + 62));
    if Perilous(n) { assert (2 * n + 62) / 2 == n + 31 && IsPow2(2 * n + 62); }
  }

  /** A new index with n paths of different lengths. */
  method AddLetters(hash: Key -> nat, blobOid: bytes -> bytes, n: nat) returns (ix: Index)
    ensures fresh(ix) && fresh(ix.ht) && ix.Valid() && ix.count == n && ix.ht.Length == Capacity(2 * n + 62)
    ensures ix.count <= |ix.entries| && Distinct(ix.InUse())
  {
    hide Structure, Distinct, Sorted, Model, Homes, Upto, Capacity, IsPow2, Doubled, Perilous, Updated, FreshEntry;
    hide Index.Holds;
    ix := new Index(hash, blobOid);
    FirstFits();
    var i := 0;
    while i < n
      invariant i <= n && fresh(ix) && fresh(ix.ht) && ix.Valid()
      invariant ix.count == i && ix.ht.Length == Capacity(2 * i + 62)
      invariant forall k <- ix.Abs() :: |k.path| < i
    {
      CapacityGrows(i);
      ix.AddFromBuffer(Letters(i), 0x81a4, []);
      i := i + 1;
    }
  }

  /** Which numbers of entries are dangerous: n paths of different lengths are added to a new index and the
      first is removed. The table is spoilt exactly at 481, 993, 2017, ... paths; it then has a slot for a
      position that is not in use. */
  method RemoveFirst(hash: Key -> nat, blobOid: bytes -> bytes, n: nat) returns (ix: Index, key: Key)
    requires n > 1
    ensures fresh(ix) && ix.count == n - 1 && ix.count <= |ix.entries| && key !in ix.Abs()
    ensures ix.Valid() <==> !Perilous(n)
    ensures Perilous(n) ==> Slot.Live(ix.count) in ix.ht[..]
  {
    hide Distinct, Sorted, Model, Upto, Capacity, Perilous, Index.TableOk, Index.Valid;
    ix := AddLetters(hash, blobOid, n);
    PerilIsExact(n);
    ghost var es := ix.InUse();
    assert es[0] == ix.entries[0] && es[n - 1] == ix.entries[n - 1];
    SamePlace(es, 0, n - 1);
    ModelHolds(es);
    key := KeyOf(ix.entries[0]);
    assert key in ix.Abs();
    var r := ix.Remove(key);
  }

  /** The least such number. */
  method RemoveSpoilsTable(hash: Key -> nat, blobOid: bytes -> bytes) returns (ix: Index, key: Key)
    ensures fresh(ix) && ix.count == 480 && ix.count <= |ix.entries| && key !in ix.Abs() && !ix.Valid()
  {
    hide Structure, Distinct, Sorted, Model, Homes, Upto, Capacity, Index.TableOk, Index.Valid;
    assert Perilous(481) by { FirstIsPow2(); assert IsPow2(512); }
    ix, key := RemoveFirst(hash, blobOid, 481);
  }
}
