/** Whole runs of the staging index: while no removal meets a table that is half full, the index and the plain
    map from (path, stage) to entry cannot be told apart (src/index/index.c). */
module IndexRun {
  import opened Bytes
  import opened Entries
  import opened StagingIndex
  import opened ProbeTable

  type Contents = map<Key, Entry>

  datatype Op = Add(path: bytes, mode: u32, data: bytes) | Remove(key: Key) | Find(key: Key) | Clear | Write

  datatype Reply = Done | Missing | Found(e: Entry)

  /** What the plain map becomes, and what it answers. */
  function Next(blobOid: bytes -> bytes, m: Contents, op: Op): Contents {
    match op
    case Add(path, mode, data) =>
      var key := Key(path, 0);
      m[key := if key in m then Updated(blobOid, m[key], mode, data) else FreshEntry(blobOid, path, mode, data)]
    case Remove(key) => m - {key}
    case Clear => map[]
    case _ => m
  }

  function Answer(m: Contents, op: Op): Reply {
    match op
    case Remove(key) => if key in m then Done else Missing
    case Find(key) => if key in m then Found(m[key]) else Missing
    case _ => Done
  }

  /** What of the index is not in the map: the capacity of the table, and whether the entries are known to
      be sorted. */
  datatype Table = Table(cap: nat, sorted: bool)

  /** Sorting rebuilds the table for the entries there are. */
  function Tidied(m: Contents, t: Table): Table {
    if !t.sorted && |m| > 1 then Table(Capacity(2 * |m| + 64), true) else t
  }

  function Turned(m: Contents, t: Table, op: Op): Table {
    match op
    case Add(path, _, _) =>
      if Key(path, 0) in m then t else Table(Index.Enlarged(t.cap, |m|, true), false)
    case Remove(key) => if key in m then t.(sorted := false) else t
    case Find(key) => if key in m then t else Tidied(m, t)
    case Clear => Table(FIRST_CAPACITY, true)
    case Write => Tidied(m, t).(sorted := true)
  }

  datatype State = State(m: Contents, table: Table)

  const Start := State(map[], Table(FIRST_CAPACITY, true))

  function Step(blobOid: bytes -> bytes, s: State, op: Op): State {
    State(Next(blobOid, s.m, op), Turned(s.m, s.table, op))
  }

  function After(blobOid: bytes -> bytes, s: State, ops: seq<Op>): State {
    if ops == [] then s else Step(blobOid, After(blobOid, s, ops[..|ops| - 1]), ops[|ops| - 1])
  }

  lemma AfterNext(blobOid: bytes -> bytes, s: State, ops: seq<Op>, i: nat)
    requires i < |ops|
    ensures After(blobOid, s, ops[..i + 1]) == Step(blobOid, After(blobOid, s, ops[..i]), ops[i])
  {
    assert ops[..i + 1][..i] == ops[..i];
  }

  lemma AfterNone(blobOid: bytes -> bytes, s: State, ops: seq<Op>)
    ensures After(blobOid, s, ops[..0]) == s
  {
  }

  /** The guard in the table's insertion, when the moved entry of a removal is inserted. */
  predicate Guarded(s: State, op: Op) {
    op.Remove? && op.key in s.m ==> 2 * |s.m| + 64 <= s.table.cap
  }

  /** The same for a caller, who sees the number of entries but not the table. */
  predicate CountGuarded(s: State, op: Op) {
    op.Remove? && op.key in s.m ==> !Perilous(|s.m|)
  }

  predicate Roomy(s: State) {
    IsPow2(s.table.cap) && FIRST_CAPACITY <= s.table.cap && 2 * |s.m| + 62 <= s.table.cap
  }

  lemma StaysRoomy(blobOid: bytes -> bytes, s: State, op: Op)
    requires Roomy(s)
    ensures Roomy(Step(blobOid, s, op))
  {
    hide IsPow2, Doubled, Capacity, Updated, FreshEntry;
    FirstIsPow2();
    CapacityIsLeast(2 * |s.m| + 64);
    if op.Remove? && op.key in s.m {
      assert s.m.Keys == (s.m - {op.key}).Keys + {op.key};
    }
  }

  lemma {:induction false} AlwaysRoomy(blobOid: bytes -> bytes, ops: seq<Op>)
    ensures Roomy(After(blobOid, Start, ops))
    decreases |ops|
  {
    if ops == [] {
      FirstIsPow2();
    } else {
      var init := ops[..|ops| - 1];
      AlwaysRoomy(blobOid, init);
      StaysRoomy(blobOid, After(blobOid, Start, init), ops[|ops| - 1]);
    }
  }

  /** Whatever happened before, a removal can meet a half full table only at 481, 993, 2017, ... entries. */
  lemma CountGuard(blobOid: bytes -> bytes, ops: seq<Op>, op: Op)
    requires CountGuarded(After(blobOid, Start, ops), op)
    ensures Guarded(After(blobOid, Start, ops), op)
  {
    AlwaysRoomy(blobOid, ops);
    var s := After(blobOid, Start, ops);
    RoomToSpare(|s.m|, s.table.cap);
  }

  // ----- what a lookup answers, by the last operation that concerns its key -----

  predicate Concerns(op: Op, key: Key) {
    match op
    case Add(path, _, _) => Key(path, 0) == key
    case Remove(k) => k == key
    case Clear => true
    case _ => false
  }

  /** Operations that do not concern a key leave it alone. */
  lemma {:induction false} Untouched(blobOid: bytes -> bytes, s: State, ops: seq<Op>, i: nat, j: nat, key: Key)
    requires i <= j <= |ops| && forall k | i <= k < j :: !Concerns(ops[k], key)
    ensures var m, m' := After(blobOid, s, ops[..i]).m, After(blobOid, s, ops[..j]).m;
      (key in m <==> key in m') && (key in m ==> m'[key] == m[key])
    decreases j
  {
    hide After, Turned, Updated, FreshEntry;
    if i < j {
      Untouched(blobOid, s, ops, i, j - 1, key);
      AfterNext(blobOid, s, ops, j - 1);
    }
  }

  /** A lookup after an addition of its path, with nothing between them that concerns it, answers an entry for
      the content that was added. */
  lemma {:induction false} FindsLatest(blobOid: bytes -> bytes, ops: seq<Op>, i: nat, j: nat)
    requires i < j < |ops| && ops[i].Add? && ops[j] == Find(Key(ops[i].path, 0))
    requires forall k | i < k < j :: !Concerns(ops[k], Key(ops[i].path, 0))
    ensures var r := Answer(After(blobOid, Start, ops[..j]).m, ops[j]);
      && r.Found? && r.e.path == ops[i].path && r.e.stage == 0
      && r.e.oid == blobOid(ops[i].data) && r.e.mode == ops[i].mode
      && r.e.size == |ops[i].data| % TWO32 && r.e.flags == |ops[i].path| % 0x1000
  {
    hide After, Turned, Updated, FreshEntry;
    var key := Key(ops[i].path, 0);
    AfterNext(blobOid, Start, ops, i);
    AllKeyed(blobOid, ops[..i]);
    Untouched(blobOid, Start, ops, i + 1, j, key);
    AddsEntry(blobOid, After(blobOid, Start, ops[..i]).m, ops[i]);
  }

  lemma AddsEntry(blobOid: bytes -> bytes, m: Contents, op: Op)
    requires op.Add? && forall k <- m :: KeyOf(m[k]) == k
    ensures var key, m' := Key(op.path, 0), Next(blobOid, m, op);
      && key in m' && KeyOf(m'[key]) == key && m'[key].oid == blobOid(op.data) && m'[key].mode == op.mode
      && m'[key].size == |op.data| % TWO32 && m'[key].flags == |op.path| % 0x1000
  {
  }

  lemma {:induction false} AllKeyed(blobOid: bytes -> bytes, ops: seq<Op>)
    ensures forall k <- After(blobOid, Start, ops).m :: KeyOf(After(blobOid, Start, ops).m[k]) == k
    decreases |ops|
  {
    hide Turned;
    if ops != [] { AllKeyed(blobOid, ops[..|ops| - 1]); }
  }

  /** After a removal of the key, a clearing, or from the start, with nothing in between that concerns it, it
      answers that there is none. `i` is how many operations there are up to that point. */
  lemma {:induction false} FindsNothing(blobOid: bytes -> bytes, ops: seq<Op>, i: nat, j: nat, key: Key)
    requires i <= j < |ops| && ops[j] == Find(key)
    requires i == 0 || ops[i - 1] == Remove(key) || ops[i - 1] == Clear
    requires forall k | i <= k < j :: !Concerns(ops[k], key)
    ensures Answer(After(blobOid, Start, ops[..j]).m, ops[j]) == Missing
  {
    hide After, Turned, Updated, FreshEntry;
    Untouched(blobOid, Start, ops, i, j, key);
    if i == 0 {
      AfterNone(blobOid, Start, ops);
    } else {
      AfterNext(blobOid, Start, ops, i - 1);
    }
  }

  /** Distinct keys: as many entries as the map has keys. */
  lemma {:induction false} ModelSize(es: seq<Entry>)
    requires Distinct(es)
    ensures |Model(es)| == |es|
    decreases |es|
  {
    if es != [] {
      var n := |es| - 1;
      var init := es[..n];
      ModelSize(init);
      ModelHolds(init);
      forall i | 0 <= i < |init| ensures KeyOf(init[i]) != KeyOf(es[n]) {
        assert es[i] == init[i];
      }
      assert Model(es).Keys == Model(init).Keys + {KeyOf(es[n])};
    }
  }

  ghost function StateOf(ix: Index): State
    requires ix.count <= |ix.entries|
    reads ix
  {
    State(ix.Abs(), Table(ix.ht.Length, ix.sorted))
  }

  method Drop(ix: Index, key: Key) returns (reply: Reply)
    requires ix.Valid() && Guarded(StateOf(ix), Remove(key))
    modifies ix, ix.ht
    ensures ix.Valid() && ix.ht == old(ix.ht)
    ensures StateOf(ix) == Step(ix.blobOid, old(StateOf(ix)), Remove(key))
    ensures reply == Answer(old(ix.Abs()), Remove(key))
  {
    hide Structure, Distinct, Sorted, Model, Homes, Upto, Updated, FreshEntry, IsPow2, Doubled, Capacity, Scan;
    hide Perilous;
    ghost var m := ix.Abs();
    ModelSize(ix.InUse());
    var r := ix.Remove(key);
    reply := if r.Ok? then Done else Missing;
    if r.Err? { assert m - {key} == m; }
  }

  /** One operation on the index. */
  method Perform(ix: Index, op: Op) returns (reply: Reply)
    requires ix.Valid() && Guarded(StateOf(ix), op)
    modifies ix, ix.ht
    ensures ix.Valid() && (ix.ht == old(ix.ht) || fresh(ix.ht))
    ensures StateOf(ix) == Step(ix.blobOid, old(StateOf(ix)), op) && reply == Answer(old(ix.Abs()), op)
  {
    hide Structure, Distinct, Sorted, Model, Homes, Upto, Updated, FreshEntry, IsPow2, Doubled, Capacity, Scan;
    hide Perilous;
    ghost var m := ix.Abs();
    ModelSize(ix.InUse());
    assert |m| == ix.count;
    match op
    case Add(path, mode, data) =>
      ix.AddFromBuffer(path, mode, data);
      reply := Done;
    case Remove(key) =>
      reply := Drop(ix, key);
    case Find(key) =>
      var r := ix.Find(key);
      reply := if r.Ok? then Found(ix.entries[r.value]) else Missing;
    case Clear =>
      ix.Clear();
      reply := Done;
    case Write =>
      ix.SortEntries();
      reply := Done;
  }

  /** Any run on a new index whose removals meet the table's guard, which CountGuard reduces to the number of
      entries: the entries are those of the plain map, every answer is the map's answer, and the table is
      intact. */
  method Replay(hash: Key -> nat, blobOid: bytes -> bytes, ops: seq<Op>) returns (ix: Index, replies: seq<Reply>)
    requires forall i | 0 <= i < |ops| :: Guarded(After(blobOid, Start, ops[..i]), ops[i])
    ensures fresh(ix) && ix.Valid() && StateOf(ix) == After(blobOid, Start, ops) && |replies| == |ops|
    ensures forall i | 0 <= i < |ops| :: replies[i] == Answer(After(blobOid, Start, ops[..i]).m, ops[i])
  {
    hide Structure, Distinct, Sorted, Model, Homes, Upto, After, Next, Turned, Guarded, Answer, IsPow2;
    ix := new Index(hash, blobOid);
    replies := [];
    ghost var start := Start;
    AfterNone(blobOid, start, ops);
    var i := 0;
    while i < |ops|
      invariant i <= |ops| && fresh(ix) && fresh(ix.ht) && ix.Valid() && ix.blobOid == blobOid
      invariant StateOf(ix) == After(blobOid, start, ops[..i]) && |replies| == i
      invariant forall j | 0 <= j < i :: replies[j] == Answer(After(blobOid, start, ops[..j]).m, ops[j])
    {
      AfterNext(blobOid, start, ops, i);
      assert Guarded(After(blobOid, start, ops[..i]), ops[i]);
      var reply := Perform(ix, ops[i]);
      replies := replies + [reply];
      i := i + 1;
    }
    assert ops[..i] == ops;
  }
}
