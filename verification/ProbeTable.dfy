/** Open addressing with tombstones, as pure facts about the slot array of src/index/index.c. */
module ProbeTable {
  import opened Bytes

  /** A slot of the table: never used, used and freed, or the position of an entry. */
  datatype Slot = Empty | Tomb | Live(i: nat)

  // ----- capacities and masks -----

  predicate IsPow2(n: nat) {
    if n <= 1 then n == 1 else n % 2 == 0 && IsPow2(n / 2)
  }

  /** p doubled until it reaches the need. */
  function Doubled(p: nat, need: nat): (cap: nat)
    requires p > 0
    ensures cap >= p && cap >= need
    decreases need - p
  {
    if p >= need then p else Doubled(2 * p, need)
  }

  const FIRST_CAPACITY := 1024

  /** The capacity of a table made for this many slots. */
  function Capacity(need: nat): (cap: nat)
    ensures cap >= FIRST_CAPACITY && cap >= need
  {
    Doubled(FIRST_CAPACITY, need)
  }

  /** It is the smallest power of two, from 1024 on, that is enough. */
  lemma {:induction false} CapacityIsLeast(need: nat)
    ensures IsPow2(Capacity(need))
    ensures forall q: nat | IsPow2(q) && q >= FIRST_CAPACITY && q >= need :: Capacity(need) <= q
  {
    FirstIsPow2();
    forall q: nat | IsPow2(q) && q >= FIRST_CAPACITY && q >= need ensures Capacity(need) <= q {
      DoubledIsLeast(FIRST_CAPACITY, need, q);
    }
    DoubledIsLeast(FIRST_CAPACITY, need, Capacity(need));
  }

  lemma FirstIsPow2()
    ensures IsPow2(FIRST_CAPACITY)
  {
    assert IsPow2(1) && IsPow2(2) && IsPow2(4) && IsPow2(8) && IsPow2(16) && IsPow2(32) && IsPow2(64);
    assert IsPow2(128) && IsPow2(256) && IsPow2(512);
  }

  lemma {:induction false} DoubledIsLeast(p: nat, need: nat, q: nat)
    requires IsPow2(p) && q >= p && q >= need
    ensures IsPow2(Doubled(p, need)) && (IsPow2(q) ==> Doubled(p, need) <= q)
    decreases need - p
  {
    if p < need {
      if IsPow2(q) { Between(p, q); }
      assert 2 * p / 2 == p;
      DoubledIsLeast(2 * p, need, if q >= 2 * p then q else 2 * p + need);
    }
  }

  /** There is no power of two strictly between one and its double. */
  lemma {:induction false} Between(p: nat, q: nat)
    requires IsPow2(p) && IsPow2(q) && p < q
    ensures 2 * p <= q
    decreases p
  {
    if p > 1 { Between(p / 2, q / 2); }
  }

  /** Bitwise and. */
  function And(x: nat, y: nat): nat {
    if x == 0 || y == 0 then 0 else 2 * And(x / 2, y / 2) + (x % 2) * (y % 2)
  }

  /** Masking with one less than a power of two is taking the remainder. */
  lemma {:induction false} MaskIsModulo(x: nat, cap: nat)
    requires IsPow2(cap)
    ensures And(x, cap - 1) == x % cap
    decreases cap
  {
    if cap > 1 {
      var half := cap / 2;
      MaskIsModulo(x / 2, half);
      assert (cap - 1) / 2 == half - 1 && (cap - 1) % 2 == 1;
      HalfModulo(x, half);
      if half == 1 { assert And(x / 2, 0) == 0; }
    }
  }

  lemma {:induction false} HalfModulo(x: nat, half: nat)
    requires half > 0
    ensures x % (2 * half) == 2 * (x / 2 % half) + x % 2
  {
    var q, r := x / 2 / half, x / 2 % half;
    assert x / 2 == q * half + r;
    assert x == q * (2 * half) + (2 * r + x % 2) by { assert 2 * (q * half) == q * (2 * half); }
    DivModUnique(x, 2 * half, q, 2 * r + x % 2);
  }

  /** The remainder by a capacity, taken by masking. */
  function Masked(x: nat, cap: nat): (r: nat)
    requires cap > 0 && IsPow2(cap)
    ensures r == x % cap
  {
    MaskIsModulo(x, cap);
    And(x, cap - 1)
  }

  /** The masked increment of a position. */
  lemma NextIsWrap(home: nat, d: nat, cap: nat)
    requires home < cap && d < cap
    ensures d + 1 < cap ==> (Wrap(home, d, cap) + 1) % cap == Wrap(home, d + 1, cap)
  {
    var p := Wrap(home, d, cap);
    if p + 1 == cap { DivModUnique(p + 1, cap, 1, 0); }
  }

  /** The counts of entries at which a table can be exactly half full: 481, 993, 2017, ... */
  predicate Perilous(n: nat) {
    n > 480 && IsPow2(n + 31)
  }

  /** At any other count a table that holds its entries has room to spare. */
  lemma {:induction false} RoomToSpare(n: nat, cap: nat)
    requires IsPow2(cap) && cap >= FIRST_CAPACITY && 2 * n + 62 <= cap
    ensures 2 * n + 64 > cap <==> cap == 2 * n + 62
    ensures 2 * n + 64 > cap ==> Perilous(n)
  {
    assert cap % 2 == 0 && IsPow2(cap / 2);
  }

  /** The slot d steps after home: the masked increments of the probe loops. */
  function Wrap(home: nat, d: nat, cap: nat): (p: nat)
    requires home < cap && d < cap
    ensures p < cap
  {
    if home + d < cap then home + d else home + d - cap
  }

  ghost predicate NoEmptyBefore(ht: seq<Slot>, home: nat, d: nat)
    requires home < |ht| && d <= |ht|
  {
    forall e | 0 <= e < d :: !ht[Wrap(home, e, |ht|)].Empty?
  }

  /** Entry i, if it is in the table, sits dist[i] steps after its home with no empty slot in between;
      every live slot is the slot of its entry. */
  ghost predicate Structure(ht: seq<Slot>, homes: seq<nat>, dist: map<nat, nat>) {
    && (forall i <- dist :: i < |homes| && homes[i] < |ht| && dist[i] < |ht|
          && ht[Wrap(homes[i], dist[i], |ht|)] == Live(i) && NoEmptyBefore(ht, homes[i], dist[i]))
    && (forall p | 0 <= p < |ht| && ht[p].Live? ::
          ht[p].i in dist && p == Wrap(homes[ht[p].i], dist[ht[p].i], |ht|))
  }

  /** What probing for a key finds: the first live slot whose entry has it, before any empty slot. */
  function Search<K(==)>(ht: seq<Slot>, keys: seq<K>, home: nat, probe: nat, key: K): Option<nat>
    requires home < |ht| && probe <= |ht|
    requires forall p | 0 <= p < |ht| && ht[p].Live? :: ht[p].i < |keys|
    decreases |ht| - probe
  {
    if probe == |ht| then None
    else match ht[Wrap(home, probe, |ht|)]
      case Empty => None
      case Tomb => Search(ht, keys, home, probe + 1, key)
      case Live(v) => if keys[v] == key then Some(v) else Search(ht, keys, home, probe + 1, key)
  }

  /** Among the entries in the table, v alone has this key. */
  ghost predicate Only<K>(keys: seq<K>, dist: map<nat, nat>, v: nat, key: K) {
    && v in dist && v < |keys| && keys[v] == key
    && forall w <- dist :: w < |keys| && (keys[w] == key ==> w == v)
  }

  /** Probing reaches the entry that has the key. */
  lemma {:induction false} SearchHits<K>(ht: seq<Slot>, homes: seq<nat>, keys: seq<K>, dist: map<nat, nat>, v: nat,
                                         probe: nat)
    requires Structure(ht, homes, dist) && |keys| == |homes|
    requires v in dist && Only(keys, dist, v, keys[v]) && probe <= dist[v]
    ensures Search(ht, keys, homes[v], probe, keys[v]) == Some(v)
    decreases dist[v] - probe
  {
    if probe < dist[v] { SearchHits(ht, homes, keys, dist, v, probe + 1); }
  }

  /** Live slots name entries of the buffer. */
  lemma InBuffer(ht: seq<Slot>, homes: seq<nat>, dist: map<nat, nat>)
    requires Structure(ht, homes, dist)
    ensures forall p | 0 <= p < |ht| && ht[p].Live? :: ht[p].i < |homes|
  {
  }

  /** What a probe towards entry v sees: no empty slot, and v itself only at the end. */
  lemma Along(ht: seq<Slot>, homes: seq<nat>, dist: map<nat, nat>, v: nat, probe: nat)
    requires Structure(ht, homes, dist) && v in dist && probe <= dist[v]
    ensures v < |homes| && homes[v] < |ht| && dist[v] < |ht|
    ensures var slot := ht[Wrap(homes[v], probe, |ht|)];
      !slot.Empty? && (slot.Live? ==> slot.i in dist) && (slot == Live(v) <==> probe == dist[v])
  {
  }

  /** Probing for an absent key finds nothing. */
  lemma {:induction false} SearchMisses<K>(ht: seq<Slot>, homes: seq<nat>, keys: seq<K>, dist: map<nat, nat>,
                                           home: nat, probe: nat, key: K)
    requires Structure(ht, homes, dist) && |keys| == |homes|
    requires home < |ht| && probe <= |ht|
    requires forall w <- dist :: w < |keys| && keys[w] != key
    ensures Search(ht, keys, home, probe, key) == None
    decreases |ht| - probe
  {
    if probe < |ht| && !ht[Wrap(home, probe, |ht|)].Empty? {
      SearchMisses(ht, homes, keys, dist, home, probe + 1, key);
    }
  }

  /** Turning a live slot into a tombstone opens no gap. */
  lemma Bury(ht: seq<Slot>, homes: seq<nat>, dist: map<nat, nat>, v: nat)
    requires Structure(ht, homes, dist) && v in dist
    ensures Structure(ht[Wrap(homes[v], dist[v], |ht|) := Tomb], homes, dist - {v})
  {
  }

  /** Filling the first reusable slot after an entry's home puts the entry in the table. */
  lemma Fill(ht: seq<Slot>, homes: seq<nat>, dist: map<nat, nat>, v: nat, d: nat)
    requires Structure(ht, homes, dist) && v !in dist && v < |homes| && homes[v] < |ht| && d < |ht|
    requires !ht[Wrap(homes[v], d, |ht|)].Live? && NoEmptyBefore(ht, homes[v], d)
    ensures Structure(ht[Wrap(homes[v], d, |ht|) := Live(v)], homes, dist[v := d])
  {
  }

  /** An entry that is not in the table may change. */
  lemma Rehome(ht: seq<Slot>, homes: seq<nat>, dist: map<nat, nat>, homes': seq<nat>)
    requires Structure(ht, homes, dist)
    requires forall i <- dist :: i < |homes'| && homes'[i] == homes[i]
    ensures Structure(ht, homes', dist)
  {
  }

  function Values(ht: seq<Slot>, n: nat): set<nat>
    requires n <= |ht| && forall p | 0 <= p < n :: ht[p].Live?
  {
    set p | 0 <= p < n :: ht[p].i
  }

  lemma {:induction false} CountValues(ht: seq<Slot>, n: nat)
    requires n <= |ht| && forall p | 0 <= p < n :: ht[p].Live?
    requires forall p, q | 0 <= p < q < n :: ht[p] != ht[q]
    ensures |Values(ht, n)| == n
    decreases n
  {
    if n > 0 {
      CountValues(ht, n - 1);
      assert Values(ht, n) == Values(ht, n - 1) + {ht[n - 1].i};
      assert ht[n - 1].i !in Values(ht, n - 1);
    }
  }

  /** Pigeonhole: a table with more slots than entries has a slot that is not live. */
  lemma {:induction false} SomeSlotFree(ht: seq<Slot>, homes: seq<nat>, dist: map<nat, nat>)
    requires Structure(ht, homes, dist) && |dist.Keys| < |ht|
    ensures exists p :: 0 <= p < |ht| && !ht[p].Live?
  {
    if forall p | 0 <= p < |ht| :: ht[p].Live? {
      CountValues(ht, |ht|);
      Subset(Values(ht, |ht|), dist.Keys);
    }
  }

  /** Every slot is some number of steps after a given home. */
  lemma StepsTo(home: nat, p: nat, cap: nat)
    requires home < cap && p < cap
    ensures exists d :: 0 <= d < cap && Wrap(home, d, cap) == p
  {
    assert Wrap(home, if home <= p then p - home else p + cap - home, cap) == p;
  }
}
