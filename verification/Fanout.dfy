/** Sorted object-id tables: the insertion sort and fanout of src/pack/packfile.c, the fanout of
    src/pack/midx.c, and the binary search they share. */
module Fanout {
  import opened Bytes
  import Lex

  /** Object ids are never empty; the fanout is over their first byte. */
  ghost predicate AllIds(ids: seq<bytes>) {
    forall i | 0 <= i < |ids| :: ids[i] != []
  }

  ghost predicate SortedIds(ids: seq<bytes>) {
    forall i, j | 0 <= i < j < |ids| :: Lex.Compare(ids[i], ids[j]) <= 0
  }

  /** How many ids have a first byte of at most f. */
  function CountTo(ids: seq<bytes>, f: int): (n: nat)
    requires AllIds(ids)
    ensures n <= |ids|
  {
    if ids == [] then 0
    else
      var n := |ids| - 1;
      CountTo(ids[..n], f) + if ids[n][0] <= f then 1 else 0
  }

  ghost predicate IsFanout(fanout: seq<nat>, ids: seq<bytes>) {
    AllIds(ids) && |fanout| == 256 && forall f | 0 <= f < 256 :: fanout[f] == CountTo(ids, f)
  }

  /** In a sorted table the ids with first byte at most f are exactly the first CountTo(f). */
  lemma {:induction false} CountSplits(ids: seq<bytes>, f: int)
    requires AllIds(ids) && SortedIds(ids)
    ensures forall i | 0 <= i < |ids| :: ids[i][0] <= f <==> i < CountTo(ids, f)
    decreases |ids|
  {
    if ids != [] {
      var n := |ids| - 1;
      var init := ids[..n];
      CountSplits(init, f);
      forall i | 0 <= i < |ids| ensures ids[i][0] <= f <==> i < CountTo(ids, f) {
        if i < n {
          assert init[i] == ids[i];
          FirstBytes(ids[i], ids[n]);
        }
      }
      if n > 0 && ids[n][0] <= f {
        assert forall i | 0 <= i < n :: init[i][0] <= f by {
          forall i | 0 <= i < n ensures init[i][0] <= f { FirstBytes(ids[i], ids[n]); }
        }
        AllCounted(init, f);
      }
    }
  }

  lemma {:induction false} AllCounted(ids: seq<bytes>, f: int)
    requires AllIds(ids) && forall i | 0 <= i < |ids| :: ids[i][0] <= f
    ensures CountTo(ids, f) == |ids|
    decreases |ids|
  {
    if ids != [] { AllCounted(ids[..|ids| - 1], f); }
  }

  lemma CountBound(ids: seq<bytes>, f: int)
    requires AllIds(ids)
    ensures CountTo(ids, f) <= |ids|
  {
  }

  lemma {:induction false} CountAll(ids: seq<bytes>)
    requires AllIds(ids)
    ensures CountTo(ids, 255) == |ids|
  {
    AllCounted(ids, 255);
  }

  lemma FirstBytes(a: bytes, b: bytes)
    requires a != [] && b != []
    ensures Lex.Compare(a, b) <= 0 ==> a[0] <= b[0]
  {
  }

  // ----- binary search -----

  /** What a search comes to; `Beyond` reads outside the table. */
  datatype Probe = At(place: nat) | Absent | Beyond

  /** The search between any two bounds, sound or not. */
  function Bisect(ids: seq<bytes>, lo: nat, hi: nat, id: bytes): (r: Probe)
    ensures r.At? ==> r.place < |ids| && ids[r.place] == id
    decreases hi - lo
  {
    if lo >= hi then Absent
    else
      var mid := (lo + hi) / 2;
      if mid >= |ids| then Beyond
      else
        var cmp := Lex.Compare(ids[mid], id);
        if cmp < 0 then Bisect(ids, mid + 1, hi, id)
        else if cmp > 0 then Bisect(ids, lo, mid, id)
        else At(mid)
  }

  /** Bounds within a sorted table that enclose the id find it if and only if it is there. */
  lemma {:induction false} BisectFinds(ids: seq<bytes>, lo: nat, hi: nat, id: bytes)
    requires SortedIds(ids) && lo <= hi <= |ids|
    requires forall i | 0 <= i < lo :: Lex.Compare(ids[i], id) < 0
    requires forall i | hi <= i < |ids| :: Lex.Compare(ids[i], id) > 0
    ensures !Bisect(ids, lo, hi, id).Beyond?
    ensures Bisect(ids, lo, hi, id).At? <==> id in ids
    decreases hi - lo
  {
    hide SortedIds;
    if lo < hi {
      var mid := (lo + hi) / 2;
      var cmp := Lex.Compare(ids[mid], id);
      if cmp < 0 {
        Below(ids, mid, id);
        BisectFinds(ids, mid + 1, hi, id);
      } else if cmp > 0 {
        Above(ids, mid, id);
        BisectFinds(ids, lo, mid, id);
      }
    }
  }

  /** The loop shared by fastgit_pack_index_find and fastgit_midx_find. */
  method Search(ids: seq<bytes>, from: nat, to: nat, id: bytes) returns (r: Probe)
    ensures r == Bisect(ids, from, to, id)
  {
    var lo: nat, hi: nat := from, to;
    while lo < hi
      invariant Bisect(ids, lo, hi, id) == Bisect(ids, from, to, id)
      decreases hi - lo
    {
      var mid: nat := (lo + hi) / 2;
      if mid >= |ids| { return Beyond; }
      var cmp := Lex.Compare(ids[mid], id);
      if cmp < 0 {
        lo := mid + 1;
      } else if cmp > 0 {
        hi := mid;
      } else {
        return At(mid);
      }
    }
    r := Absent;
  }

  /** fastgit_pack_index_find: succeeds exactly on the ids in the table. */
  method Find(fanout: seq<nat>, ids: seq<bytes>, id: bytes) returns (r: Result<nat>)
    requires id != [] && SortedIds(ids) && IsFanout(fanout, ids)
    ensures r.Ok? ==> r.value < |ids| && ids[r.value] == id
    ensures r.Err? <==> id !in ids
    ensures r.Err? ==> r.error == ENOENT
  {
    hide CountTo, Bisect;
    var first := id[0];
    var lo: nat := if first > 0 then fanout[first - 1] else 0;
    var hi: nat := fanout[first];
    Bounds(fanout, ids, id);
    BisectFinds(ids, lo, hi, id);
    BisectHits(ids, lo, hi, id);
    var probe := Search(ids, lo, hi, id);
    r := if probe.At? then Ok(probe.place) else Err(ENOENT);
  }

  lemma BisectHits(ids: seq<bytes>, lo: nat, hi: nat, id: bytes)
    ensures var r := Bisect(ids, lo, hi, id); r.At? ==> r.place < |ids| && ids[r.place] == id
  {
  }

  /** The two fanout entries enclose every id with this first byte. */
  lemma {:induction false} Bounds(fanout: seq<nat>, ids: seq<bytes>, id: bytes)
    requires id != [] && SortedIds(ids) && IsFanout(fanout, ids)
    ensures var lo := if id[0] > 0 then fanout[id[0] - 1] else 0;
      && lo <= fanout[id[0]] <= |ids|
      && (forall i | 0 <= i < lo :: Lex.Compare(ids[i], id) < 0)
      && (forall i | fanout[id[0]] <= i < |ids| :: Lex.Compare(ids[i], id) > 0)
  {
    var f: int := id[0];
    CountSplits(ids, f);
    CountSplits(ids, f - 1);
    if f == 0 { NoneBelow(ids); }
    var lo, hi := CountTo(ids, f - 1), CountTo(ids, f);
    CountStep(ids, f);
  }

  lemma {:induction false} NoneBelow(ids: seq<bytes>)
    requires AllIds(ids)
    ensures CountTo(ids, -1) == 0
    decreases |ids|
  {
    if ids != [] { NoneBelow(ids[..|ids| - 1]); }
  }

  lemma {:induction false} LessTransitive(a: bytes, b: bytes, c: bytes)
    requires Lex.Compare(a, b) <= 0 && Lex.Compare(b, c) < 0
    ensures Lex.Compare(a, c) < 0
  {
    Lex.Transitive(a, b, c);
    if a == c { Lex.Antisymmetric(a, b); }
  }

  lemma {:induction false} Below(ids: seq<bytes>, mid: nat, id: bytes)
    requires SortedIds(ids) && mid < |ids| && Lex.Compare(ids[mid], id) < 0
    ensures forall i | 0 <= i <= mid :: Lex.Compare(ids[i], id) < 0
  {
    forall i | 0 <= i <= mid ensures Lex.Compare(ids[i], id) < 0 {
      if i < mid { LessTransitive(ids[i], ids[mid], id); }
    }
  }

  lemma {:induction false} Above(ids: seq<bytes>, mid: nat, id: bytes)
    requires SortedIds(ids) && mid < |ids| && Lex.Compare(ids[mid], id) > 0
    ensures forall i | mid <= i < |ids| :: Lex.Compare(ids[i], id) > 0
  {
    forall i | mid <= i < |ids| ensures Lex.Compare(ids[i], id) > 0 {
      if i > mid {
        Lex.Antisymmetric(ids[mid], id);
        Lex.Antisymmetric(ids[i], id);
        if Lex.Compare(ids[i], id) <= 0 {
          Lex.Transitive(ids[mid], ids[i], id);
        }
      }
    }
  }

  // ----- building the fanout -----

  function CountIn(ids: seq<bytes>, f: int): (n: nat)
    requires AllIds(ids)
  {
    if ids == [] then 0
    else
      var n := |ids| - 1;
      CountIn(ids[..n], f) + if ids[n][0] == f then 1 else 0
  }

  lemma {:induction false} CountStep(ids: seq<bytes>, f: int)
    requires AllIds(ids)
    ensures CountTo(ids, f) == CountTo(ids, f - 1) + CountIn(ids, f)
    decreases |ids|
  {
    if ids != [] { CountStep(ids[..|ids| - 1], f); }
  }

  lemma CountPrefix(ids: seq<bytes>, i: nat, f: int)
    requires AllIds(ids) && i < |ids|
    ensures CountTo(ids[..i + 1], f) == CountTo(ids[..i], f) + if ids[i][0] <= f then 1 else 0
    ensures CountIn(ids[..i + 1], f) == CountIn(ids[..i], f) + if ids[i][0] == f then 1 else 0
  {
    assert ids[..i + 1][..i] == ids[..i];
  }

  /** The pack index: each id increments every entry from its first byte up. */
  method FanoutByIncrement(ids: seq<bytes>) returns (fanout: array<nat>)
    requires AllIds(ids)
    ensures fresh(fanout) && IsFanout(fanout[..], ids)
  {
    hide CountTo, CountIn;
    fanout := new nat[256](_ => 0);
    CountNothing(ids[..0]);
    var i := 0;
    while i < |ids|
      invariant i <= |ids| && fresh(fanout) && fanout.Length == 256
      invariant forall g | 0 <= g < 256 :: fanout[g] == CountTo(ids[..i], g)
    {
      var f: nat := ids[i][0];
      while f < 256
        invariant ids[i][0] <= f <= 256 && fanout.Length == 256
        invariant forall g | 0 <= g < 256 ::
                    fanout[g] == CountTo(ids[..i], g) + if ids[i][0] <= g < f then 1 else 0
      {
        fanout[f] := fanout[f] + 1;
        f := f + 1;
      }
      forall g | 0 <= g < 256 ensures fanout[g] == CountTo(ids[..i + 1], g) { CountPrefix(ids, i, g); }
      i := i + 1;
    }
    assert ids[..i] == ids;
  }

  lemma CountNothing(ids: seq<bytes>)
    requires ids == []
    ensures forall f :: CountTo(ids, f) == 0 && CountIn(ids, f) == 0
  {
  }

  /** The multi-pack index: counts per first byte, then running sums. */
  method FanoutByAccumulation(ids: seq<bytes>) returns (fanout: array<nat>)
    requires AllIds(ids)
    ensures fresh(fanout) && IsFanout(fanout[..], ids)
  {
    hide CountTo, CountIn;
    fanout := new nat[256](_ => 0);
    CountNothing(ids[..0]);
    var i := 0;
    while i < |ids|
      invariant i <= |ids| && fresh(fanout) && fanout.Length == 256
      invariant forall g | 0 <= g < 256 :: fanout[g] == CountIn(ids[..i], g)
    {
      forall g | 0 <= g < 256
        ensures CountIn(ids[..i + 1], g) == CountIn(ids[..i], g) + if ids[i][0] == g then 1 else 0
      {
        CountPrefix(ids, i, g);
      }
      fanout[ids[i][0]] := fanout[ids[i][0]] + 1;
      i := i + 1;
    }
    assert ids[..i] == ids;
    NoneBelow(ids);
    var cum, b := 0, 0;
    while b < 256
      invariant 0 <= b <= 256 && fresh(fanout) && fanout.Length == 256 && cum == CountTo(ids, b - 1)
      invariant forall g | 0 <= g < 256 :: fanout[g] == if g < b then CountTo(ids, g) else CountIn(ids, g)
    {
      CountStep(ids, b);
      cum := cum + fanout[b];
      fanout[b] := cum;
      b := b + 1;
    }
  }

  // ----- the insertion sort -----

  /** `order` lists each of 0..n-1 once. */
  ghost predicate Permutation(order: seq<nat>, n: nat) {
    && |order| == n && (forall i | 0 <= i < n :: order[i] < n)
    && forall i, j | 0 <= i < j < n :: order[i] != order[j]
  }

  /** A permutation reaches every position, for otherwise n different numbers would fit below n - 1. */
  lemma {:induction false} Reached(order: seq<nat>, i: nat) returns (k: nat)
    requires Permutation(order, |order|) && i < |order|
    ensures k < |order| && order[k] == i
  {
    if forall k | 0 <= k < |order| :: order[k] != i {
      var seen := Values(order, |order|);
      assert order[..|order|] == order;
      Subset(seen, Upto(|order|) - {i});
      assert false;
    } else {
      k :| 0 <= k < |order| && order[k] == i;
    }
  }

  /** The different values among the first j positions of a permutation. */
  lemma {:induction false} Values(order: seq<nat>, j: nat) returns (seen: set<nat>)
    requires Permutation(order, |order|) && j <= |order|
    ensures |seen| == j && forall v :: v in seen <==> v in order[..j]
  {
    seen := {};
    if j > 0 {
      var before := Values(order, j - 1);
      assert order[..j] == order[..j - 1] + [order[j - 1]];
      assert order[j - 1] !in order[..j - 1];
      seen := before + {order[j - 1]};
    }
  }

  /** The ids read in the given order. */
  function Arranged<T>(xs: seq<T>, order: seq<nat>): (r: seq<T>)
    requires forall i | 0 <= i < |order| :: order[i] < |xs|
    ensures |r| == |order| && forall i | 0 <= i < |order| :: r[i] == xs[order[i]]
  {
    seq(|order|, i requires 0 <= i < |order| => xs[order[i]])
  }

  ghost predicate OrderedTo(ids: seq<bytes>, order: seq<nat>, n: nat)
    requires n <= |order| && forall i | 0 <= i < |order| :: order[i] < |ids|
  {
    forall i, j | 0 <= i < j < n :: Lex.Compare(ids[order[i]], ids[order[j]]) <= 0
  }

  /** Sorts positions by the ids they stand for: a permutation that reads the ids in order. */
  method SortOrder(ids: seq<bytes>) returns (order: array<nat>)
    ensures fresh(order) && Permutation(order[..], |ids|)
    ensures SortedIds(Arranged(ids, order[..]))
  {
    var n := |ids|;
    order := new nat[n](i => i);
    var i := 1;
    while i < n
      invariant 1 <= i && (i <= n || n == 0) && fresh(order) && order.Length == n && Permutation(order[..], n)
      invariant n > 0 ==> OrderedTo(ids, order[..], i)
    {
      InsertOne(ids, order, i);
      i := i + 1;
    }
  }

  /** Moves the key at position i down past every larger predecessor. */
  method InsertOne(ids: seq<bytes>, order: array<nat>, i: nat)
    requires order.Length == |ids| && 1 <= i < |ids| && Permutation(order[..], |ids|) && OrderedTo(ids, order[..], i)
    modifies order
    ensures Permutation(order[..], |ids|) && OrderedTo(ids, order[..], i + 1)
  {
    hide Permutation, OrderedTo;
    var key, j := order[i], i;
    ghost var before := order[..];
    InRange(before, |ids|);
    while j > 0 && Lex.Compare(ids[order[j - 1]], ids[key]) > 0
      invariant 0 <= j <= i && order[..] == Shifted(before, j, i)
      invariant forall k | j <= k < i :: Lex.Compare(ids[before[k]], ids[key]) > 0
    {
      order[j] := order[j - 1];
      j := j - 1;
    }
    order[j] := key;
    assert order[..] == Inserted(before, j, i);
    InsertedPermutation(before, j, i);
    InsertedOrdered(ids, before, j, i);
  }

  lemma InRange(order: seq<nat>, n: nat)
    requires Permutation(order, n)
    ensures |order| == n && forall i | 0 <= i < n :: order[i] < n
  {
  }

  /** Positions j..i-1 moved up by one, position j still holding its old value. */
  function Shifted(s: seq<nat>, j: nat, i: nat): (r: seq<nat>)
    requires j <= i < |s|
    ensures |r| == |s|
  {
    seq(|s|, k requires 0 <= k < |s| => if j < k <= i then s[k - 1] else s[k])
  }

  function Inserted(s: seq<nat>, j: nat, i: nat): (r: seq<nat>)
    requires j <= i < |s|
    ensures |r| == |s|
  {
    seq(|s|, k requires 0 <= k < |s| => if k == j then s[i] else if j < k <= i then s[k - 1] else s[k])
  }

  lemma InsertedPermutation(s: seq<nat>, j: nat, i: nat)
    requires j <= i < |s| && Permutation(s, |s|)
    ensures Permutation(Inserted(s, j, i), |s|)
  {
  }

  lemma {:induction false} InsertedOrdered(ids: seq<bytes>, s: seq<nat>, j: nat, i: nat)
    requires j <= i < |s| == |ids| && Permutation(s, |s|) && OrderedTo(ids, s, i)
    requires j > 0 ==> Lex.Compare(ids[s[j - 1]], ids[s[i]]) <= 0
    requires forall k | j <= k < i :: Lex.Compare(ids[s[k]], ids[s[i]]) > 0
    ensures Permutation(Inserted(s, j, i), |s|) && OrderedTo(ids, Inserted(s, j, i), i + 1)
  {
    InsertedPermutation(s, j, i);
    var r := Inserted(s, j, i);
    forall a, b | 0 <= a < b < i + 1 ensures Lex.Compare(ids[r[a]], ids[r[b]]) <= 0 {
      if b == j {
        if a < j - 1 { Lex.Transitive(ids[s[a]], ids[s[j - 1]], ids[s[i]]); }
      } else if a == j {
        Lex.Antisymmetric(ids[s[b - 1]], ids[s[i]]);
      } else {
        var a', b' := if a < j then a else a - 1, if b < j then b else b - 1;
        assert Lex.Compare(ids[s[a']], ids[s[b']]) <= 0;
      }
    }
  }
}
