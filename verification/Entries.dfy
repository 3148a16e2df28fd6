/** Index entries, the order of the index, and the plain map a list of entries stands for. */
module Entries {
  import opened Bytes
  import Lex

  type u32 = x: int | 0 <= x < 0x1_0000_0000 witness 0
  type u16 = x: int | 0 <= x < 0x1_0000 witness 0

  /** The stat fields of an entry, in their order on disk (mode sits between ino and uid there). */
  datatype Stat = Stat(ctimeSec: u32, ctimeNsec: u32, mtimeSec: u32, mtimeNsec: u32, dev: u32, ino: u32,
                       uid: u32, gid: u32)

  datatype Entry = Entry(oid: bytes, path: bytes, mode: u32, stage: nat, stat: Stat, size: u32, flags: u16,
                         flagsExtended: u16)

  datatype Key = Key(path: bytes, stage: nat)

  function KeyOf(e: Entry): Key {
    Key(e.path, e.stage)
  }

  function Keys(es: seq<Entry>): (ks: seq<Key>)
    ensures |ks| == |es| && forall i | 0 <= i < |es| :: ks[i] == KeyOf(es[i])
  {
    seq(|es|, i requires 0 <= i < |es| => KeyOf(es[i]))
  }

  ghost predicate Distinct(es: seq<Entry>) {
    forall i, j | 0 <= i < j < |es| :: KeyOf(es[i]) != KeyOf(es[j])
  }

  /** The plain map from (path, stage) to entry. */
  ghost function Model(es: seq<Entry>): map<Key, Entry> {
    if es == [] then map[]
    else Model(es[..|es| - 1])[KeyOf(es[|es| - 1]) := es[|es| - 1]]
  }

  /** For distinct keys the map holds exactly the entries. */
  lemma {:induction false} ModelHolds(es: seq<Entry>)
    requires Distinct(es)
    ensures forall i | 0 <= i < |es| :: KeyOf(es[i]) in Model(es) && Model(es)[KeyOf(es[i])] == es[i]
    ensures forall k <- Model(es) :: exists i :: 0 <= i < |es| && KeyOf(es[i]) == k
    decreases |es|
  {
    if es != [] {
      var n := |es| - 1;
      var init := es[..n];
      ModelHolds(init);
      forall i | 0 <= i < |es|
        ensures KeyOf(es[i]) in Model(es) && Model(es)[KeyOf(es[i])] == es[i]
      {
        if i < n { assert es[i] == init[i]; }
      }
      forall k <- Model(es) ensures exists i :: 0 <= i < |es| && KeyOf(es[i]) == k {
        if k != KeyOf(es[n]) {
          var i :| 0 <= i < |init| && KeyOf(init[i]) == k;
          assert KeyOf(es[i]) == k;
        }
      }
    }
  }

  /** Two lists with distinct keys and the same entries stand for the same map. */
  lemma {:induction false} SameEntriesSameModel(es: seq<Entry>, fs: seq<Entry>)
    requires Distinct(es) && Distinct(fs)
    requires forall e :: e in es <==> e in fs
    ensures Model(es) == Model(fs)
  {
    ModelHolds(es);
    ModelHolds(fs);
    forall k <- Model(es) ensures k in Model(fs) && Model(fs)[k] == Model(es)[k] {
      var i :| 0 <= i < |es| && KeyOf(es[i]) == k;
      assert es[i] in fs;
    }
    forall k <- Model(fs) ensures k in Model(es) {
      var i :| 0 <= i < |fs| && KeyOf(fs[i]) == k;
      assert fs[i] in es;
    }
  }

  lemma {:induction false} ModelReplace(es: seq<Entry>, i: nat, e: Entry)
    requires Distinct(es) && i < |es| && KeyOf(e) == KeyOf(es[i])
    ensures Distinct(es[i := e]) && Model(es[i := e]) == Model(es)[KeyOf(e) := e]
  {
    hide Model;
    var fs, m := es[i := e], Model(es)[KeyOf(e) := e];
    ModelHolds(es);
    forall k <- m ensures exists j :: 0 <= j < |fs| && KeyOf(fs[j]) == k {
      var j: nat := i;
      if k != KeyOf(e) { j :| 0 <= j < |es| && KeyOf(es[j]) == k; }
      assert KeyOf(fs[j]) == k;
    }
    ModelIs(fs, m);
  }

  lemma {:induction false} ModelAppend(es: seq<Entry>, e: Entry)
    requires Distinct(es) && KeyOf(e) !in Model(es)
    ensures Distinct(es + [e]) && Model(es + [e]) == Model(es)[KeyOf(e) := e]
  {
    ModelHolds(es);
    assert (es + [e])[..|es|] == es;
  }

  /** What swapping the last entry into a hole leaves. */
  function SwapOut(es: seq<Entry>, i: nat): seq<Entry>
    requires i < |es|
  {
    es[i := es[|es| - 1]][..|es| - 1]
  }

  lemma {:induction false} SwapOutEntries(es: seq<Entry>, i: nat)
    requires Distinct(es) && i < |es|
    ensures Distinct(SwapOut(es, i)) && |SwapOut(es, i)| == |es| - 1
    ensures forall j | 0 <= j < |es| - 1 :: SwapOut(es, i)[j] == if j == i then es[|es| - 1] else es[j]
  {
  }

  /** A map that holds exactly the entries of a list with distinct keys is its model. */
  lemma {:induction false} ModelIs(es: seq<Entry>, m: map<Key, Entry>)
    requires Distinct(es)
    requires forall i | 0 <= i < |es| :: KeyOf(es[i]) in m && m[KeyOf(es[i])] == es[i]
    requires forall k <- m :: exists i :: 0 <= i < |es| && KeyOf(es[i]) == k
    ensures Model(es) == m
  {
    ModelHolds(es);
    forall k <- m ensures k in Model(es) && Model(es)[k] == m[k] {
      var i :| 0 <= i < |es| && KeyOf(es[i]) == k;
    }
    forall k <- Model(es) ensures k in m {
      var i :| 0 <= i < |es| && KeyOf(es[i]) == k;
    }
  }

  lemma {:induction false} ModelSwapOut(es: seq<Entry>, i: nat)
    requires Distinct(es) && i < |es|
    ensures Distinct(SwapOut(es, i)) && Model(SwapOut(es, i)) == Model(es) - {KeyOf(es[i])}
  {
    hide SwapOut, Model;
    var fs, n := SwapOut(es, i), |es| - 1;
    SwapOutEntries(es, i);
    ModelHolds(es);
    var m := Model(es) - {KeyOf(es[i])};
    forall k <- m ensures exists j :: 0 <= j < |fs| && KeyOf(fs[j]) == k {
      var j :| 0 <= j < |es| && KeyOf(es[j]) == k;
      assert KeyOf(fs[if j == n then i else j]) == k;
    }
    ModelIs(fs, m);
  }

  // ----- the order of the index -----

  /** index_entry_cmp: path first, then stage. */
  function CompareEntries(a: Entry, b: Entry): int {
    var c := Lex.Compare(a.path, b.path);
    if c != 0 then c else a.stage - b.stage
  }

  ghost predicate Sorted(es: seq<Entry>) {
    forall i, j | 0 <= i < j < |es| :: CompareEntries(es[i], es[j]) <= 0
  }

  /** In order means: by path, and for the same path by stage. */
  lemma {:induction false} SortedMeans(es: seq<Entry>)
    ensures Sorted(es) <==> forall i, j | 0 <= i < j < |es| ::
      Lex.Before(es[i].path, es[j].path) || (es[i].path == es[j].path && es[i].stage <= es[j].stage)
  {
    hide Lex.Before;
    forall i, j | 0 <= i < j < |es|
      ensures CompareEntries(es[i], es[j]) <= 0
         <==> Lex.Before(es[i].path, es[j].path) || (es[i].path == es[j].path && es[i].stage <= es[j].stage)
    {
      Lex.CompareIsBefore(es[i].path, es[j].path);
    }
  }

  lemma {:induction false} CompareTransitive(a: Entry, b: Entry, c: Entry)
    requires CompareEntries(a, b) <= 0 && CompareEntries(b, c) <= 0
    ensures CompareEntries(a, c) <= 0
  {
    Lex.Transitive(a.path, b.path, c.path);
    if a.path == c.path { Lex.Antisymmetric(a.path, b.path); }
  }

  /** Stands for the library's qsort, of which only the result matters: the same entries, in order. */
  method Sort(es: seq<Entry>) returns (r: seq<Entry>)
    ensures Sorted(r) && multiset(r) == multiset(es)
  {
    r := [];
    for n := 0 to |es|
      invariant Sorted(r) && multiset(r) == multiset(es[..n])
    {
      assert es[..n + 1] == es[..n] + [es[n]];
      r := Place(r, es[n]);
    }
    assert es[..|es|] == es;
  }

  lemma {:induction false} PlacedBefore(es: seq<Entry>, e: Entry, k: nat)
    requires Sorted(es) && k <= |es|
    requires k > 0 ==> CompareEntries(es[k - 1], e) <= 0
    ensures forall i | 0 <= i < k :: CompareEntries(es[i], e) <= 0
  {
    forall i | 0 <= i < k ensures CompareEntries(es[i], e) <= 0 {
      if i < k - 1 { CompareTransitive(es[i], es[k - 1], e); }
    }
  }

  lemma {:induction false} PlacedAfter(es: seq<Entry>, e: Entry, k: nat)
    requires k <= |es| && forall j | k <= j < |es| :: CompareEntries(es[j], e) > 0
    ensures forall j | k <= j < |es| :: CompareEntries(e, es[j]) <= 0
  {
    forall j | k <= j < |es| ensures CompareEntries(e, es[j]) <= 0 {
      Lex.Antisymmetric(e.path, es[j].path);
    }
  }

  function InsertAt(es: seq<Entry>, e: Entry, k: nat): (r: seq<Entry>)
    requires k <= |es|
    ensures |r| == |es| + 1
    ensures forall i | 0 <= i < |r| :: r[i] == if i < k then es[i] else if i == k then e else es[i - 1]
  {
    es[..k] + [e] + es[k..]
  }

  lemma {:induction false} InsertKeeps(es: seq<Entry>, e: Entry, k: nat)
    requires k <= |es|
    ensures multiset(InsertAt(es, e, k)) == multiset(es) + multiset{e}
  {
    assert es == es[..k] + es[k..];
  }

  lemma {:induction false} InsertSorted(es: seq<Entry>, e: Entry, k: nat)
    requires Sorted(es) && k <= |es|
    requires k > 0 ==> CompareEntries(es[k - 1], e) <= 0
    requires forall j | k <= j < |es| :: CompareEntries(es[j], e) > 0
    ensures Sorted(InsertAt(es, e, k))
  {
    hide CompareEntries;
    PlacedBefore(es, e, k);
    PlacedAfter(es, e, k);
    var r := InsertAt(es, e, k);
    forall i, j | 0 <= i < j < |r| ensures CompareEntries(r[i], r[j]) <= 0 {
      if i != k && j != k {
        var i', j' := if i < k then i else i - 1, if j < k then j else j - 1;
        assert r[i] == es[i'] && r[j] == es[j'] && CompareEntries(es[i'], es[j']) <= 0;
      } else if i == k {
        assert r[j] == es[j - 1] && CompareEntries(e, es[j - 1]) <= 0;
      }
    }
  }

  method Place(es: seq<Entry>, e: Entry) returns (r: seq<Entry>)
    requires Sorted(es)
    ensures Sorted(r) && multiset(r) == multiset(es) + multiset{e}
  {
    hide CompareEntries, Sorted, InsertAt;
    var k := |es|;
    while k > 0 && CompareEntries(es[k - 1], e) > 0
      invariant 0 <= k <= |es|
      invariant forall j | k <= j < |es| :: CompareEntries(es[j], e) > 0
    {
      k := k - 1;
    }
    r := InsertAt(es, e, k);
    InsertSorted(es, e, k);
    InsertKeeps(es, e, k);
  }

  lemma {:induction false} SortedKeepsModel(es: seq<Entry>, fs: seq<Entry>)
    requires Distinct(es) && multiset(fs) == multiset(es)
    ensures Distinct(fs) && Model(fs) == Model(es)
  {
    if i, j :| 0 <= i < j < |fs| && KeyOf(fs[i]) == KeyOf(fs[j]) {
      Occurrences(es, fs[i], fs[j]);
      TwoPlaces(fs, i, j);
    }
    assert forall e :: e in fs <==> e in multiset(fs);
    SameEntriesSameModel(fs, es);
  }

  /** With distinct keys an entry occurs once, and a key in one entry. */
  lemma {:induction false} Occurrences(es: seq<Entry>, e: Entry, f: Entry)
    requires Distinct(es) && KeyOf(e) == KeyOf(f)
    ensures e in es && f in es ==> e == f
    ensures multiset(es)[e] <= 1
    decreases |es|
  {
    if es != [] {
      var n := |es| - 1;
      assert es == es[..n] + [es[n]];
      Occurrences(es[..n], e, f);
    }
  }

  lemma {:induction false} TwoPlaces(fs: seq<Entry>, i: nat, j: nat)
    requires i < j < |fs|
    ensures fs[i] == fs[j] ==> multiset(fs)[fs[i]] >= 2
    ensures fs[i] in multiset(fs) && fs[j] in multiset(fs)
  {
    assert fs == fs[..i] + [fs[i]] + fs[i + 1..j] + [fs[j]] + fs[j + 1..];
  }
}
