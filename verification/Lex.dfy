/** The byte order of memcmp and strcmp, and sorting by it. */
module Lex {
  import opened Bytes

  /** memcmp on equal lengths, strcmp on NUL-free strings: the sign of the first difference. */
  function Compare(a: bytes, b: bytes): (c: int)
    ensures c == 0 <==> a == b
    ensures -1 <= c <= 1
  {
    if a == [] then (if b == [] then 0 else -1)
    else if b == [] then 1
    else if a[0] < b[0] then -1
    else if a[0] > b[0] then 1
    else
      var c := Compare(a[1..], b[1..]);
      assert c == 0 ==> a == [a[0]] + a[1..] == [b[0]] + b[1..] == b;
      c
  }

  lemma {:induction false} Antisymmetric(a: bytes, b: bytes)
    ensures Compare(a, b) == -Compare(b, a)
    decreases |a|
  {
    if a != [] && b != [] && a[0] == b[0] { Antisymmetric(a[1..], b[1..]); }
  }

  lemma {:induction false} Transitive(a: bytes, b: bytes, c: bytes)
    requires Compare(a, b) <= 0 && Compare(b, c) <= 0
    ensures Compare(a, c) <= 0
    decreases |a|
  {
    if a != [] && c != [] && b != [] && a[0] == b[0] == c[0] { Transitive(a[1..], b[1..], c[1..]); }
  }

  /** a is a proper beginning of b, or has the smaller byte where they first differ. */
  ghost predicate Before(a: bytes, b: bytes) {
    (|a| < |b| && a == b[..|a|])
    || exists k :: 0 <= k < |a| && k < |b| && a[..k] == b[..k] && a[k] < b[k]
  }

  /** The order, without recursion. */
  lemma {:induction false} CompareIsBefore(a: bytes, b: bytes)
    ensures Compare(a, b) < 0 <==> Before(a, b)
    ensures Compare(a, b) > 0 <==> Before(b, a)
    decreases |a|
  {
    if a != [] && b != [] && a[0] == b[0] {
      CompareIsBefore(a[1..], b[1..]);
      BeforeTail(a, b);
      BeforeTail(b, a);
    } else if a != [] && b != [] {
      assert a[..0] == b[..0];
      assert forall k | 0 < k <= |a| && k <= |b| :: a[..k] == b[..k] ==> a[..k][0] == b[..k][0];
    }
  }

  lemma {:induction false} BeforeTail(a: bytes, b: bytes)
    requires a != [] && b != [] && a[0] == b[0]
    ensures Before(a, b) <==> Before(a[1..], b[1..])
  {
    var c, d := a[1..], b[1..];
    if k :| 0 <= k < |a| && k < |b| && a[..k] == b[..k] && a[k] < b[k] {
      assert a[..k][1..] == c[..k - 1] && b[..k][1..] == d[..k - 1];
      assert c[k - 1] < d[k - 1];
    }
    if k :| 0 <= k < |c| && k < |d| && c[..k] == d[..k] && c[k] < d[k] {
      assert a[..k + 1] == [a[0]] + c[..k] && b[..k + 1] == [b[0]] + d[..k];
      assert a[k + 1] < b[k + 1];
    }
    if |a| < |b| && a == b[..|a|] { assert c == b[..|a|][1..] == d[..|c|]; }
    if |c| < |d| && c == d[..|c|] { assert a == [a[0]] + c == b[..|a|]; }
  }
}
