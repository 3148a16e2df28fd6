/** Bytes, fixed integer widths and the small result types every other module uses. */
module Bytes {
  type byte = x: int | 0 <= x < 256 witness 0
  type bytes = seq<byte>

  const TWO24: nat := 0x100_0000
  const TWO30: nat := 0x4000_0000
  const TWO31: nat := 0x8000_0000
  const TWO32: nat := 0x1_0000_0000
  const TWO60: nat := 0x1000_0000_0000_0000
  const TWO61: nat := 0x2000_0000_0000_0000
  const TWO64: nat := 0x1_0000_0000_0000_0000

  /** The length of an object id. */
  const ID_SIZE: nat := 32

  datatype Option<+T> = None | Some(value: T)

  /** The source's return codes that the modelled functions can produce. */
  datatype Error = EINVAL | ENOENT | EIO | EBUSY | EUNSUPPORTED | EOVERFLOW | ERROR

  datatype Result<+T> = Ok(value: T) | Err(error: Error)

  function Pow2(k: nat): (r: nat)
    ensures r >= 1
  {
    if k == 0 then 1 else 2 * Pow2(k - 1)
  }

  function Power(b: nat, k: nat): (r: nat)
    requires b > 0
    ensures r >= 1
  {
    if k == 0 then 1 else (MulAtLeast(b, Power(b, k - 1)); b * Power(b, k - 1))
  }

  /** One digit further is one digit of the quotient. */
  lemma {:induction false} PowerDiv(x: nat, b: nat, k: nat)
    requires b > 0 && k > 0
    ensures x / b / Power(b, k - 1) == x / Power(b, k)
  {
    DivDiv(x, b, Power(b, k - 1));
  }

  function Min(a: int, b: int): int {
    if a <= b then a else b
  }

  lemma {:induction false} Pow2Step7(k: nat)
    ensures Pow2(k + 7) == 0x80 * Pow2(k)
  {
    assert Pow2(k + 7) == 2 * Pow2(k + 6);
    assert Pow2(k + 5) == 2 * Pow2(k + 4);
    assert Pow2(k + 3) == 2 * Pow2(k + 2);
    assert Pow2(k + 1) == 2 * Pow2(k);
  }

  lemma {:induction false} ModAdd(a: nat, c: nat, m: nat)
    requires m > 0
    ensures (a % m + c) % m == (a + c) % m
  {
    var q := a / m;
    assert a + c == (a % m + c) + q * m;
    ModShift(a % m + c, q, m);
  }

  lemma {:induction false} ModShift(x: nat, q: nat, m: nat)
    requires m > 0
    ensures (x + q * m) % m == x % m
    decreases q
  {
    if q > 0 {
      ModShift(x, q - 1, m);
      assert x + q * m == (x + (q - 1) * m) + m;
      ModOne(x + (q - 1) * m, m);
    }
  }

  lemma {:induction false} ModOne(y: nat, m: nat)
    requires m > 0
    ensures (y + m) % m == y % m
  {
    var q, r := y / m, y % m;
    assert y + m == (q + 1) * m + r;
    DivModUnique(y + m, m, q + 1, r);
  }

  lemma {:induction false} DivModUnique(x: int, m: int, q: int, r: int)
    requires m > 0 && 0 <= r < m && x == q * m + r
    ensures x / m == q && x % m == r
  {
    var d := x / m - q;
    assert x == (x / m) * m + x % m;
    assert d * m == r - x % m by { assert d * m == (x / m) * m - q * m; }
    if d != 0 {
      FarFromZero(d, m);
    }
  }

  lemma {:induction false} FarFromZero(d: int, m: int)
    requires m > 0 && d != 0
    ensures d * m >= m || d * m <= -m
  {
    if d > 0 {
      MulAtLeast(d, m);
    } else {
      MulAtLeast(-d, m);
      assert (-d) * m == -(d * m);
    }
  }

  lemma {:induction false} MulAtLeast(d: nat, m: nat)
    requires d >= 1
    ensures d * m >= m
  {
    assert d * m == (d - 1) * m + m;
  }

  lemma MulNat(a: nat, b: nat)
    ensures 0 <= a * b
  {
  }

  lemma {:induction false} DivDiv(x: nat, a: nat, b: nat)
    requires a > 0 && b > 0
    ensures a * b > 0 && x / a / b == x / (a * b)
  {
    var t := x / a;
    DivMod(x, a);
    DivMod(t, b);
    Composed(x, a, b, t, t / b, t % b, x % a);
  }

  lemma DivMod(x: nat, m: nat)
    requires m > 0
    ensures x == x / m * m + x % m
  {
  }

  /** A number with quotient q by a * b. */
  lemma {:induction false} Composed(x: nat, a: nat, b: nat, t: nat, q: nat, s: nat, r: nat)
    requires s < b && r < a && t == q * b + s && x == t * a + r
    ensures a * b > 0 && x / (a * b) == q
  {
    MulAtLeast(b, a);
    assert b * a == a * b;
    SmallProduct(s, a, b);
    MulNat(s, a);
    Distribute(t, q, b, s, a);
    DivModUnique(x, a * b, q, s * a + r);
  }

  lemma {:induction false} Distribute(t: nat, q: nat, b: nat, s: nat, a: nat)
    requires t == q * b + s
    ensures t * a == q * (a * b) + s * a
  {
    assert t * a == (q * b) * a + s * a;
    Associate(q, b, a);
  }

  lemma Associate(q: nat, b: nat, a: nat)
    ensures (q * b) * a == q * (a * b)
  {
  }

  lemma {:induction false} SmallProduct(s: nat, a: nat, b: nat)
    requires s < b && a > 0
    ensures s * a <= a * b - a
  {
    MulNat(b - 1 - s, a);
    assert (b - 1 - s) * a == a * b - a - s * a;
  }

  function Upto(n: nat): (s: set<nat>)
    ensures |s| == n && forall x :: x in s <==> 0 <= x < n
  {
    if n == 0 then {} else Upto(n - 1) + {n - 1}
  }

  lemma UptoGrows(n: nat)
    ensures |Upto(n)| == n && n !in Upto(n) && Upto(n + 1) == Upto(n) + {n} && Upto(0) == {}
  {
  }

  lemma {:induction false} Subset<T>(a: set<T>, b: set<T>)
    requires a <= b
    ensures |a| <= |b|
  {
    assert b == a + (b - a);
  }

  lemma SliceOfSlice<T>(s: seq<T>, p: nat, n: nat, o: nat, w: nat)
    requires p + n <= |s| && o + w <= n
    ensures s[p..p + n][o..o + w] == s[p + o..p + o + w]
  {
    var part := s[p..p + n];
    var a, b := part[o..o + w], s[p + o..p + o + w];
    forall k | 0 <= k < w ensures a[k] == b[k] {
      assert part[o + k] == s[p + (o + k)];
    }
  }

  function Zeros(n: nat): (z: bytes)
    ensures |z| == n && forall i | 0 <= i < n :: z[i] == 0
  {
    seq(n, _ => 0)
  }

  lemma Shift<T>(a: seq<T>, x: T, b: seq<T>)
    ensures a + ([x] + b) == a + [x] + b
  {
  }

  function CharByte(c: char): byte
    requires c < 128 as char
  {
    c as int
  }

  /** The bytes of a text. */
  function Ascii(text: string): (b: bytes)
    requires forall i | 0 <= i < |text| :: text[i] < 128 as char
    ensures |b| == |text| && forall i | 0 <= i < |text| :: b[i] == text[i] as int
  {
    seq(|text|, i requires 0 <= i < |text| => CharByte(text[i]))
  }

  // ----- big-endian words -----

  function BigEndian32(b: bytes): (n: nat)
    requires |b| == 4
    ensures n < TWO32
  {
    0x1000000 * (b[0] as int) + 0x10000 * (b[1] as int) + 0x100 * (b[2] as int) + b[3]
  }

  function BE32(x: nat): (b: bytes)
    ensures |b| == 4
  {
    var a := x / 0x100;
    var b := a / 0x100;
    [b / 0x100 % 0x100, b % 0x100, a % 0x100, x % 0x100]
  }

  /** The most significant byte comes first. */
  lemma BE32Bytes(x: nat)
    requires x < TWO32
    ensures BE32(x) == [x / 0x100_0000, x / 0x1_0000 % 0x100, x / 0x100 % 0x100, x % 0x100]
  {
  }

  lemma BE32RoundTrip(x: nat)
    requires x < TWO32
    ensures BigEndian32(BE32(x)) == x
  {
  }
}
