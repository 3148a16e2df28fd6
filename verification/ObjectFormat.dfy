/** Object types, the "<type> <size>" header, and the object id (src/object/object.c). */
module ObjectFormat {
  import opened Bytes
  import Sha256

  datatype Kind = Blob | Tree | Commit | Tag

  datatype Object = Object(kind: Kind, data: bytes)

  function TypeName(k: Kind): (s: bytes)
    ensures 3 <= |s| <= 6 && forall i | 0 <= i < |s| :: 97 <= s[i] <= 122
  {
    match k
    case Blob => [98, 108, 111, 98]
    case Tree => [116, 114, 101, 101]
    case Commit => [99, 111, 109, 109, 105, 116]
    case Tag => [116, 97, 103]
  }

  /** The names of the format, and their meaning; every other name counts as a blob. */
  lemma {:induction false} TypeNames(s: bytes)
    ensures TypeName(Blob) == Ascii("blob") && TypeName(Tree) == Ascii("tree")
    ensures TypeName(Commit) == Ascii("commit") && TypeName(Tag) == Ascii("tag")
    ensures s == Ascii("tree") || s == Ascii("commit") || s == Ascii("tag") ==> TypeName(KindFromName(s)) == s
    ensures s != Ascii("tree") && s != Ascii("commit") && s != Ascii("tag") ==> KindFromName(s) == Blob
  {
    NameRoundTrip(Tree);
    NameRoundTrip(Commit);
    NameRoundTrip(Tag);
    assert Ascii("blob") == TypeName(Blob) && Ascii("tree") == TypeName(Tree);
    assert Ascii("commit") == TypeName(Commit) && Ascii("tag") == TypeName(Tag);
  }

  /** Unknown names count as blobs. */
  function KindFromName(s: bytes): Kind {
    if s == TypeName(Tree) then Tree
    else if s == TypeName(Commit) then Commit
    else if s == TypeName(Tag) then Tag
    else Blob
  }

  lemma NameRoundTrip(k: Kind)
    ensures KindFromName(TypeName(k)) == k
  {
    var names := [TypeName(Blob), TypeName(Tree), TypeName(Commit), TypeName(Tag)];
    assert names[0][0] == 98 && names[1][1] == 114 && names[2][0] == 99 && names[3][1] == 97;
    assert |names[0]| == 4 && |names[1]| == 4 && |names[2]| == 6 && |names[3]| == 3;
  }

  // ----- decimal numbers -----

  predicate IsDigit(b: byte) {
    48 <= b <= 57
  }

  function Decimal(n: nat): (s: bytes)
    ensures |s| >= 1 && forall i | 0 <= i < |s| :: IsDigit(s[i])
  {
    if n < 10 then [48 + n] else Decimal(n / 10) + [48 + n % 10]
  }

  /** Decimal notation: digit i from the right is that of 10^i, and there is no leading zero. */
  lemma {:induction false} DecimalAt(n: nat, i: nat)
    requires i < |Decimal(n)|
    ensures Decimal(n)[|Decimal(n)| - 1 - i] == Ascii("0")[0] + n / Power(10, i) % 10
    ensures |Decimal(n)| > 1 ==> Decimal(n)[0] != Ascii("0")[0]
    decreases n, i
  {
    if n >= 10 {
      var init := Decimal(n / 10);
      if i > 0 {
        DecimalAt(n / 10, i - 1);
        PowerDiv(n, 10, i);
      } else {
        DecimalAt(n / 10, 0);
      }
      if |init| == 1 { assert n / 10 == init[0] - 48; }
    }
  }

  /** The number a run of digits continues, from what was read before. */
  function DigitsValue(s: bytes, n: nat): nat
    requires forall i | 0 <= i < |s| :: IsDigit(s[i])
  {
    if s == [] then n else (assert IsDigit(s[0]); DigitsValue(s[1..], 10 * n + (s[0] as int - 48)))
  }

  lemma {:induction false} DigitsAppend(s: bytes, d: byte, n: nat)
    requires IsDigit(d) && forall i | 0 <= i < |s| :: IsDigit(s[i])
    ensures DigitsValue(s + [d], n) == 10 * DigitsValue(s, n) + (d - 48)
  {
    if s == [] {
      assert s + [d] == [d] && [d][1..] == [];
    } else {
      assert (s + [d])[1..] == s[1..] + [d];
      DigitsAppend(s[1..], d, 10 * n + (s[0] as int - 48));
    }
  }

  lemma {:induction false} DecimalRoundTrip(n: nat)
    ensures DigitsValue(Decimal(n), 0) == n
  {
    if n < 10 {
      assert Decimal(n)[1..] == [];
    } else {
      DecimalRoundTrip(n / 10);
      DigitsAppend(Decimal(n / 10), 48 + n % 10, 0);
    }
  }

  // ----- the serialized object -----

  const SPACE: byte := 32

  function Header(k: Kind, size: nat): bytes {
    TypeName(k) + ([SPACE] + Decimal(size)) + [0]
  }

  function Serialize(k: Kind, data: bytes): bytes {
    Header(k, |data|) + data
  }

  /** The serialized form: the type name, a space, the size in decimal, a NUL, and the bytes. */
  lemma SerializedParts(k: Kind, data: bytes)
    ensures var s, name := Serialize(k, data), TypeName(k);
      var n := |name| + 1 + |Decimal(|data|)|;
      && |s| == n + 1 + |data| && s[..|name|] == name && s[|name|] == Ascii(" ")[0]
      && s[|name| + 1..n] == Decimal(|data|) && s[n] == 0 && s[n + 1..] == data
  {
    hide TypeName, Decimal;
  }

  /** The serializer takes the data pointer of an object without bytes that is no blob for a structure. */
  predicate ForStructure(k: Kind, data: bytes) {
    k != Blob && data == []
  }

  /** What writing an object comes to: an id, an error, or bytes of memory that are no structure read as one,
      after which C promises nothing. */
  datatype Written = Id(oid: bytes) | Refused(error: Error) | Misread

  predicate IsSpace(b: byte) {
    b == 32 || 9 <= b <= 13
  }

  /** Length of the leading run of s, up to `limit`, of bytes that are white space (or are not). */
  function Span(s: bytes, space: bool, limit: nat): (n: nat)
    ensures n <= |s| && n <= limit
    decreases limit
  {
    if s == [] || limit == 0 || IsSpace(s[0]) != space then 0 else 1 + Span(s[1..], space, limit - 1)
  }

  function DigitSpan(s: bytes): (n: nat)
    ensures n <= |s| && forall i | 0 <= i < n :: IsDigit(s[i])
  {
    if s == [] || !IsDigit(s[0]) then 0 else 1 + DigitSpan(s[1..])
  }

  lemma {:induction false} SpanAll(s: bytes, rest: bytes, space: bool, limit: nat)
    requires |s| <= limit && forall i | 0 <= i < |s| :: IsSpace(s[i]) == space
    requires rest == [] || IsSpace(rest[0]) != space
    ensures Span(s + rest, space, limit) == |s|
    decreases |s|
  {
    if s == [] {
      assert s + rest == rest;
    } else {
      assert (s + rest)[1..] == s[1..] + rest;
      SpanAll(s[1..], rest, space, limit - 1);
    }
  }

  lemma {:induction false} DigitSpanAll(s: bytes)
    requires forall i | 0 <= i < |s| :: IsDigit(s[i])
    ensures DigitSpan(s) == |s|
  {
    if s != [] { DigitSpanAll(s[1..]); }
  }

  /** `sscanf(header, "%15s %zu")`: a word of at most 15 bytes, then a number. A number too large for 64 bits
      saturates; signs are not modelled. */
  function ScanHeader(s: bytes): Option<(bytes, nat)> {
    var a := s[Span(s, true, |s|)..];
    var n := Span(a, false, 15);
    var b := a[n..];
    var c := b[Span(b, true, |b|)..];
    var m := DigitSpan(c);
    if n == 0 || m == 0 then None else Some((a[..n], Min(DigitsValue(c[..m], 0), TWO64 - 1)))
  }

  /** What sscanf reads in general: a word of at most 15 bytes and a number, white space before each; what follows
      the digits does not matter. */
  lemma {:induction false} ScanMeans(ws: bytes, word: bytes, gap: bytes, digits: bytes, rest: bytes)
    requires (forall b <- ws + gap :: IsSpace(b)) && (forall b <- word :: !IsSpace(b)) && 1 <= |word| <= 15 && gap != []
    requires (forall b <- digits :: IsDigit(b)) && digits != [] && (rest == [] || !IsDigit(rest[0]))
    ensures ScanHeader(ws + (word + (gap + (digits + rest)))) == Some((word, Min(DigitsValue(digits, 0), TWO64 - 1)))
  {
    var a := word + (gap + (digits + rest));
    var b := gap + (digits + rest);
    var s := ws + a;
    assert forall i | 0 <= i < |ws| :: ws[i] in ws + gap;
    assert forall i | 0 <= i < |gap| :: gap[i] in ws + gap;
    assert a[0] == word[0] && b[0] == gap[0] && (digits + rest)[0] == digits[0] && digits[0] in digits;
    SpanAll(ws, a, true, |s|);
    assert s[|ws|..] == a;
    SpanAll(word, b, false, 15);
    assert a[|word|..] == b && a[..|word|] == word;
    SpanAll(gap, digits + rest, true, |b|);
    assert b[|gap|..] == digits + rest;
    DigitSpanTo(digits, rest);
    assert (digits + rest)[..|digits|] == digits;
  }

  lemma {:induction false} DigitSpanTo(digits: bytes, rest: bytes)
    requires (forall b <- digits :: IsDigit(b)) && (rest == [] || !IsDigit(rest[0]))
    ensures DigitSpan(digits + rest) == |digits|
    decreases |digits|
  {
    if digits == [] {
      assert digits + rest == rest;
    } else {
      assert (digits + rest)[1..] == digits[1..] + rest;
      DigitSpanTo(digits[1..], rest);
    }
  }

  lemma {:induction false} ScanPrinted(k: Kind, size: nat)
    requires size < TWO64
    ensures ScanHeader(TypeName(k) + ([SPACE] + Decimal(size))) == Some((TypeName(k), size))
  {
    hide TypeName;
    LowerCase(k);
    var name, digits := TypeName(k), Decimal(size);
    var s := name + ([SPACE] + digits);
    SpanAll([], s, true, |s|);
    assert [] + s == s && s[0..] == s;
    SpanAll(name, [SPACE] + digits, false, 15);
    var b := [SPACE] + digits;
    assert s[|name|..] == b && s[..|name|] == name;
    SpanAll([SPACE], digits, true, |b|);
    assert b[1..] == digits;
    DigitSpanAll(digits);
    assert digits[..|digits|] == digits;
    DecimalRoundTrip(size);
  }

  lemma LowerCase(k: Kind)
    ensures 3 <= |TypeName(k)| <= 6 && forall i | 0 <= i < |TypeName(k)| :: 97 <= TypeName(k)[i] <= 122
  {
  }

  // ----- object ids -----

  /** The id of an object: the hash of its serialized form. */
  function OidOf(h: bytes -> bytes, k: Kind, data: bytes): bytes {
    h(Serialize(k, data))
  }

  /** fastgit_object_hash: one update with the whole serialized object. */
  method HashObject(f: Sha256.Transform, k: Kind, data: bytes) returns (r: Written)
    requires |Serialize(k, data)| < TWO61
    ensures ForStructure(k, data) <==> r == Misread
    ensures !ForStructure(k, data) ==> r == Id(Sha256.Digest(f, Serialize(k, data))) && |r.oid| == 32
  {
    hide Serialize, Sha256.Digest, Sha256.Fold, Sha256.Whole, Sha256.Rest;
    var ctx := new Sha256.Context(f);
    if ForStructure(k, data) { return Misread; }
    ctx.Update(Serialize(k, data));
    assert ctx.msg == Serialize(k, data);
    var oid := ctx.Final();
    r := Id(oid);
  }

  /** The blob id as the index computes it: the header first, then the content if there is any. It is the
      one-shot id of the same blob. */
  method HashBlobStreaming(f: Sha256.Transform, data: bytes) returns (oid: bytes)
    requires |Serialize(Blob, data)| < TWO61
    ensures oid == Sha256.Digest(f, Serialize(Blob, data)) && |oid| == 32
  {
    hide Header, Sha256.Digest, Sha256.Fold, Sha256.Whole, Sha256.Rest;
    var ctx := new Sha256.Context(f);
    ctx.Update(Header(Blob, |data|));
    if |data| > 0 { ctx.Update(data); }
    assert ctx.msg == Serialize(Blob, data);
    oid := ctx.Final();
  }
}
