/** The content of tree objects: "<octal mode> <name> NUL <32-byte id>" for each entry (src/object/tree.c and
    src/index/index.c). */
module TreeFormat {
  import opened Bytes

  const DIRECTORY := 0x4000
  const SPACE: byte := 32
  const MODE_LIMIT := 16

  datatype TreeEntry = TreeEntry(name: bytes, mode: nat, oid: bytes)

  /** What a tree entry can hold: the name is a C string. */
  ghost predicate Printable(e: TreeEntry) {
    0 !in e.name && e.mode < TWO32 && |e.oid| == ID_SIZE
  }

  // ----- octal modes -----

  predicate IsOctal(b: byte) {
    48 <= b <= 55
  }

  function Octal(n: nat): (s: bytes)
    ensures |s| >= 1 && forall i | 0 <= i < |s| :: IsOctal(s[i])
  {
    if n < 8 then [48 + n] else Octal(n / 8) + [48 + n % 8]
  }

  /** Octal notation: digit i from the right is that of 8^i, and there is no leading zero. */
  lemma {:induction false} OctalAt(n: nat, i: nat)
    requires i < |Octal(n)|
    ensures Octal(n)[|Octal(n)| - 1 - i] == Ascii("0")[0] + n / Power(8, i) % 8
    ensures |Octal(n)| > 1 ==> Octal(n)[0] != Ascii("0")[0]
    decreases n, i
  {
    if n >= 8 {
      var init := Octal(n / 8);
      if i > 0 {
        OctalAt(n / 8, i - 1);
        PowerDiv(n, 8, i);
      } else {
        OctalAt(n / 8, 0);
      }
      if |init| == 1 { assert n / 8 == init[0] - 48; }
    }
  }

  /** The mode of a directory is printed as 40000. */
  lemma DirectoryMode()
    ensures Octal(DIRECTORY) == Ascii("40000")
  {
    assert Octal(4) == [52] && Octal(32) == [52, 48] && Octal(256) == [52, 48, 48] && Octal(2048) == [52, 48, 48, 48];
  }

  /** A printed entry: the mode in octal, a space, the name, a NUL, the id. */
  lemma EntryParts(e: TreeEntry)
    ensures var s, m := PrintEntry(e), |Octal(e.mode)|;
      && |s| == m + 1 + |e.name| + 1 + |e.oid| && s[..m] == Octal(e.mode) && s[m] == Ascii(" ")[0]
      && s[m + 1..m + 1 + |e.name|] == e.name && s[m + 1 + |e.name|] == 0 && s[m + 2 + |e.name|..] == e.oid
  {
    hide Octal;
  }

  /** The octal digits at the front of s, read onto v. */
  function OctalFrom(s: bytes, v: nat): nat {
    if s == [] || !IsOctal(s[0]) then v else OctalFrom(s[1..], 8 * v + (s[0] as int - 48))
  }

  /** strtoul in base 8, cut to 32 bits. There are fewer than 16 digits, so it never saturates. */
  function Strtoul(s: bytes): nat {
    if s != [] && 9 <= s[0] <= 13 then Strtoul(s[1..])
    else if s != [] && s[0] == 43 then OctalFrom(s[1..], 0) % TWO32
    else if s != [] && s[0] == 45 then (TWO64 - OctalFrom(s[1..], 0) % TWO64) % TWO32
    else OctalFrom(s, 0) % TWO32
  }

  lemma {:induction false} OctalAppend(s: bytes, d: byte, v: nat)
    requires IsOctal(d) && forall i | 0 <= i < |s| :: IsOctal(s[i])
    ensures OctalFrom(s + [d], v) == 8 * OctalFrom(s, v) + (d - 48)
  {
    if s == [] {
      assert s + [d] == [d] && [d][1..] == [];
      assert OctalFrom([d], v) == OctalFrom([], 8 * v + (d as int - 48));
    } else {
      assert (s + [d])[1..] == s[1..] + [d];
      OctalAppend(s[1..], d, 8 * v + (s[0] as int - 48));
    }
  }

  lemma {:induction false} OctalRoundTrip(n: nat)
    ensures OctalFrom(Octal(n), 0) == n
  {
    if n < 8 {
      assert Octal(n)[1..] == [];
    } else {
      OctalRoundTrip(n / 8);
      OctalAppend(Octal(n / 8), 48 + n % 8, 0);
    }
  }

  lemma ModeRoundTrip(n: nat)
    requires n < TWO32
    ensures Strtoul(Octal(n)) == n
  {
    OctalRoundTrip(n);
  }

  /** 32 bits are at most eleven octal digits. */
  lemma {:induction false} OctalShort(n: nat)
    requires n < TWO32
    ensures |Octal(n)| <= 11
  {
    var n3 := n / 8 / 8 / 8;
    var n6 := n3 / 8 / 8 / 8;
    var n9 := n6 / 8 / 8 / 8;
    assert n9 < 64;
    assert |Octal(n9)| <= 2;
    ThreeMore(n6);
    ThreeMore(n3);
    ThreeMore(n);
  }

  lemma ThreeMore(n: nat)
    ensures |Octal(n)| <= |Octal(n / 8 / 8 / 8)| + 3
  {
    assert |Octal(n / 8)| <= |Octal(n / 8 / 8)| + 1;
  }

  // ----- printing -----

  function PrintEntry(e: TreeEntry): (s: bytes)
    ensures |s| >= 3
  {
    Octal(e.mode) + ([SPACE] + (e.name + ([0] + e.oid)))
  }

  function Print(es: seq<TreeEntry>): bytes {
    if es == [] then [] else PrintEntry(es[0]) + Print(es[1..])
  }

  // ----- parsing -----

  /** The first place of b in s, or |s|. */
  function Index(s: bytes, b: byte): (i: nat)
    ensures i <= |s| && (i < |s| ==> s[i] == b) && (i == |s| <==> b !in s)
  {
    if s == [] || s[0] == b then 0 else 1 + Index(s[1..], b)
  }

  lemma {:induction false} IndexAfter(a: bytes, b: byte, rest: bytes)
    requires b !in a
    ensures Index(a + [b] + rest, b) == |a|
  {
    if a == [] {
      assert a + [b] + rest == [b] + rest;
    } else {
      assert (a + [b] + rest)[1..] == a[1..] + [b] + rest;
      IndexAfter(a[1..], b, rest);
    }
  }

  /** One entry at the front of s. A malformed entry ends the tree without an error; only a mode of 16 or
      more characters is one. */
  datatype Step = Entry(e: TreeEntry, rest: bytes) | End | TooLong

  function ParseEntry(s: bytes): (r: Step)
    ensures r.Entry? ==> |r.rest| < |s|
  {
    var sp := Index(s, SPACE);
    if sp == |s| then End
    else if sp >= MODE_LIMIT then TooLong
    else
      var t := s[sp + 1..];
      var n := Index(t, 0);
      if n == |t| || |t| < n + 1 + ID_SIZE then End
      else Entry(TreeEntry(t[..n], Strtoul(s[..sp]), t[n + 1..n + 1 + ID_SIZE]), t[n + 1 + ID_SIZE..])
  }

  function Parse(s: bytes): Result<seq<TreeEntry>>
    decreases |s|
  {
    match ParseEntry(s)
    case TooLong => Err(ERROR)
    case End => Ok([])
    case Entry(e, rest) =>
      After([e], Parse(rest))
  }

  /** The entries read so far, before the rest. */
  function After(es: seq<TreeEntry>, r: Result<seq<TreeEntry>>): Result<seq<TreeEntry>> {
    match r case Err(x) => Err(x) case Ok(more) => Ok(es + more)
  }

  lemma AfterNone(r: Result<seq<TreeEntry>>)
    ensures After([], r) == r
  {
    if r.Ok? { assert [] + r.value == r.value; }
  }

  lemma AfterAfter(es: seq<TreeEntry>, fs: seq<TreeEntry>, r: Result<seq<TreeEntry>>)
    ensures After(es, After(fs, r)) == After(es + fs, r)
  {
    if r.Ok? { assert es + (fs + r.value) == es + fs + r.value; }
  }

  /** What the two searches find decides the entry. */
  lemma ParseAt(s: bytes, sp: nat, t: bytes, n: nat)
    requires sp < |s| && Index(s, SPACE) == sp < MODE_LIMIT && t == s[sp + 1..]
    requires Index(t, 0) == n && n + 1 + ID_SIZE <= |t|
    ensures ParseEntry(s) == Entry(TreeEntry(t[..n], Strtoul(s[..sp]), t[n + 1..n + 1 + ID_SIZE]), t[n + 1 + ID_SIZE..])
  {
    hide Index, Strtoul;
  }

  lemma {:induction false} EntryRoundTrip(e: TreeEntry, rest: bytes)
    requires Printable(e)
    ensures ParseEntry(PrintEntry(e) + rest) == Entry(e, rest)
  {
    hide Octal, Strtoul, Index, ParseEntry;
    var s, m := PrintEntry(e) + rest, Octal(e.mode);
    var t := e.name + [0] + (e.oid + rest);
    OctalShort(e.mode);
    ModeRoundTrip(e.mode);
    NoSpace(e.mode);
    Pieces(s, m, e.name, e.oid, rest, t);
    IndexAfter(m, SPACE, t);
    IndexAfter(e.name, 0, e.oid + rest);
    ParseAt(s, |m|, t, |e.name|);
  }

  /** Reading what is no printed entry: any mode text of fewer than 16 bytes counts, as strtoul reads it; a
      longer one is an error, and an entry that is cut off ends the tree. */
  lemma {:induction false} ParsesText(mode: bytes, name: bytes, oid: bytes, rest: bytes)
    requires SPACE !in mode && 0 !in name && |oid| <= ID_SIZE
    ensures ParseEntry(mode) == End
    ensures |mode| >= 16 ==> ParseEntry(mode + [SPACE] + rest) == TooLong
    ensures |mode| < 16 ==> ParseEntry(mode + [SPACE] + name) == End
    ensures |mode| < 16 && |oid| < ID_SIZE ==> ParseEntry(mode + [SPACE] + (name + [0] + oid)) == End
    ensures |mode| < 16 && |oid| == ID_SIZE ==>
      ParseEntry(mode + ([SPACE] + (name + ([0] + oid))) + rest) == Entry(TreeEntry(name, Strtoul(mode), oid), rest)
  {
    hide Strtoul, Index;
    IndexFits(mode, SPACE);
    IndexFits(name, 0);
    IndexAfter(mode, SPACE, rest);
    IndexAfter(mode, SPACE, name);
    assert (mode + [SPACE] + name)[|mode| + 1..] == name;
    var u := name + [0] + oid;
    IndexAfter(mode, SPACE, u);
    IndexAfter(name, 0, oid);
    assert (mode + [SPACE] + u)[|mode| + 1..] == u;
    if |mode| < 16 && |oid| == ID_SIZE {
      var s, t := mode + ([SPACE] + (name + ([0] + oid))) + rest, name + [0] + (oid + rest);
      Pieces(s, mode, name, oid, rest, t);
      IndexAfter(mode, SPACE, t);
      IndexAfter(name, 0, oid + rest);
      ParseAt(s, |mode|, t, |name|);
    }
  }

  lemma Pieces(s: bytes, m: bytes, name: bytes, oid: bytes, rest: bytes, t: bytes)
    requires s == m + ([SPACE] + (name + ([0] + oid))) + rest && t == name + [0] + (oid + rest) && |oid| == ID_SIZE
    ensures s == m + [SPACE] + t && s[..|m|] == m && s[|m| + 1..] == t && |s| > |m|
    ensures var n := |name|; t[..n] == name && t[n + 1..n + 1 + ID_SIZE] == oid && t[n + 1 + ID_SIZE..] == rest
  {
    assert s == m + ([SPACE] + t);
  }

  lemma NoSpace(n: nat)
    ensures SPACE !in Octal(n) && |Octal(n)| >= 1
  {
  }

  /** Printing and parsing a list of entries gives it back. */
  lemma {:induction false} RoundTrip(es: seq<TreeEntry>)
    requires forall e <- es :: Printable(e)
    ensures Parse(Print(es)) == Ok(es)
  {
    hide PrintEntry, ParseEntry;
    if es == [] {
      assert Print(es) == [];
      ParseNothing();
    } else {
      RoundTrip(es[1..]);
      EntryRoundTrip(es[0], Print(es[1..]));
      assert [es[0]] + es[1..] == es;
    }
  }

  /** Whatever cannot be read after the entries ends the tree silently, or fails. */
  lemma {:induction false} TailDropped(es: seq<TreeEntry>, junk: bytes)
    requires (forall e <- es :: Printable(e)) && !ParseEntry(junk).Entry?
    ensures Parse(Print(es) + junk) == if ParseEntry(junk) == End then Ok(es) else Err(ERROR)
    decreases es
  {
    hide PrintEntry, ParseEntry;
    if es == [] {
      assert Print(es) + junk == junk;
    } else {
      TailDropped(es[1..], junk);
      EntryRoundTrip(es[0], Print(es[1..]) + junk);
      assert Print(es) + junk == PrintEntry(es[0]) + (Print(es[1..]) + junk);
      assert [es[0]] + es[1..] == es;
    }
  }

  /** The only error. */
  lemma {:induction false} OnlyTooLong(s: bytes)
    ensures Parse(s).Err? ==> Parse(s) == Err(ERROR)
    decreases |s|
  {
    hide Index, Strtoul;
    EntryShrinks(s);
    match ParseEntry(s)
    case Entry(_, rest) => OnlyTooLong(rest);
    case _ =>
  }

  lemma ParseNothing()
    ensures Parse([]) == Ok([])
  {
    assert Index([], SPACE) == 0;
    assert ParseEntry([]) == End;
  }

  /** The position memchr finds. */
  method Memchr(s: bytes, from: nat, b: byte) returns (i: nat)
    requires from <= |s|
    ensures i == from + Index(s[from..], b)
  {
    i := from;
    while i < |s| && s[i] != b
      invariant from <= i <= |s| && from + Index(s[from..], b) == i + Index(s[i..], b)
    {
      assert s[i..][1..] == s[i + 1..];
      i := i + 1;
    }
  }

  /** One turn of the parsing loop. */
  method ReadEntry(s: bytes) returns (r: Step)
    ensures r == ParseEntry(s)
  {
    hide Index, Strtoul;
    IndexFits(s, SPACE);
    var sp := Memchr(s, 0, SPACE);
    assert s[0..] == s;
    if sp == |s| { return End; }
    if sp >= MODE_LIMIT { return TooLong; }
    var mode := Strtoul(s[..sp]);
    var t := s[sp + 1..];
    IndexFits(t, 0);
    var n := Memchr(t, 0, 0);
    assert t[0..] == t;
    if n == |t| || |t| - (n + 1) < ID_SIZE { return End; }
    r := Entry(TreeEntry(t[..n], mode, t[n + 1..n + 1 + ID_SIZE]), t[n + 1 + ID_SIZE..]);
  }

  /** Whatever is parsed, its modes have 32 bits. */
  lemma {:induction false} ParsedModes(s: bytes)
    ensures Parse(s).Ok? ==> forall e <- Parse(s).value :: e.mode < TWO32
    decreases |s|
  {
    hide ParseEntry;
    EntryMode(s);
    match ParseEntry(s)
    case Entry(_, rest) =>
      ParsedModes(rest);
    case _ =>
  }

  lemma EntryMode(s: bytes)
    ensures ParseEntry(s).Entry? ==> ParseEntry(s).e.mode < TWO32 && |ParseEntry(s).rest| < |s|
  {
    hide Strtoul, Index;
    if ParseEntry(s).Entry? { StrtoulFits(s[..Index(s, SPACE)]); }
  }

  lemma {:induction false} StrtoulFits(s: bytes)
    ensures Strtoul(s) < TWO32
  {
    if s != [] && 9 <= s[0] <= 13 { StrtoulFits(s[1..]); }
  }

  /** The parsing loop over an object's content. */
  method ParseContent(s: bytes) returns (r: Result<seq<TreeEntry>>)
    ensures r == Parse(s)
  {
    hide ParseEntry;
    var p: bytes, es: seq<TreeEntry> := s, [];
    AfterNone(Parse(s));
    while p != []
      invariant Parse(s) == After(es, Parse(p))
      decreases |p|
    {
      var step := ReadEntry(p);
      EntryShrinks(p);
      match step
      case End =>
        assert es + [] == es;
        return Ok(es);
      case TooLong => return Err(ERROR);
      case Entry(e, rest) =>
        AfterAfter(es, [e], Parse(rest));
        es, p := es + [e], rest;
    }
    ParseNothing();
    assert es + [] == es;
    r := Ok(es);
  }

  lemma EntryShrinks(s: bytes)
    ensures ParseEntry(s).Entry? ==> |ParseEntry(s).rest| < |s|
  {
  }

  lemma IndexFits(s: bytes, b: byte)
    ensures Index(s, b) <= |s| && (Index(s, b) == |s| <==> b !in s)
  {
  }

  /** The writing loop. */
  method PrintContent(es: seq<TreeEntry>) returns (out: bytes)
    ensures out == Print(es)
  {
    hide Octal, PrintEntry;
    out := [];
    var i := 0;
    while i < |es|
      invariant i <= |es| && Print(es) == out + Print(es[i..])
    {
      assert es[i..][1..] == es[i + 1..] && es[i..][0] == es[i];
      out := PrintOne(out, es[i]);
      i := i + 1;
    }
    assert es[i..] == [];
  }

  method PrintOne(out: bytes, e: TreeEntry) returns (more: bytes)
    ensures more == out + PrintEntry(e)
  {
    more := out + Octal(e.mode);
    more := more + [SPACE];
    more := more + e.name;
    more := more + [0];
    more := more + e.oid;
  }
}
