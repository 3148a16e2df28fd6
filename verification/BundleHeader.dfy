/** The text header of a bundle, written and read back up to the pack that follows (src/bundle/bundle.c). */
module BundleHeader {
  import opened Bytes
  import opened TreeFormat
  import opened PktLine

  const FIRST_LINE: bytes := [35, 32, 118, 50, 32, 103, 105, 116, 32, 98, 117, 110, 100, 108, 101, 10]
  const MARK: bytes := [35, 32, 118, 50]
  const WRITE_BUFFER := 1024
  const READ_BUFFER := 4096

  function Line(r: Ref): bytes {
    ToHex(r.oid) + [SPACE] + r.name
  }

  function Lines(refs: seq<Ref>): bytes {
    if refs == [] then [] else Line(refs[0]) + ([LF] + Lines(refs[1..]))
  }

  function Header(refs: seq<Ref>): bytes {
    FIRST_LINE + Lines(refs) + [LF]
  }

  /** The line and its terminator fit the buffer it is printed into. */
  predicate Fits(r: Ref) {
    |Line(r)| + 1 < WRITE_BUFFER
  }

  /** Ids of at most 64 bytes, names without NUL and line feed. */
  predicate Plain(r: Ref) {
    |r.oid| <= 64 && 0 !in r.name && LF !in r.name
  }

  /** A ref line: the part before the first space is the id; lines that have none are skipped. */
  function ParseLine(line: bytes): Option<Ref> {
    var c := line[..Index(line, 0)];
    var sp := Index(c, SPACE);
    if |line| >= 5 && line[..4] == MARK then None
    else if sp == |c| then None
    else match FromHex(c[..sp])
      case Err(_) => None
      case Ok(oid) => Some(Ref(oid, c[sp + 1..]))
  }

  /** `rest` is what follows the empty line, or nothing at the end of the file; `Overrun` is a line too long
      for the buffer. */
  datatype Reading = Read(refs: seq<Ref>, rest: bytes) | Overrun

  function Prepend(r: Option<Ref>, k: Reading): Reading {
    if k.Overrun? || r.None? then k else Read([r.value] + k.refs, k.rest)
  }

  function ReadHeader(s: bytes): Reading
    decreases |s|
  {
    var n := Index(s, LF);
    if n == |s| then (if n > READ_BUFFER then Overrun else Read([], []))
    else if n + 1 >= READ_BUFFER then Overrun
    else if n == 0 then Read([], s[1..])
    else Prepend(ParseLine(s[..n]), ReadHeader(s[n + 1..]))
  }

  /** A line that holds this ref: an id in hexadecimal, a space, the name, and then the end or a NUL and anything. */
  ghost predicate HoldsRef(line: bytes, x: bytes, r: Ref, tail: bytes) {
    && line == x + ([SPACE] + (r.name + tail)) && FromHex(x) == Ok(r.oid)
    && 0 !in r.name && (tail == [] || tail[0] == 0)
  }

  /** Exactly these lines give a ref; the first line of the header starts with # v2. */
  lemma {:induction false} LineMeans(line: bytes, r: Ref)
    ensures ParseLine(line) == Some(r) <==>
      (exists x, tail :: HoldsRef(line, x, r, tail)) && !(|line| >= 5 && line[..4] == Ascii("# v2"))
  {
    hide ParseLine, HoldsRef;
    MarkIs();
    if ParseLine(line) == Some(r) { var x, tail := LineHolds(line, r); }
    if (exists x, tail :: HoldsRef(line, x, r, tail)) && !(|line| >= 5 && line[..4] == MARK) {
      var x, tail :| HoldsRef(line, x, r, tail);
      RefInLine(line, x, r, tail);
    }
  }

  lemma MarkIs()
    ensures MARK == Ascii("# v2") && FIRST_LINE == Ascii("# v2 git bundle\n")
  {
  }

  lemma {:induction false} LineHolds(line: bytes, r: Ref) returns (x: bytes, tail: bytes)
    requires ParseLine(line) == Some(r)
    ensures HoldsRef(line, x, r, tail) && !(|line| >= 5 && line[..4] == MARK)
  {
    hide FromHex, Index;
    var n := Index(line, 0);
    IndexFits(line, 0);
    NameCut(line);
    BeforeNul(line, n);
    var c := line[..n];
    var sp := Index(c, SPACE);
    IndexFits(c, SPACE);
    AtSpaceIn(c, sp);
    x, tail := c[..sp], line[n..];
    AtCut(c, sp);
    assert line == c + tail;
    assert c + tail == x + ([SPACE] + (r.name + tail));
    forall i | 0 <= i < |r.name| ensures r.name[i] != 0 { assert r.name[i] == c[sp + 1 + i]; }
  }

  lemma AtSpaceIn(c: bytes, sp: nat)
    requires sp == Index(c, SPACE)
    ensures sp <= |c| && (sp < |c| ==> c[sp] == SPACE)
  {
  }

  lemma {:induction false} RefInLine(line: bytes, x: bytes, r: Ref, tail: bytes)
    requires HoldsRef(line, x, r, tail) && !(|line| >= 5 && line[..4] == MARK)
    ensures ParseLine(line) == Some(r)
  {
    hide FromHex, Index;
    FromHexDigits(x);
    DigitsOnly(x);
    var c := x + [SPACE] + r.name;
    assert line == c + tail;
    NameEnds(c, tail);
    assert line[..|c|] == c;
    IndexAfter(x, SPACE, r.name);
    assert c[..|x|] == x && c[|x| + 1..] == r.name;
  }

  // ----- the round trip -----

  lemma {:induction false} LineParses(r: Ref)
    requires Plain(r)
    ensures ParseLine(Line(r)) == Some(r) && LF !in Line(r) && |Line(r)| > 0
  {
    hide ToHex, FromHex, Index;
    var x, line := ToHex(r.oid), Line(r);
    HexFacts(r.oid);
    DigitsOnly(x);
    HexRoundTrip(r.oid);
    NoNulIn(line);
    assert line[..|line|] == line;
    IndexAfter(x, SPACE, r.name);
    assert line[..|x|] == x && line[|x| + 1..] == r.name;
    if x != [] { assert line[0] == x[0]; }
    assert line[0] != 35;
  }

  lemma DigitsOnly(x: bytes)
    requires forall i | 0 <= i < |x| :: HexValue(x[i]) >= 0
    ensures 0 !in x && LF !in x && SPACE !in x && HASH !in x
  {
  }

  lemma OneLine(line: bytes, more: bytes)
    requires LF !in line && 0 < |line| && |line| + 1 < READ_BUFFER
    ensures ReadHeader(line + ([LF] + more)) == Prepend(ParseLine(line), ReadHeader(more))
  {
    hide ParseLine, Index, Prepend;
    var s := line + ([LF] + more);
    assert s == line + [LF] + more;
    IndexAfter(line, LF, more);
    assert s[..|line|] == line && s[|line| + 1..] == more;
  }

  /** A line that does not fit the buffer of the reader overruns it. */
  lemma {:induction false} LongLine(line: bytes, more: bytes)
    requires LF !in line
    ensures |line| + 1 >= 4096 ==> ReadHeader(line + ([LF] + more)) == Overrun
    ensures ReadHeader(line) == if |line| > 4096 then Overrun else Read([], [])
  {
    hide ParseLine, Index;
    var s := line + ([LF] + more);
    assert s == line + [LF] + more;
    IndexAfter(line, LF, more);
    IndexFits(line, LF);
  }

  lemma EmptyLine(pack: bytes)
    ensures ReadHeader([LF] + pack) == Read([], pack)
  {
    hide ParseLine, Index;
    var s := [LF] + pack;
    assert s == [] + [LF] + pack && s[1..] == pack;
    IndexAfter([], LF, pack);
  }

  lemma {:induction false} ReadLines(refs: seq<Ref>, pack: bytes)
    requires forall r <- refs :: Plain(r) && Fits(r)
    ensures ReadHeader(Lines(refs) + ([LF] + pack)) == Read(refs, pack)
  {
    hide Line, ParseLine, ReadHeader;
    if refs == [] {
      EmptyLine(pack);
      assert Lines(refs) + ([LF] + pack) == [LF] + pack;
    } else {
      var line, more := Line(refs[0]), Lines(refs[1..]) + ([LF] + pack);
      ReadLines(refs[1..], pack);
      LineParses(refs[0]);
      OneLine(line, more);
      assert Lines(refs) + ([LF] + pack) == line + ([LF] + more);
      assert [refs[0]] + refs[1..] == refs;
    }
  }

  /** Reading the header of a bundle gives back the refs in order, and stops exactly where the pack begins. */
  lemma {:induction false} HeaderReadBack(refs: seq<Ref>, pack: bytes)
    requires forall r <- refs :: Plain(r) && Fits(r)
    ensures ReadHeader(Header(refs) + pack) == Read(refs, pack)
  {
    hide ParseLine, Lines, ReadHeader;
    var first, more := FIRST_LINE[..15], Lines(refs) + ([LF] + pack);
    ReadLines(refs, pack);
    FirstLineParts();
    assert first[..4] == FIRST_LINE[..4];
    OneLine(first, more);
    assert Header(refs) + pack == first + ([LF] + more);
    MarkSkipped(first);
  }

  lemma FirstLineParts()
    ensures |FIRST_LINE| == 16 && FIRST_LINE[..4] == MARK && FIRST_LINE == FIRST_LINE[..15] + [LF]
      && LF !in FIRST_LINE[..15]
  {
    var f := FIRST_LINE;
    assert f[0] == 35 && f[1] == 32 && f[2] == 118 && f[3] == 50 && f[15] == LF;
    assert forall i | 0 <= i < 15 :: f[i] != LF;
  }

  lemma MarkSkipped(line: bytes)
    requires |line| >= 5 && line[..4] == MARK
    ensures ParseLine(line) == None
  {
  }

  // ----- the loops -----

  /** The bytes written, or a line longer than its buffer, of which more is written than was printed. */
  datatype Writing = Wrote(text: bytes) | Overread

  /** What is written for a ref: a line that fills its buffer loses its line feed to the terminating NUL. */
  function Printed(r: Ref): bytes {
    Line(r) + [if Fits(r) then LF else 0]
  }

  function AllPrinted(refs: seq<Ref>): bytes {
    if refs == [] then [] else Printed(refs[0]) + AllPrinted(refs[1..])
  }

  lemma {:induction false} FittingPrinted(refs: seq<Ref>)
    requires forall r <- refs :: Fits(r)
    ensures AllPrinted(refs) == Lines(refs)
  {
    hide Line;
    if refs != [] {
      FittingPrinted(refs[1..]);
      assert Line(refs[0]) + [LF] + Lines(refs[1..]) == Line(refs[0]) + ([LF] + Lines(refs[1..]));
    }
  }

  /** write_bundle_header. The header comes out whole exactly when every line fits its buffer. */
  method Write(refs: seq<Ref>) returns (out: Writing)
    ensures out == if forall r <- refs :: |Line(r)| < 1024
                   then Wrote(FIRST_LINE + AllPrinted(refs) + [LF]) else Overread
    ensures (forall r <- refs :: |Line(r)| + 1 < 1024) ==> out == Wrote(Header(refs))
  {
    hide Line, Lines, ToHex;
    var text := FIRST_LINE;
    var i := 0;
    assert refs[0..] == refs;
    while i < |refs|
      invariant i <= |refs|
      invariant FIRST_LINE + AllPrinted(refs) == text + AllPrinted(refs[i..])
      invariant forall j | 0 <= j < i :: |Line(refs[j])| < WRITE_BUFFER
    {
      assert refs[i..][1..] == refs[i + 1..] && refs[i..][0] == refs[i];
      var line := RefText(refs[i]);
      if |line| + 1 > WRITE_BUFFER {
        assert refs[i] in refs && |Line(refs[i])| >= WRITE_BUFFER;
        return Overread;
      }
      var end: byte := if |line| + 1 < WRITE_BUFFER then LF else 0;
      text := text + (line + [end]);
      i := i + 1;
    }
    assert refs[i..] == [];
    out := Wrote(text + [LF]);
    if forall r <- refs :: Fits(r) { FittingPrinted(refs); }
  }

  method RefText(r: Ref) returns (line: bytes)
    ensures line == Line(r)
  {
    hide ToHex;
    line := OidToHex(r.oid);
    line := line + [SPACE] + r.name;
  }

  /** read_bundle_header, which collects a line byte by byte. */
  method ReadBack(s: bytes) returns (r: Reading)
    ensures r == ReadHeader(s)
  {
    hide ParseLine, Index;
    var left, refs := s, [];
    assert Joined(refs, ReadHeader(left)) == ReadHeader(s) by { NothingJoined(ReadHeader(s)); }
    while true
      invariant Joined(refs, ReadHeader(left)) == ReadHeader(s)
      decreases |left|
    {
      var n := Memchr(left, 0, LF);
      assert left[0..] == left;
      IndexFits(left, LF);
      if n == |left| {
        if n > READ_BUFFER { return Overrun; }
        return Read(refs + [], []);
      }
      if n + 1 >= READ_BUFFER { return Overrun; }
      if n == 0 { return Read(refs + [], left[1..]); }
      var ref := ReadRef(left[..n]);
      NextJoined(refs, ref, ReadHeader(left[n + 1..]));
      if ref.Some? { refs := refs + [ref.value]; }
      left := left[n + 1..];
    }
  }

  /** The refs read so far, before those still to come. */
  function Joined(refs: seq<Ref>, k: Reading): Reading {
    if k.Overrun? then k else Read(refs + k.refs, k.rest)
  }

  lemma NothingJoined(k: Reading)
    ensures Joined([], k) == k
  {
    if k.Read? { assert [] + k.refs == k.refs; }
  }

  lemma NextJoined(refs: seq<Ref>, r: Option<Ref>, k: Reading)
    ensures Joined(refs, Prepend(r, k)) == Joined(if r.Some? then refs + [r.value] else refs, k)
  {
    if k.Read? && r.Some? { assert refs + ([r.value] + k.refs) == refs + [r.value] + k.refs; }
  }

  method ReadRef(line: bytes) returns (r: Option<Ref>)
    ensures r == ParseLine(line)
  {
    hide FromHex, Index;
    if |line| >= 5 && line[..4] == MARK { return None; }
    var nul := Memchr(line, 0, 0);
    IndexFits(line, 0);
    assert line[0..] == line;
    var c := line[..nul];
    var sp := Memchr(c, 0, SPACE);
    IndexFits(c, SPACE);
    assert c[0..] == c;
    if sp == |c| { return None; }
    var oid := OidFromHex(c[..sp]);
    r := match oid case Err(_) => None case Ok(id) => Some(Ref(id, c[sp + 1..]));
  }
}
