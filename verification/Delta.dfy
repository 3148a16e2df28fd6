/** The delta instruction stream, its meaning, and the three appliers of the source:
    the strict one of packfile.c, the lenient one of delta.c and the one inlined in
    protocol.c and bundle.c. */
module Delta {
  import opened Bytes
  import Varint

  /** Is the bit of weight w set? */
  predicate Has(cmd: nat, w: nat)
    requires w > 0
  {
    cmd / w % 2 == 1
  }

  /** A decoded command and the bytes after it. `Short` is a copy whose operands run past the end. */
  datatype Instr = Copy(off: nat, size: nat, rest: bytes) | Insert(n: nat, rest: bytes) | Reserved | Short

  /** A number read from operand bytes, and what follows them. */
  datatype Number = Missing | Number(value: nat, rest: bytes)

  /** Puts one more low byte under a number. */
  function Under(low: nat, high: Number): Number {
    match high
    case Missing => Missing
    case Number(v, rest) => Number(low + 0x100 * v, rest)
  }

  /** One optional operand byte of a copy command; an absent one counts as zero. */
  function ReadField(present: bool, a: bytes): Number {
    if !present then Number(0, a) else if a == [] then Missing else Number(a[0], a[1..])
  }

  /** A little-endian number of k optional bytes; the bits w, 2w, 4w, ... of cmd say which are there. */
  function ReadNumber(cmd: nat, w: nat, k: nat, a: bytes): (r: Number)
    requires w > 0
    ensures r.Number? ==> |r.rest| <= |a|
    decreases k
  {
    if k == 0 then Number(0, a)
    else match ReadField(Has(cmd, w), a)
      case Missing => Missing
      case Number(v, rest) => Under(v, ReadNumber(cmd, 2 * w, k - 1, rest))
  }

  /** A copy command: four optional offset bytes, three optional size bytes; size 0 is 0x10000. */
  function DecodeCopy(cmd: nat, a: bytes): (r: Instr)
    ensures r.Copy? || r.Short?
    ensures r.Copy? ==> |r.rest| <= |a| && r.size > 0
  {
    match ReadNumber(cmd, 0x01, 4, a)
    case Missing => Short
    case Number(off, b) =>
      match ReadNumber(cmd, 0x10, 3, b)
      case Missing => Short
      case Number(size, c) => Copy(off, if size == 0 then 0x10000 else size, c)
  }

  function Decode(d: bytes): (r: Instr)
    requires d != []
    ensures r.Copy? || r.Insert? ==> |r.rest| < |d|
    ensures r.Insert? ==> 0 < r.n < 0x80
  {
    if d[0] >= 0x80 then DecodeCopy(d[0], d[1..])
    else if d[0] == 0 then Reserved
    else Insert(d[0], d[1..])
  }

  /** An operand that is there, or not. */
  function OptByte(b: Option<byte>): bytes {
    match b case None => [] case Some(x) => [x]
  }

  function OptValue(b: Option<byte>): nat {
    match b case None => 0 case Some(x) => x
  }

  /** A copy command in general: four offset and three size operands, each present if its bit is set, the least
      significant first; an absent operand counts as zero, and a size of zero as 0x10000. */
  lemma {:induction false} CopyMeans(cmd: byte, o0: Option<byte>, o1: Option<byte>, o2: Option<byte>, o3: Option<byte>,
                                     s0: Option<byte>, s1: Option<byte>, s2: Option<byte>, rest: bytes)
    requires cmd >= 0x80
    requires (cmd % 2 == 1 <==> o0.Some?) && (cmd / 2 % 2 == 1 <==> o1.Some?) && (cmd / 4 % 2 == 1 <==> o2.Some?)
    requires (cmd / 8 % 2 == 1 <==> o3.Some?) && (cmd / 16 % 2 == 1 <==> s0.Some?)
    requires (cmd / 32 % 2 == 1 <==> s1.Some?) && (cmd / 64 % 2 == 1 <==> s2.Some?)
    ensures
      var operands, size := OptByte(o0) + (OptByte(o1) + (OptByte(o2) + (OptByte(o3) + (OptByte(s0) + (OptByte(s1)
        + (OptByte(s2) + rest)))))), OptValue(s0) + 0x100 * OptValue(s1) + 0x1_0000 * OptValue(s2);
      var off := OptValue(o0) + 0x100 * OptValue(o1) + 0x1_0000 * OptValue(o2) + TWO24 * OptValue(o3);
      Decode([cmd] + operands) == Copy(off, if size == 0 then 0x1_0000 else size, rest)
  {
    hide ReadNumber, Has;
    var r4 := OptByte(s0) + (OptByte(s1) + (OptByte(s2) + rest));
    var r0 := OptByte(o0) + (OptByte(o1) + (OptByte(o2) + (OptByte(o3) + r4)));
    OffsetMeans(cmd, o0, o1, o2, o3, r4);
    SizeMeans(cmd, s0, s1, s2, rest);
    assert ([cmd] + r0)[1..] == r0;
  }

  lemma {:induction false} OffsetMeans(cmd: nat, o0: Option<byte>, o1: Option<byte>, o2: Option<byte>,
                                       o3: Option<byte>, rest: bytes)
    requires (cmd % 2 == 1 <==> o0.Some?) && (cmd / 2 % 2 == 1 <==> o1.Some?) && (cmd / 4 % 2 == 1 <==> o2.Some?)
    requires cmd / 8 % 2 == 1 <==> o3.Some?
    ensures ReadNumber(cmd, 0x01, 4, OptByte(o0) + (OptByte(o1) + (OptByte(o2) + (OptByte(o3) + rest))))
         == Number(OptValue(o0) + 0x100 * OptValue(o1) + 0x1_0000 * OptValue(o2) + TWO24 * OptValue(o3), rest)
  {
    hide ReadNumber, OptByte;
    var r3 := OptByte(o3) + rest;
    var r2 := OptByte(o2) + r3;
    var r1 := OptByte(o1) + r2;
    NumberDone(cmd, 0x10, rest);
    NumberOf(cmd, 0x08, 1, o3, rest);
    NumberOf(cmd, 0x04, 2, o2, r3);
    NumberOf(cmd, 0x02, 3, o1, r2);
    NumberOf(cmd, 0x01, 4, o0, r1);
  }

  lemma {:induction false} SizeMeans(cmd: nat, s0: Option<byte>, s1: Option<byte>, s2: Option<byte>, rest: bytes)
    requires (cmd / 16 % 2 == 1 <==> s0.Some?) && (cmd / 32 % 2 == 1 <==> s1.Some?)
    requires cmd / 64 % 2 == 1 <==> s2.Some?
    ensures ReadNumber(cmd, 0x10, 3, OptByte(s0) + (OptByte(s1) + (OptByte(s2) + rest)))
         == Number(OptValue(s0) + 0x100 * OptValue(s1) + 0x1_0000 * OptValue(s2), rest)
  {
    hide ReadNumber, OptByte;
    var r2 := OptByte(s2) + rest;
    var r1 := OptByte(s1) + r2;
    NumberDone(cmd, 0x80, rest);
    NumberOf(cmd, 0x40, 1, s2, rest);
    NumberOf(cmd, 0x20, 2, s1, r2);
    NumberOf(cmd, 0x10, 3, s0, r1);
  }

  lemma NumberDone(cmd: nat, w: nat, a: bytes)
    requires w > 0
    ensures ReadNumber(cmd, w, 0, a) == Number(0, a)
  {
  }

  lemma NumberOf(cmd: nat, w: nat, k: nat, b: Option<byte>, a: bytes)
    requires w > 0 && k > 0 && (cmd / w % 2 == 1 <==> b.Some?)
    ensures ReadNumber(cmd, w, k, OptByte(b) + a) == Under(OptValue(b), ReadNumber(cmd, 2 * w, k - 1, a))
  {
    match b
    case None => assert OptByte(b) + a == a;
    case Some(x) => assert (OptByte(b) + a)[1..] == a;
  }

  /** A copy whose operands run out, a reserved command, and an insertion. */
  lemma {:induction false} OthersMean(cmd: byte, rest: bytes)
    ensures cmd == 0 ==> Decode([cmd] + rest) == Reserved
    ensures 0 < cmd < 0x80 ==> Decode([cmd] + rest) == Insert(cmd, rest)
    ensures cmd > 0x80 && rest == [] && cmd % 0x80 != 0 ==> Decode([cmd] + rest) == Short
  {
    assert ([cmd] + rest)[1..] == rest;
    if cmd > 0x80 && rest == [] {
      hide Has;
      FlagsSet(cmd);
      NothingThere(cmd, 0x01, 4);
      NothingThere(cmd, 0x10, 3);
    }
  }

  lemma FlagsSet(cmd: nat)
    requires 0x80 < cmd < 0x100
    ensures Has(cmd, 1) || Has(cmd, 2) || Has(cmd, 4) || Has(cmd, 8) || Has(cmd, 16) || Has(cmd, 32) || Has(cmd, 64)
  {
  }

  /** Without operand bytes a number is read only if none is asked for. */
  lemma {:induction false} NothingThere(cmd: nat, w: nat, k: nat)
    requires w > 0 && k <= 4
    ensures ReadNumber(cmd, w, k, []) == Missing || ReadNumber(cmd, w, k, []) == Number(0, [])
    ensures ReadNumber(cmd, w, k, []).Number? <==>
      (k > 0 ==> !Has(cmd, w)) && (k > 1 ==> !Has(cmd, 2 * w)) && (k > 2 ==> !Has(cmd, 4 * w))
      && (k > 3 ==> !Has(cmd, 8 * w))
    decreases k
  {
    hide Has;
    if k > 0 { NothingThere(cmd, 2 * w, k - 1); }
  }

  /** The meaning of an instruction stream: what it appends to `out`, if every instruction is valid. */
  function Exec(base: bytes, d: bytes, out: bytes): Option<bytes>
    decreases |d|
  {
    if d == [] then Some(out)
    else match Decode(d)
      case Copy(off, size, rest) =>
        if off + size <= |base| then Exec(base, rest, out + base[off..off + size]) else None
      case Insert(n, rest) =>
        if n <= |rest| then Exec(base, rest[n..], out + rest[..n]) else None
      case _ => None
  }

  // ----- the three appliers -----

  /** What carrying out the first command of a stream does: `Refused` is a command that cannot be
      carried out, `Truncated` one whose operands are missing, `Outside` a copy whose 32-bit sum of
      offset and size wrapped, so that the check lets it read outside the base. */
  datatype Step = Appended(out: bytes, rest: bytes) | Refused | Truncated | Outside

  function Perform(base: bytes, d: bytes, out: bytes, dst: nat): (r: Step)
    requires d != []
    ensures r.Appended? ==> |r.rest| < |d| && |out| < |r.out| <= dst
  {
    match Decode(d)
    case Copy(off, size, rest) =>
      if (off + size) % TWO32 > |base| || |out| + size > dst then Refused
      else if off + size > |base| then Outside
      else Appended(out + base[off..off + size], rest)
    case Insert(n, rest) =>
      if n > |rest| || |out| + n > dst then Refused else Appended(out + rest[..n], rest[n..])
    case Reserved => Refused
    case Short => Truncated
  }

  /** `Done` carries the bytes produced and the part of the delta not consumed. `OutOfBounds` is a
      read outside a buffer, for which C gives no meaning. */
  datatype Outcome = Done(out: bytes, rest: bytes) | Failed | OutOfBounds

  function StrictRun(base: bytes, d: bytes, out: bytes, dst: nat): Outcome
    decreases |d|
  {
    if d == [] then (if |out| == dst then Done(out, []) else Failed)
    else match Perform(base, d, out, dst)
      case Appended(o, rest) => StrictRun(base, rest, o, dst)
      case Outside => OutOfBounds
      case _ => Failed
  }

  function LenientRun(base: bytes, d: bytes, out: bytes, dst: nat): Outcome
    decreases |d|
  {
    if d == [] || |out| >= dst then Done(out, d)
    else match Perform(base, d, out, dst)
      case Appended(o, rest) => LenientRun(base, rest, o, dst)
      case Outside => OutOfBounds
      case _ => Failed
  }

  /** The inlined loop breaks where the others fail, and never checks that operands are there. */
  function InlineRun(base: bytes, d: bytes, out: bytes, dst: nat): Outcome
    decreases |d|
  {
    if d == [] then Done(out, [])
    else match Perform(base, d, out, dst)
      case Appended(o, rest) => InlineRun(base, rest, o, dst)
      case Refused => Done(out, d)
      case _ => OutOfBounds
  }

  /** Both length headers read, or not. */
  predicate HeadersEnd(delta: bytes) {
    Varint.Length(delta) > 0 && Varint.Length(delta[Varint.Length(delta)..]) > 0
  }

  /** Bytes a header takes: the inlined reader runs to the end when no byte terminates it. */
  function HeaderLength(d: bytes): (n: nat)
    ensures n <= |d|
  {
    if Varint.Length(d) == 0 then |d| else Varint.Length(d)
  }

  function TargetHeader(delta: bytes): bytes {
    delta[HeaderLength(delta)..]
  }

  function TargetLength(delta: bytes): nat {
    Varint.Value(TargetHeader(delta)) % TWO64
  }

  function Body(delta: bytes): bytes {
    TargetHeader(delta)[HeaderLength(TargetHeader(delta))..]
  }

  function StrictApply(base: bytes, delta: bytes): Outcome {
    if HeadersEnd(delta) then StrictRun(base, Body(delta), [], TargetLength(delta)) else Failed
  }

  function LenientApply(base: bytes, delta: bytes): Outcome {
    if HeadersEnd(delta) then LenientRun(base, Body(delta), [], TargetLength(delta)) else Failed
  }

  /** The inlined applier checks the produced length only after its loop. */
  function InlineApply(base: bytes, delta: bytes): Outcome {
    match InlineRun(base, Body(delta), [], TargetLength(delta))
    case Done(out, rest) => if |out| == TargetLength(delta) then Done(out, rest) else Failed
    case o => o
  }

  // ----- agreement -----

  lemma {:induction false} ExecGrows(base: bytes, d: bytes, out: bytes)
    ensures Exec(base, d, out).Some? ==> |out| + (if d == [] then 0 else 1) <= |Exec(base, d, out).value|
    decreases |d|
  {
    hide DecodeCopy;
    if d != [] {
      match Decode(d)
      case Copy(off, size, rest) =>
        if off + size <= |base| { ExecGrows(base, rest, out + base[off..off + size]); }
      case Insert(n, rest) =>
        if n <= |rest| { ExecGrows(base, rest[n..], out + rest[..n]); }
      case _ =>
    }
  }

  /** A command is carried out exactly when it is valid and keeps within the declared length. */
  lemma {:induction false} PerformMeaning(base: bytes, d: bytes, out: bytes, dst: nat)
    requires d != []
    ensures match Perform(base, d, out, dst)
            case Appended(o, rest) => Exec(base, d, out) == Exec(base, rest, o)
            case _ => Exec(base, d, out).Some? ==> |Exec(base, d, out).value| > dst
  {
    hide DecodeCopy;
    match Decode(d)
    case Copy(off, size, rest) =>
      if off + size <= |base| {
        ExecGrows(base, rest, out + base[off..off + size]);
        assert (off + size) % TWO32 <= off + size;
      }
    case Insert(n, rest) =>
      if n <= |rest| { ExecGrows(base, rest[n..], out + rest[..n]); }
    case _ =>
  }

  /** The strict run succeeds exactly on the streams whose meaning has the declared length. */
  lemma {:induction false} StrictIsExec(base: bytes, d: bytes, out: bytes, dst: nat)
    ensures StrictRun(base, d, out, dst).Done?
        <==> Exec(base, d, out).Some? && |Exec(base, d, out).value| == dst
    ensures StrictRun(base, d, out, dst).Done?
        ==> StrictRun(base, d, out, dst) == Done(Exec(base, d, out).value, [])
    decreases |d|
  {
    hide Perform;
    if d != [] {
      PerformMeaning(base, d, out, dst);
      match Perform(base, d, out, dst)
      case Appended(o, rest) => StrictIsExec(base, rest, o, dst);
      case _ =>
    }
  }

  /** The lenient run stops when the output is full; it consumed everything iff the strict one accepts. */
  lemma {:induction false} LenientIsStrict(base: bytes, d: bytes, out: bytes, dst: nat)
    ensures StrictRun(base, d, out, dst).Done?
        <==> LenientRun(base, d, out, dst).Done? && LenientRun(base, d, out, dst).rest == []
             && |LenientRun(base, d, out, dst).out| == dst
    ensures StrictRun(base, d, out, dst).Done?
        ==> LenientRun(base, d, out, dst) == StrictRun(base, d, out, dst)
    decreases |d|
  {
    hide Perform;
    if d != [] {
      match Perform(base, d, out, dst)
      case Appended(o, rest) => LenientIsStrict(base, rest, o, dst);
      case _ =>
    }
  }

  /** The inlined run carries out the whole stream, to the declared length, exactly when the strict one accepts. */
  lemma {:induction false} InlineIsStrict(base: bytes, d: bytes, out: bytes, dst: nat)
    ensures StrictRun(base, d, out, dst).Done?
        <==> InlineRun(base, d, out, dst).Done? && InlineRun(base, d, out, dst).rest == []
             && |InlineRun(base, d, out, dst).out| == dst
    ensures StrictRun(base, d, out, dst).Done?
        ==> InlineRun(base, d, out, dst) == StrictRun(base, d, out, dst)
    decreases |d|
  {
    hide Perform;
    if d != [] {
      match Perform(base, d, out, dst)
      case Appended(o, rest) => InlineIsStrict(base, rest, o, dst);
      case _ =>
    }
  }

  /** A full output of the inlined run is the output of the lenient one: it stops as soon as it is full. */
  lemma {:induction false} InlineMeetsLenient(base: bytes, d: bytes, out: bytes, dst: nat)
    requires |out| <= dst
    requires InlineRun(base, d, out, dst).Done? && |InlineRun(base, d, out, dst).out| == dst
    ensures LenientRun(base, d, out, dst).Done?
         && LenientRun(base, d, out, dst).out == InlineRun(base, d, out, dst).out
    decreases |d|
  {
    hide Perform;
    if d != [] {
      match Perform(base, d, out, dst)
      case Appended(o, rest) => InlineMeetsLenient(base, rest, o, dst);
      case _ =>
    }
  }

  /** The appliers agree: the strict one accepts exactly when the lenient one fills its output with the
      whole delta, and exactly when the headers end and the inlined one carries out the whole delta. The
      bytes are then the same for all three, and they are the meaning of the stream. */
  lemma {:induction false} AppliersAgree(base: bytes, delta: bytes)
    ensures StrictApply(base, delta).Done?
        <==> LenientApply(base, delta).Done? && LenientApply(base, delta).rest == []
             && |LenientApply(base, delta).out| == TargetLength(delta)
    ensures StrictApply(base, delta).Done?
        <==> HeadersEnd(delta) && InlineApply(base, delta).Done? && InlineApply(base, delta).rest == []
    ensures StrictApply(base, delta).Done?
        ==> && LenientApply(base, delta) == StrictApply(base, delta) == InlineApply(base, delta)
            && Exec(base, Body(delta), []) == Some(StrictApply(base, delta).out)
    ensures HeadersEnd(delta) && InlineApply(base, delta).Done?
        ==> LenientApply(base, delta).Done? && LenientApply(base, delta).out == InlineApply(base, delta).out
  {
    var d, dst := Body(delta), TargetLength(delta);
    if HeadersEnd(delta) {
      LenientIsStrict(base, d, [], dst);
      StrictIsExec(base, d, [], dst);
      InlineIsStrict(base, d, [], dst);
      if InlineApply(base, delta).Done? { InlineMeetsLenient(base, d, [], dst); }
    }
  }

  /** Where the appliers part: the inlined one does not notice a header without a terminator ... */
  lemma InlineNeedsNoHeader(base: bytes)
    ensures InlineApply(base, [0x80]) == Done([], []) && LenientApply(base, [0x80]) == Failed
  {
    var e: bytes := [0x80];
    assert e[1..] == [] && Varint.Length(e) == 0 && TargetHeader(e) == [] && Body(e) == [];
  }

  /** ... and stops quietly at a bad command once the output is full. */
  lemma InlineToleratesTail(base: bytes)
    ensures var delta := [0, 1, 1, 7, 0];
      InlineApply(base, delta) == Done([7], [0]) && StrictApply(base, delta) == Failed
  {
    var delta: bytes, d: bytes := [0, 1, 1, 7, 0], [1, 7, 0];
    assert delta[1..] == [1, 1, 7, 0] && delta[1..][1..] == d;
    assert TargetHeader(delta) == [1, 1, 7, 0] && Body(delta) == d && TargetLength(delta) == 1;
    assert d[1..] == [7, 0] && [7, 0][1..] == [0] && [7, 0][..1] == [7] && [] + [7] == [7];
    assert Perform(base, d, [], 1) == Appended([7], [0]);
    assert Perform(base, [0], [7], 1) == Refused;
  }

  // ----- copies whose bounds wrap -----

  /** Within the announced length the stream comes to a copy whose offset and size add up to 2^32 or more. */
  predicate Wraps(d: bytes, produced: nat, dst: nat)
    decreases |d|
  {
    d != [] &&
    match Decode(d)
    case Copy(off, size, rest) =>
      produced + size <= dst && (off + size >= TWO32 || Wraps(rest, produced + size, dst))
    case Insert(n, rest) => n <= |rest| && produced + n <= dst && Wraps(rest[n..], produced + n, dst)
    case _ => false
  }

  /** Only such a copy is read outside the base. */
  lemma {:induction false} OutsideWraps(base: bytes, d: bytes, out: bytes, dst: nat)
    ensures StrictRun(base, d, out, dst).OutOfBounds? || LenientRun(base, d, out, dst).OutOfBounds? ==>
      Wraps(d, |out|, dst)
    decreases |d|
  {
    hide DecodeCopy;
    if d != [] {
      match Perform(base, d, out, dst)
      case Appended(o, rest) => OutsideWraps(base, rest, o, dst);
      case _ =>
    }
  }

  /** The longest base of 32 bits lets every other copy through. */
  lemma {:induction false} WrapsOutside(base: bytes, d: bytes, out: bytes, dst: nat)
    requires |base| == TWO32 - 1 && Wraps(d, |out|, dst)
    ensures StrictRun(base, d, out, dst).OutOfBounds? && LenientRun(base, d, out, dst).OutOfBounds?
    decreases |d|
  {
    hide DecodeCopy;
    CopyFits(d);
    match Perform(base, d, out, dst)
    case Appended(o, rest) => WrapsOutside(base, rest, o, dst);
    case _ =>
  }

  lemma CopyFits(d: bytes)
    requires d != []
    ensures Decode(d).Copy? ==> Decode(d).off < TWO32 && Decode(d).size < TWO32
  {
    hide ReadNumber;
    assert Limit(4) == 0x100 * Limit(3) && Limit(3) == 0x1_000000 && Limit(4) == TWO32;
    if d[0] >= 0x80 {
      NumberFits(d[0], 0x01, 4, d[1..]);
      match ReadNumber(d[0], 0x01, 4, d[1..])
      case Number(_, b) => NumberFits(d[0], 0x10, 3, b);
      case Missing =>
    }
  }

  /** A number of k bytes is below this. */
  function Limit(k: nat): (n: nat)
    ensures n >= 1
  {
    if k == 0 then 1 else 0x100 * Limit(k - 1)
  }

  lemma {:induction false} NumberFits(cmd: nat, w: nat, k: nat, a: bytes)
    requires w > 0
    ensures ReadNumber(cmd, w, k, a).Number? ==> ReadNumber(cmd, w, k, a).value < Limit(k)
    decreases k
  {
    hide Has;
    if k > 0 {
      match ReadField(Has(cmd, w), a)
      case Number(_, rest) => NumberFits(cmd, 2 * w, k - 1, rest);
      case Missing =>
    }
  }

  /** The check of a copy is exact, on every base, unless its 32-bit sum wraps: a delta can make the strict or
      the lenient applier read outside some base if and only if it comes to such a copy. */
  lemma {:induction false} OutOfBoundsExactly(delta: bytes)
    ensures (exists base: bytes :: StrictApply(base, delta).OutOfBounds?)
        <==> HeadersEnd(delta) && Wraps(Body(delta), 0, TargetLength(delta))
    ensures (exists base: bytes :: LenientApply(base, delta).OutOfBounds?)
        <==> HeadersEnd(delta) && Wraps(Body(delta), 0, TargetLength(delta))
  {
    hide Wraps, StrictRun, LenientRun;
    forall base: bytes ensures StrictApply(base, delta).OutOfBounds? || LenientApply(base, delta).OutOfBounds?
                           ==> HeadersEnd(delta) && Wraps(Body(delta), 0, TargetLength(delta)) {
      OutsideWraps(base, Body(delta), [], TargetLength(delta));
    }
    if HeadersEnd(delta) && Wraps(Body(delta), 0, TargetLength(delta)) {
      var longest: bytes := seq(TWO32 - 1, _ => 0);
      WrapsOutside(longest, Body(delta), [], TargetLength(delta));
      assert StrictApply(longest, delta).OutOfBounds? && LenientApply(longest, delta).OutOfBounds?;
    }
  }

  // ----- the loops of the source -----

  lemma ReadNone(cmd: nat, w: nat, a: bytes)
    requires w > 0
    ensures ReadNumber(cmd, w, 0, a) == Number(0, a)
  {
  }

  /** One optional operand byte, the lowest of a number of k such bytes. */
  method OperandByte(delta: bytes, pos: nat, cmd: nat, w: nat, ghost k: nat) returns (ok: bool, value: byte, next: nat)
    requires pos <= |delta| && w > 0 && k > 0
    ensures pos <= next <= |delta|
    ensures ReadNumber(cmd, w, k, delta[pos..])
         == if ok then Under(value, ReadNumber(cmd, 2 * w, k - 1, delta[next..])) else Missing
  {
    ok, value, next := true, 0, pos;
    if Has(cmd, w) {
      if pos >= |delta| {
        ok := false;
      } else {
        value, next := delta[pos], pos + 1;
        assert delta[pos..][1..] == delta[next..];
      }
    }
  }

  method CopyOffset(delta: bytes, pos: nat, cmd: byte) returns (ok: bool, off: nat, next: nat)
    requires pos <= |delta|
    ensures pos <= next <= |delta|
    ensures ReadNumber(cmd, 0x01, 4, delta[pos..]) == if ok then Number(off, delta[next..]) else Missing
  {
    hide ReadNumber, Has;
    var v0, v1, v2, v3: byte;
    off := 0;
    ok, v0, next := OperandByte(delta, pos, cmd, 0x01, 4);
    if !ok { return; }
    ok, v1, next := OperandByte(delta, next, cmd, 0x02, 3);
    if !ok { return; }
    ok, v2, next := OperandByte(delta, next, cmd, 0x04, 2);
    if !ok { return; }
    ok, v3, next := OperandByte(delta, next, cmd, 0x08, 1);
    if !ok { return; }
    ReadNone(cmd, 0x10, delta[next..]);
    off := v0 + 0x100 * v1 + 0x10000 * v2 + 0x1000000 * v3;
  }

  method CopySize(delta: bytes, pos: nat, cmd: byte) returns (ok: bool, size: nat, next: nat)
    requires pos <= |delta|
    ensures pos <= next <= |delta|
    ensures ReadNumber(cmd, 0x10, 3, delta[pos..]) == if ok then Number(size, delta[next..]) else Missing
  {
    hide ReadNumber, Has;
    var v0, v1, v2: byte;
    size := 0;
    ok, v0, next := OperandByte(delta, pos, cmd, 0x10, 3);
    if !ok { return; }
    ok, v1, next := OperandByte(delta, next, cmd, 0x20, 2);
    if !ok { return; }
    ok, v2, next := OperandByte(delta, next, cmd, 0x40, 1);
    if !ok { return; }
    ReadNone(cmd, 0x80, delta[next..]);
    size := v0 + 0x100 * v1 + 0x10000 * v2;
  }

  /** Reads the operands of the copy command before position pos. */
  method CopyOperands(delta: bytes, pos: nat, cmd: byte) returns (ok: bool, off: nat, size: nat, next: nat)
    requires pos <= |delta|
    ensures pos <= next <= |delta|
    ensures DecodeCopy(cmd, delta[pos..]) == if ok then Copy(off, size, delta[next..]) else Short
  {
    hide ReadNumber, Has;
    size := 0;
    ok, off, next := CopyOffset(delta, pos, cmd);
    if !ok { return; }
    ok, size, next := CopySize(delta, next, cmd);
    if size == 0 { size := 0x10000; }
  }

  /** Carries out the command at position d. */
  method Command(base: bytes, delta: bytes, d: nat, out: bytes, dst: nat) returns (r: Step, next: nat)
    requires d < |delta|
    ensures r == Perform(base, delta[d..], out, dst)
    ensures d <= next <= |delta| && (r.Appended? ==> r.rest == delta[next..])
  {
    hide DecodeCopy, ReadNumber;
    var cmd := delta[d];
    next := d;
    assert delta[d..][1..] == delta[d + 1..];
    if cmd >= 0x80 {
      var ok, off, size, after := CopyOperands(delta, d + 1, cmd);
      if !ok { return Truncated, next; }
      if (off + size) % TWO32 > |base| || |out| + size > dst { return Refused, next; }
      if off + size > |base| { return Outside, next; }
      next := after;
      r := Appended(out + base[off..off + size], delta[next..]);
    } else {
      if cmd == 0 || d + 1 + cmd > |delta| || |out| + cmd > dst { return Refused, next; }
      next := d + 1 + cmd;
      assert delta[d + 1..][cmd..] == delta[next..];
      assert delta[d + 1..][..cmd] == delta[d + 1..next];
      r := Appended(out + delta[d + 1..next], delta[next..]);
    }
  }

  /** Reads both length headers; d is where the instructions start. */
  method Headers(delta: bytes) returns (ok: bool, d: nat, dst: nat)
    ensures ok == HeadersEnd(delta)
    ensures ok ==> d <= |delta| && delta[d..] == Body(delta) && dst == TargetLength(delta)
  {
    d, dst := 0, 0;
    var n, src := Varint.DecodeVarint(delta);
    if n == 0 { return false, d, dst; }
    var m, len := Varint.DecodeVarint(delta[n..]);
    if m == 0 { return false, d, dst; }
    assert delta[n..][m..] == delta[n + m..];
    return true, n + m, len;
  }

  method GitDeltaApply(base: bytes, delta: bytes) returns (r: Outcome)
    ensures r == StrictApply(base, delta)
  {
    hide Perform, HeadersEnd;
    var ok, d, dst := Headers(delta);
    if !ok { return Failed; }
    var out: bytes := [];
    while d < |delta|
      invariant d <= |delta|
      invariant StrictRun(base, delta[d..], out, dst) == StrictRun(base, Body(delta), [], dst)
      decreases |delta| - d
    {
      var s, next := Command(base, delta, d, out, dst);
      if s.Outside? { return OutOfBounds; }
      if !s.Appended? { return Failed; }
      out, d := s.out, next;
    }
    r := if |out| == dst then Done(out, []) else Failed;
  }

  method DeltaApply(base: bytes, delta: bytes) returns (r: Outcome)
    ensures r == LenientApply(base, delta)
  {
    hide Perform;
    var ok, d, dst := Headers(delta);
    if !ok { return Failed; }
    var out: bytes := [];
    while d < |delta| && |out| < dst
      invariant d <= |delta|
      invariant LenientRun(base, delta[d..], out, dst) == LenientRun(base, Body(delta), [], dst)
      decreases |delta| - d
    {
      var s, next := Command(base, delta, d, out, dst);
      if s.Outside? { return OutOfBounds; }
      if !s.Appended? { return Failed; }
      out, d := s.out, next;
    }
    r := Done(out, delta[d..]);
  }

  /** The length header as the inlined applier reads it: without noticing a missing terminator. */
  method InlineHeader(d: bytes) returns (n: nat, v: nat)
    ensures n == HeaderLength(d) && v == Varint.Value(d) % TWO64
  {
    hide Varint.Length, Varint.Value, Varint.Scaled, Pow2;
    var s := 0;
    v, n := 0, 0;
    ghost var exact: nat := 0;
    Varint.Start(d, n, s);
    while n < |d|
      invariant 0 <= n <= |d|
      invariant v == exact % TWO64
      invariant Varint.Value(d) == exact + Varint.Scaled(d[n..], Pow2(s))
      invariant HeaderLength(d) == n + HeaderLength(d[n..])
    {
      Varint.Peel(d, n, s);
      var group := d[n] % 0x80 * Pow2(s);
      MulNat(d[n] % 0x80, Pow2(s));
      ModAdd(exact, group, TWO64);
      v := (v + group) % TWO64;
      exact := exact + group;
      n := n + 1;
      if d[n - 1] < 0x80 { return; }
      s := s + 7;
    }
    Varint.Ended(d, n);
  }

  method InlinedDeltaApply(base: bytes, delta: bytes) returns (r: Outcome)
    ensures r == InlineApply(base, delta)
  {
    hide Perform;
    var n, src := InlineHeader(delta);
    var m, dst := InlineHeader(delta[n..]);
    var d := n + m;
    assert delta[n..][m..] == delta[d..];
    var out: bytes := [];
    while d < |delta|
      invariant d <= |delta|
      invariant InlineRun(base, delta[d..], out, dst) == InlineRun(base, Body(delta), [], dst)
      decreases |delta| - d
    {
      var s, next := Command(base, delta, d, out, dst);
      if s.Outside? || s.Truncated? { return OutOfBounds; }
      if s.Refused? { break; }
      out, d := s.out, next;
    }
    r := if |out| == dst then Done(out, delta[d..]) else Failed;
  }
}
