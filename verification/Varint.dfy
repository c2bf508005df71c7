/** QUIC variable-length integers (section 16 of RFC 9000), and the response frame built on them. */
module Varint {
  import opened Bits
  import opened Bytes

  const LIMIT: nat := 0x4000_0000_0000_0000

  type u64 = x: nat | x < 0x1_0000_0000_0000_0000

  function VarintLen(v: u64): nat {
    if v <= 63 then 1 else if v <= 16383 then 2 else if v <= 1073741823 then 4 else 8
  }

  /** A first byte with the two tag bits set over six bits of value, and the other bytes. */
  function Tagged(tag: nat, v: nat, n: nat): (r: bytes)
    requires tag < 4
    ensures |r| == n + 1
  {
    [tag * 64 + v / Power256(n) % 64] + BigEndian(v, n)
  }

  function AppendVarint(v: u64): bytes {
    if v <= 63 then Tagged(0, v, 0)
    else if v <= 16383 then Tagged(1, v, 1)
    else if v <= 1073741823 then Tagged(2, v, 3)
    else Tagged(3, v, 7)
  }

  /** How many bytes follow the first one. */
  function Following(first: byte): nat {
    var tag := first / 64;
    if tag == 0 then 0 else if tag == 1 then 1 else if tag == 2 then 3 else 7
  }

  /** What section 16 of RFC 9000 makes of the head of a stream, and what it leaves; a short stream says nothing. */
  function StandardVarint(s: bytes): (Option<nat>, bytes) {
    if s == [] then (None, [])
    else
      var n := Following(s[0]);
      if |s| < 1 + n then (None, [])
      else (Some(s[0] % 64 * Power256(n) + FromBigEndian(s[1..1 + n])), s[1 + n..])
  }

  /** What the reader comes to: a value, an error at the end of the stream, or an index out of range. */
  datatype Length = Value(v: nat) | Short | Crash

  /** What the reader makes of a stream. The eight-byte form is read into seven bytes, of which the conversion wants
      eight. */
  function DecodeVarint(s: bytes): (Length, bytes) {
    if s == [] then (Short, [])
    else
      var n := Following(s[0]);
      if |s| < 1 + n then (Short, [])
      else if n == 7 then (Crash, s[8..])
      else (Value(s[0] % 64 * Power256(n) + FromBigEndian(s[1..1 + n])), s[1 + n..])
  }

  // ---- the codec --------------------------------------------------------------------------

  lemma {:induction false} FromBigEndianBound(s: bytes)
    ensures FromBigEndian(s) < Power256(|s|)
    decreases |s|
  {
    if s != [] {
      FromBigEndianBound(s[..|s| - 1]);
    }
  }

  /** Cutting a number above `n` bytes and six bits. */
  lemma LowPart(v: nat, p: nat)
    requires p > 0
    ensures v / p % 64 * p + v % p == v % (64 * p)
  {
    var q, r := v / p / 64, v / p % 64;
    assert v == (q * 64 + r) * p + v % p;
    assert v == q * (64 * p) + (r * p + v % p);
    MulGap(63 - r, p);
    assert r * p <= 63 * p;
    DivUnique(v, 64 * p, q, r * p + v % p);
  }

  lemma TaggedReadsBack(tag: nat, v: nat, n: nat, rest: bytes)
    requires tag < 4 && n == [0, 1, 3, 7][tag]
    ensures StandardVarint(Tagged(tag, v, n) + rest) == (Some(v % (64 * Power256(n))), rest)
  {
    var s := Tagged(tag, v, n) + rest;
    DivUnique(s[0], 64, tag, v / Power256(n) % 64);
    assert Following(s[0]) == n;
    assert s[1..1 + n] == BigEndian(v, n) && s[1 + n..] == rest;
    BigEndianReadsBack(v, n);
    LowPart(v, Power256(n));
  }

  lemma Power256Values()
    ensures Power256(0) == 1 && Power256(1) == 256 && Power256(3) == 0x100_0000 && Power256(7) == 0x100_0000_0000_0000
  {
    assert Power256(3) == 256 * 256 * 256;
    assert Power256(5) == 256 * 256 * Power256(3);
  }

  lemma TaggedSmall(tag: nat, v: nat, n: nat, rest: bytes)
    requires tag < 4 && n == [0, 1, 3, 7][tag] && v < 64 * Power256(n) <= LIMIT
    ensures StandardVarint(Tagged(tag, v, n) + rest) == (Some(v % LIMIT), rest)
  {
    TaggedReadsBack(tag, v, n, rest);
    SmallRemainder(v, 64 * Power256(n));
    SmallRemainder(v, LIMIT);
  }

  /** What was appended stands for the value modulo 2^62, and for nothing of what follows. */
  lemma AppendReadsBack(v: u64, rest: bytes)
    ensures StandardVarint(AppendVarint(v) + rest) == (Some(v % LIMIT), rest)
  {
    Power256Values();
    if v <= 63 {
      TaggedSmall(0, v, 0, rest);
    } else if v <= 16383 {
      TaggedSmall(1, v, 1, rest);
    } else if v <= 1073741823 {
      TaggedSmall(2, v, 3, rest);
    } else {
      TaggedReadsBack(3, v, 7, rest);
      assert 64 * Power256(7) == LIMIT;
    }
  }

  /** What is written is right exactly below 2^62; a larger number loses its top two bits. */
  lemma StandardRoundTripIff(v: u64, rest: bytes)
    ensures StandardVarint(AppendVarint(v) + rest) == (Some(v), rest) <==> v < LIMIT
  {
    AppendReadsBack(v, rest);
    if v < LIMIT {
      SmallRemainder(v, LIMIT);
    } else {
      assert v % LIMIT < LIMIT;
    }
  }

  lemma HeadBound(high: nat, p: nat, low: nat)
    requires high < 64 && low < p
    ensures high * p + low < 64 * p
  {
    MulGap(63 - high, p);
    assert high * p <= 63 * p;
  }

  /** What the varint at the head of a stream can say is bounded by its length. */
  lemma DecodedBound(s: bytes)
    requires StandardVarint(s).0.Some?
    ensures StandardVarint(s).0.value < 64 * Power256(Following(s[0])) && StandardVarint(s).0.value < LIMIT
  {
    var n := Following(s[0]);
    FromBigEndianBound(s[1..1 + n]);
    HeadBound(s[0] % 64, Power256(n), FromBigEndian(s[1..1 + n]));
    Power256Values();
  }

  /** `varintLen` is the length written, and no encoding of the value is shorter. */
  lemma VarintLenIsShortest(v: u64, e: bytes)
    requires StandardVarint(e) == (Some(v), [])
    ensures |AppendVarint(v)| == VarintLen(v) <= |e|
  {
    DecodedBound(e);
    Power256Values();
    assert e == e[..1 + Following(e[0])] + e[1 + Following(e[0])..];
  }

  /** More data behind a varint does not change what it says. */
  lemma DecodeExtends(s: bytes, more: bytes)
    requires StandardVarint(s).0.Some?
    ensures StandardVarint(s + more) == (StandardVarint(s).0, StandardVarint(s).1 + more)
  {
    var n := Following(s[0]);
    assert (s + more)[1..1 + n] == s[1..1 + n] && (s + more)[1 + n..] == s[1 + n..] + more;
  }

  /** A whole number in the eight-byte form stands in front. */
  predicate LongInFront(s: bytes) {
    |s| >= 8 && s[0] >= 192
  }

  function LengthOf(v: Option<nat>): Length {
    match v case Some(n) => Value(n) case None => Short
  }

  /** The reader does what the standard says exactly where no whole number in the eight-byte form stands in front; there
      it crashes. */
  lemma ReaderIsStandardIff(s: bytes)
    ensures DecodeVarint(s) == (LengthOf(StandardVarint(s).0), StandardVarint(s).1) <==> !LongInFront(s)
    ensures DecodeVarint(s).0.Crash? <==> LongInFront(s)
  {
    if s != [] {
      DivUnique(s[0], 64, s[0] / 64, s[0] % 64);
    }
  }

  lemma FirstByte(tag: nat, v: nat, n: nat)
    requires tag < 4
    ensures Tagged(tag, v, n)[0] >= 192 <==> tag == 3
  {
  }

  /** What the reader makes of what was appended, for every number. */
  lemma AppendedOutcome(v: u64, rest: bytes)
    ensures DecodeVarint(AppendVarint(v) + rest) == if v < 0x4000_0000 then (Value(v), rest) else (Crash, rest)
  {
    var s := AppendVarint(v) + rest;
    AppendReadsBack(v, rest);
    ReaderIsStandardIff(s);
    if v < 0x4000_0000 {
      SmallRemainder(v, LIMIT);
      assert !LongInFront(s) by {
        assert s[0] == AppendVarint(v)[0];
        FirstByte(if v <= 63 then 0 else if v <= 16383 then 1 else 2, v, if v <= 63 then 0 else if v <= 16383 then 1 else 3);
      }
    } else {
      FirstByte(3, v, 7);
      assert s[0] == AppendVarint(v)[0] && s[8..] == rest;
    }
  }

  /** Reading back what was written gives the number exactly below 2^30. */
  lemma VarintRoundTripIff(v: u64, rest: bytes)
    ensures DecodeVarint(AppendVarint(v) + rest) == (Value(v), rest) <==> v < 0x4000_0000
  {
    AppendedOutcome(v, rest);
  }

  /** The first number that crashes the reader. */
  lemma FirstCrash(rest: bytes)
    ensures AppendVarint(0x4000_0000) == [192, 0, 0, 0, 64, 0, 0, 0]
    ensures DecodeVarint(AppendVarint(0x4000_0000) + rest).0 == Crash
  {
    AppendedOutcome(0x4000_0000, rest);
    var v := 0x4000_0000;
    assert Power256(7) > v by {
      Power256Values();
    }
    assert BigEndian(0x40, 4) == BigEndian(0, 3) + [0x40];
  }

  // ---- the reader -----------------------------------------------------------------------------

  /** An `io.Reader` over the bytes still to come. */
  class Reader {
    var rest: bytes

    constructor (rest: bytes)
      ensures this.rest == rest
    {
      this.rest := rest;
    }

    /** `io.ReadFull`, and `io.CopyN` to nowhere: a short stream is used up. */
    method ReadFull(n: nat) returns (data: Option<bytes>)
      modifies this
      ensures if n <= |old(rest)| then data == Some(old(rest)[..n]) && rest == old(rest)[n..] else data == None && rest == []
    {
      if n <= |rest| {
        data := Some(rest[..n]);
        rest := rest[n..];
      } else {
        data := None;
        rest := [];
      }
    }

    method ReadVarint() returns (v: Length)
      modifies this
      ensures (v, rest) == DecodeVarint(old(rest))
    {
      var b := ReadFull(1);
      if b.None? {
        return Short;
      }
      var first := b.value[0];
      var n := Following(first);
      if n == 0 {
        Power256Values();
        return Value(first);
      }
      var more := ReadFull(n);
      if more.None? {
        return Short;
      }
      BehindFirst(old(rest), n);
      if |more.value| == 7 {
        return Crash;
      }
      return Value(first % 64 * Power256(n) + FromBigEndian(more.value));
    }

    /** A length, and that many bytes to nowhere. */
    method Skip() returns (r: Skipped)
      modifies this
      ensures r == SkipField(old(rest))
      ensures r != Crashed ==> rest == if r.Past? then r.rest else []
    {
      var n := ReadVarint();
      if n.Short? {
        return Ended;
      }
      if n.Crash? {
        return Crashed;
      }
      if n.v > 0 {
        var data := ReadFull(n.v);
        return if data.Some? then Past(rest) else Ended;
      }
      return Past(rest);
    }

    method ReadResponse() returns (answer: Answer)
      modifies this
      ensures answer == DecodeResponse(old(rest)).0
      ensures answer != Panic ==> rest == DecodeResponse(old(rest)).1
    {
      var status := ReadFull(1);
      if status.None? {
        return Eof;
      }
      var message := Skip();
      if !message.Past? {
        return if message.Ended? then Eof else Panic;
      }
      var padding := Skip();
      if !padding.Past? {
        return if padding.Ended? then Eof else Panic;
      }
      return AnswerOf(status.value[0]);
    }
  }

  lemma BehindFirst(s: bytes, n: nat)
    requires |s| >= 1 + n
    ensures s[1..][..n] == s[1..1 + n] && s[1..][n..] == s[1 + n..]
  {
  }

  // ---- the response frame ------------------------------------------------------------------------

  datatype Answer = Accepted | Remote(status: byte) | Eof | Panic

  datatype Skipped = Past(rest: bytes) | Ended | Crashed

  predicate Answered(a: Answer) {
    a.Accepted? || a.Remote?
  }

  function AnswerOf(status: byte): Answer {
    if status != 0 then Remote(status) else Accepted
  }

  /** A length and that many bytes. */
  function SkipField(s: bytes): Skipped {
    match DecodeVarint(s)
    case (Value(n), rest) => if n <= |rest| then Past(rest[n..]) else Ended
    case (Short, _) => Ended
    case (Crash, _) => Crashed
  }

  /** The outcome, and what is left of the stream unless the process is gone. */
  function DecodeResponse(s: bytes): (Answer, bytes) {
    if s == [] then (Eof, [])
    else
      match SkipField(s[1..])
      case Ended => (Eof, [])
      case Crashed => (Panic, [])
      case Past(s2) =>
        match SkipField(s2)
        case Ended => (Eof, [])
        case Crashed => (Panic, [])
        case Past(rest) => (AnswerOf(s[0]), rest)
  }

  /** `field` is a length in some encoding of the standard followed by that many bytes. */
  ghost predicate IsField(field: bytes) {
    exists e: bytes, body: bytes :: field == e + body && StandardVarint(e) == (Some(|body|), [])
  }

  /** A field whose length is not in the eight-byte form. */
  ghost predicate IsPlainField(field: bytes) {
    IsField(field) && !LongInFront(field)
  }

  /** A response as the protocol has it: a status, a message and a padding. */
  ghost predicate IsFrame(frame: bytes, status: byte) {
    exists msg: bytes, pad: bytes :: IsField(msg) && IsField(pad) && frame == [status] + msg + pad
  }

  ghost predicate IsPlainFrame(frame: bytes, status: byte) {
    exists msg: bytes, pad: bytes :: IsPlainField(msg) && IsPlainField(pad) && frame == [status] + msg + pad
  }

  lemma EncodingLength(e: bytes, n: nat)
    requires StandardVarint(e) == (Some(n), [])
    ensures e != [] && |e| == 1 + Following(e[0])
  {
    assert e == e[..1 + Following(e[0])] + e[1 + Following(e[0])..];
  }

  /** A whole field in front is skipped, exactly, or crashes the reader, whatever follows it. */
  lemma FieldOutcome(field: bytes, rest: bytes)
    requires IsField(field)
    ensures SkipField(field + rest) == if LongInFront(field) then Crashed else Past(rest)
  {
    var e: bytes, body: bytes :| field == e + body && StandardVarint(e) == (Some(|body|), []);
    EncodingLength(e, |body|);
    Associate(e, body, rest);
    EncodedOutcome(e, body + rest, |body|);
    assert (body + rest)[|body|..] == rest;
    assert field[0] == e[0];
  }

  lemma EncodedOutcome(e: bytes, more: bytes, n: nat)
    requires StandardVarint(e) == (Some(n), []) && e != []
    ensures DecodeVarint(e + more) == (if e[0] >= 192 then Crash else Value(n), more)
    ensures e[0] >= 192 ==> |e| == 8
  {
    EncodingLength(e, n);
    var k := |e| - 1;
    assert (e + more)[1..1 + k] == e[1..1 + k] && (e + more)[1 + k..] == more && (e + more)[0] == e[0];
    DivUnique(e[0], 64, e[0] / 64, e[0] % 64);
  }

  /** A cut field: the length is there and crashes the reader, or the stream ends too early. */
  lemma CutField(field: bytes, j: nat)
    requires IsField(field) && j < |field|
    ensures SkipField(field[..j]) == if LongInFront(field) && j >= 8 then Crashed else Ended
  {
    var e: bytes, body: bytes :| field == e + body && StandardVarint(e) == (Some(|body|), []);
    EncodingLength(e, |body|);
    if j < |e| {
      CutLength(e, j);
      assert field[..j] == e[..j];
      assert field[0] == e[0];
    } else {
      EncodedOutcome(e, body[..j - |e|], |body|);
      assert field[..j] == e + body[..j - |e|];
      assert field[0] == e[0];
    }
  }

  lemma CutLength(e: bytes, j: nat)
    requires e != [] && j < |e| == 1 + Following(e[0])
    ensures DecodeVarint(e[..j]).0 == Short && j < 8
  {
    if j > 0 {
      assert e[..j][0] == e[0];
    }
  }

  /** What was skipped was a plain field. */
  lemma SkippedIsField(s: bytes, rest: bytes)
    requires SkipField(s) == Past(rest)
    ensures |rest| <= |s| && s[|s| - |rest|..] == rest && IsPlainField(s[..|s| - |rest|])
  {
    var k := 1 + Following(s[0]);
    var n := DecodeVarint(s).0.v;
    VarintSplits(s);
    ReaderIsStandardIff(s);
    assert s[k..][n..] == s[k + n..];
    assert s[..k + n][0] == s[0];
    FieldOf(s[..k], s[k..k + n]);
    assert s[..k] + s[k..k + n] == s[..k + n];
  }

  lemma FieldOf(e: bytes, body: bytes)
    requires StandardVarint(e) == (Some(|body|), [])
    ensures IsField(e + body)
  {
  }

  /** The bytes of a varint stand for themselves. */
  lemma VarintSplits(s: bytes)
    requires StandardVarint(s).0.Some?
    ensures var k := 1 + Following(s[0]);
            k <= |s| && StandardVarint(s).1 == s[k..] && StandardVarint(s[..k]) == (StandardVarint(s).0, [])
  {
    var k := 1 + Following(s[0]);
    assert s[..k][1..k] == s[1..k] && s[..k][k..] == [];
  }

  lemma Regroup(status: byte, msg: bytes, pad: bytes, rest: bytes)
    ensures [status] + msg + pad + rest == [status] + (msg + (pad + rest))
  {
  }

  lemma TwoFields(status: byte, t: bytes)
    ensures DecodeResponse([status] + t)
            == match SkipField(t)
               case Ended => (Eof, [])
               case Crashed => (Panic, [])
               case Past(s2) =>
                 match SkipField(s2)
                 case Ended => (Eof, [])
                 case Crashed => (Panic, [])
                 case Past(rest) => (AnswerOf(status), rest)
  {
    assert ([status] + t)[1..] == t;
  }

  /** What a response comes to, whatever follows it and however its lengths are encoded: it is consumed exactly and
      answered, or a length in the eight-byte form crashes the reader. */
  lemma FrameOutcome(status: byte, msg: bytes, pad: bytes, rest: bytes)
    requires IsField(msg) && IsField(pad)
    ensures DecodeResponse([status] + msg + pad + rest)
            == if LongInFront(msg) || LongInFront(pad) then (Panic, []) else (AnswerOf(status), rest)
  {
    Regroup(status, msg, pad, rest);
    TwoFields(status, msg + (pad + rest));
    FieldOutcome(msg, pad + rest);
    FieldOutcome(pad, rest);
  }

  /** A whole frame of plain lengths is consumed, exactly, whatever follows it. */
  lemma FrameIsConsumed(frame: bytes, status: byte, rest: bytes)
    requires IsPlainFrame(frame, status)
    ensures DecodeResponse(frame + rest) == (AnswerOf(status), rest)
  {
    var msg, pad :| IsPlainField(msg) && IsPlainField(pad) && frame == [status] + msg + pad;
    FrameOutcome(status, msg, pad, rest);
  }

  /** And only such a frame is answered: the stream was that frame and the rest that is left. */
  lemma AnsweredIsFrame(s: bytes)
    requires Answered(DecodeResponse(s).0)
    ensures |DecodeResponse(s).1| < |s| && s[|s| - |DecodeResponse(s).1|..] == DecodeResponse(s).1
    ensures IsPlainFrame(s[..|s| - |DecodeResponse(s).1|], s[0]) && DecodeResponse(s).0 == AnswerOf(s[0])
  {
    var s2 := SkipField(s[1..]).rest;
    var rest := SkipField(s2).rest;
    assert DecodeResponse(s) == (AnswerOf(s[0]), rest);
    TwoFieldsAreFrame(s, s2, rest);
  }

  lemma TwoFieldsAreFrame(s: bytes, s2: bytes, rest: bytes)
    requires s != [] && SkipField(s[1..]) == Past(s2) && SkipField(s2) == Past(rest)
    ensures |rest| < |s| && s[|s| - |rest|..] == rest && IsPlainFrame(s[..|s| - |rest|], s[0])
  {
    SkippedIsField(s[1..], s2);
    SkippedIsField(s2, rest);
    ThreeParts(s, s2, rest);
    Assembled(s[0], s[1..][..|s| - 1 - |s2|], s2[..|s2| - |rest|]);
  }

  lemma Assembled(status: byte, msg: bytes, pad: bytes)
    requires IsPlainField(msg) && IsPlainField(pad)
    ensures IsPlainFrame([status] + msg + pad, status)
  {
  }

  lemma ThreeParts(s: bytes, s2: bytes, rest: bytes)
    requires s != [] && |rest| <= |s2| < |s| && s[1..][|s| - 1 - |s2|..] == s2 && s2[|s2| - |rest|..] == rest
    ensures s[|s| - |rest|..] == rest
    ensures s[..|s| - |rest|] == [s[0]] + s[1..][..|s| - 1 - |s2|] + s2[..|s2| - |rest|]
  {
    assert s[|s| - |s2|..] == s2;
  }

  /** The first `k` bytes of the stream are a frame of plain lengths. */
  ghost predicate FrameInFront(s: bytes, k: nat) {
    s != [] && k <= |s| && IsPlainFrame(s[..k], s[0])
  }

  lemma FrontIsAnswered(s: bytes, k: nat)
    requires FrameInFront(s, k)
    ensures Answered(DecodeResponse(s).0)
  {
    SplitAnswered(s, s[..k], s[k..]);
  }

  lemma SplitAnswered(s: bytes, frame: bytes, rest: bytes)
    requires s != [] && s == frame + rest && IsPlainFrame(frame, s[0])
    ensures Answered(DecodeResponse(s).0)
  {
    FrameIsConsumed(frame, s[0], rest);
  }

  /** An answered stream is accepted exactly if its first byte is 0; any other is reported as the remote's status. */
  lemma StatusDecides(s: bytes)
    requires Answered(DecodeResponse(s).0)
    ensures s != [] && DecodeResponse(s).0 == if s[0] == 0 then Accepted else Remote(s[0])
  {
  }

  /** A stream is answered exactly when it begins with a frame of plain lengths. */
  lemma AnsweredIff(s: bytes)
    ensures Answered(DecodeResponse(s).0) <==> exists k: nat :: FrameInFront(s, k)
  {
    if Answered(DecodeResponse(s).0) {
      AnsweredIsFrame(s);
      assert FrameInFront(s, |s| - |DecodeResponse(s).1|);
    }
    forall k: nat | FrameInFront(s, k)
      ensures Answered(DecodeResponse(s).0)
    {
      FrontIsAnswered(s, k);
    }
  }

  /** A plain field from position 1 to `k`, and behind it a whole number in the eight-byte form. */
  ghost predicate LongBehind(s: bytes, k: nat) {
    1 <= k <= |s| && IsPlainField(s[1..k]) && LongInFront(s[k..])
  }

  /** A plain first field leaves the reader at the second. */
  lemma BehindFirstField(s: bytes, k: nat)
    requires 1 <= k <= |s| && IsPlainField(s[1..k])
    ensures SkipField(s[1..]) == Past(s[k..])
  {
    assert s[1..] == s[1..k] + s[k..];
    FieldOutcome(s[1..k], s[k..]);
  }

  lemma LongBehindPanics(s: bytes, k: nat)
    requires LongBehind(s, k)
    ensures DecodeResponse(s).0 == Panic
  {
    BehindFirstField(s, k);
    ReaderIsStandardIff(s[k..]);
  }

  lemma PanicShowsLong(s: bytes)
    requires DecodeResponse(s).0 == Panic && !LongInFront(s[1..])
    ensures exists k: nat :: LongBehind(s, k)
  {
    ReaderIsStandardIff(s[1..]);
    var s2 := SkipField(s[1..]).rest;
    ReaderIsStandardIff(s2);
    SecondLength(s, s2);
  }

  lemma SecondLength(s: bytes, s2: bytes)
    requires s != [] && SkipField(s[1..]) == Past(s2) && LongInFront(s2)
    ensures exists k: nat :: LongBehind(s, k)
  {
    SkippedIsField(s[1..], s2);
    var k := |s| - |s2|;
    assert s[1..][..k - 1] == s[1..k] && s[1..][k - 1..] == s[k..];
    assert LongBehind(s, k);
  }

  /** The reader crashes exactly when the first length of a response, or the second behind a whole message, is there in
      the eight-byte form. */
  lemma PanicIff(s: bytes)
    ensures DecodeResponse(s).0 == Panic <==> s != [] && (LongInFront(s[1..]) || exists k: nat :: LongBehind(s, k))
  {
    if s != [] {
      ReaderIsStandardIff(s[1..]);
      forall k: nat | LongBehind(s, k)
        ensures DecodeResponse(s).0 == Panic
      {
        LongBehindPanics(s, k);
      }
      if DecodeResponse(s).0 == Panic && !LongInFront(s[1..]) {
        PanicShowsLong(s);
      }
    }
  }

  /** What a cut response comes to: the first of its lengths that is there in the eight-byte form crashes the reader, and
      otherwise the stream ends too early. It is never answered. */
  lemma CutFrameOutcome(status: byte, msg: bytes, pad: bytes, k: nat)
    requires IsField(msg) && IsField(pad) && k < |[status] + msg + pad|
    ensures DecodeResponse(([status] + msg + pad)[..k]).0
            == if (LongInFront(msg) && k >= 9) || (!LongInFront(msg) && LongInFront(pad) && k >= 9 + |msg|) then Panic else Eof
  {
    CutPlaces(status, msg, pad, k);
    var cut := ([status] + msg + pad)[..k];
    if k == 0 {
      assert cut == [];
    } else if k <= |msg| {
      CutInMessage(status, msg, k - 1);
      assert cut == [status] + msg[..k - 1];
    } else {
      CutInPadding(status, msg, pad, k - 1 - |msg|);
      assert cut == [status] + (msg + pad[..k - 1 - |msg|]);
    }
  }

  lemma CutPlaces(status: byte, msg: bytes, pad: bytes, k: nat)
    requires k < |[status] + msg + pad|
    ensures ([status] + msg + pad)[..k]
            == if k == 0 then [] else if k <= |msg| then [status] + msg[..k - 1] else [status] + (msg + pad[..k - 1 - |msg|])
  {
  }

  lemma CutInMessage(status: byte, msg: bytes, j: nat)
    requires IsField(msg) && j < |msg|
    ensures DecodeResponse([status] + msg[..j]).0 == if LongInFront(msg) && j >= 8 then Panic else Eof
  {
    TwoFields(status, msg[..j]);
    CutField(msg, j);
  }

  lemma CutInPadding(status: byte, msg: bytes, pad: bytes, j: nat)
    requires IsField(msg) && IsField(pad) && j < |pad|
    ensures DecodeResponse([status] + (msg + pad[..j])).0
            == if LongInFront(msg) || (LongInFront(pad) && j >= 8) then Panic else Eof
  {
    TwoFields(status, msg + pad[..j]);
    FieldOutcome(msg, pad[..j]);
    CutField(pad, j);
  }

  /** So a cut frame of plain lengths is an error at the end of the stream. */
  lemma CutFrameIsEof(frame: bytes, status: byte, k: nat)
    requires IsPlainFrame(frame, status) && k < |frame|
    ensures DecodeResponse(frame[..k]).0 == Eof
  {
    var msg, pad :| IsPlainField(msg) && IsPlainField(pad) && frame == [status] + msg + pad;
    CutFrameOutcome(status, msg, pad, k);
  }

  /** The frame as a server writes it, with canonical lengths. */
  function Response(status: byte, msg: bytes, pad: bytes): bytes
    requires |msg| < LIMIT && |pad| < LIMIT
  {
    [status] + (AppendVarint(|msg|) + msg) + (AppendVarint(|pad|) + pad)
  }

  /** It is answered exactly when message and padding have less than 2^30 bytes; longer ones crash the reader. */
  lemma ResponseIsAnsweredIff(status: byte, msg: bytes, pad: bytes, rest: bytes)
    requires |msg| < LIMIT && |pad| < LIMIT
    ensures IsFrame(Response(status, msg, pad), status)
    ensures DecodeResponse(Response(status, msg, pad) + rest)
            == if |msg| < 0x4000_0000 && |pad| < 0x4000_0000 then (AnswerOf(status), rest) else (Panic, [])
  {
    AppendedIsField(msg);
    AppendedIsField(pad);
    var m, n := AppendVarint(|msg|) + msg, AppendVarint(|pad|) + pad;
    assert Response(status, msg, pad) == [status] + m + n;
    FrameOutcome(status, m, n, rest);
    AnyFrame(status, m, n);
  }

  lemma AnyFrame(status: byte, msg: bytes, pad: bytes)
    requires IsField(msg) && IsField(pad)
    ensures IsFrame([status] + msg + pad, status)
  {
  }

  lemma AppendedIsField(body: bytes)
    requires |body| < LIMIT
    ensures IsField(AppendVarint(|body|) + body) && (LongInFront(AppendVarint(|body|) + body) <==> |body| >= 0x4000_0000)
  {
    AppendReadsBack(|body|, []);
    SmallRemainder(|body|, LIMIT);
    assert AppendVarint(|body|) + [] == AppendVarint(|body|);
    AppendedOutcome(|body|, body);
    ReaderIsStandardIff(AppendVarint(|body|) + body);
  }
}
