/** The three readers of a header block: a search in a growing buffer, and two loops that take a byte at a time. */
module HeaderBlock {
  import opened Bytes
  import Stack = ByteStack

  const TERMINATOR: bytes := [13, 10, 13, 10]
  const LIMIT := 65536

  /** `s.indexOf("\r\n\r\n", from)` */
  function Find(s: bytes, from: nat): (i: int)
    ensures i == -1 || (from <= i && At(s, i, TERMINATOR))
    ensures forall j: nat :: from <= j && (i == -1 || j < i) ==> !At(s, j, TERMINATOR)
    decreases |s| - from
  {
    if from + 4 > |s| then -1 else if At(s, from, TERMINATOR) then from else Find(s, from + 1)
  }

  /** `Starved`: the stream ends before the reader is done. */
  datatype Outcome = Head(head: bytes, rest: bytes) | TooLarge | Starved

  /** What a reader without a limit should make of a stream: the text before the first terminator, and what is behind it. */
  function Block(s: bytes): Outcome {
    if Find(s, 0) == -1 then Starved else Head(s[..Find(s, 0)], s[Find(s, 0) + 4..])
  }

  /** A reader that gives up on the byte behind the limit, unless the terminator ends with that byte. */
  function BlockWithin(s: bytes): Outcome {
    var e := Find(s, 0);
    if e != -1 && e + 4 <= LIMIT + 1 then Head(s[..e], s[e + 4..])
    else if |s| > LIMIT then TooLarge
    else Starved
  }

  lemma FirstIsUnique(s: bytes, e: nat)
    requires At(s, e, TERMINATOR) && forall j: nat :: j < e ==> !At(s, j, TERMINATOR)
    ensures Find(s, 0) == e
  {
  }

  lemma AtInPrefix(s: bytes, k: nat, i: nat)
    requires k <= |s|
    ensures At(s[..k], i, TERMINATOR) <==> At(s, i, TERMINATOR) && i + 4 <= k
  {
    if i + 4 <= k {
      assert s[..k][i..i + 4] == s[i..i + 4];
    }
  }

  /** A terminator found in a prefix is the first of the whole stream. */
  lemma FoundInPrefix(s: bytes, k: nat)
    requires k <= |s| && Find(s[..k], 0) != -1
    ensures Find(s, 0) == Find(s[..k], 0)
  {
    var e := Find(s[..k], 0);
    forall j: nat | j <= e
      ensures At(s[..k], j, TERMINATOR) <==> At(s, j, TERMINATOR)
    {
      AtInPrefix(s, k, j);
      AtInPrefix(s, k, e);
    }
    FirstIsUnique(s, e);
  }

  /** The readers agree on a stream exactly when it ends within the limit or its first block does. */
  lemma ReadersAgreeIff(s: bytes)
    ensures Block(s) == BlockWithin(s) <==> |s| <= 65536 || (Find(s, 0) != -1 && Find(s, 0) + 4 <= 65537)
  {
  }

  /** What a head and a rest say about the stream: nothing is lost, and the head holds no terminator, nor does one
      begin in it. */
  lemma BlockIsFirst(s: bytes, head: bytes, rest: bytes)
    ensures Block(s) == Head(head, rest)
            <==> s == head + [13, 10, 13, 10] + rest && forall i: nat :: i < |head| ==> !At(s, i, [13, 10, 13, 10])
  {
    if s == head + TERMINATOR + rest && forall i: nat :: i < |head| ==> !At(s, i, TERMINATOR) {
      assert s[|head|..|head| + 4] == TERMINATOR;
      FirstIsUnique(s, |head|);
      assert s[..|head|] == head && s[|head| + 4..] == rest;
    }
    if Block(s) == Head(head, rest) {
      var e := Find(s, 0);
      assert s == s[..e] + s[e..e + 4] + s[e + 4..];
    }
  }

  // ---- the growing buffer -----------------------------------------------------------------

  /** The bytes that arrive before the socket fails. Nobody listens for its closing. */
  function UpToError(arrivals: seq<Stack.Arrival>): bytes {
    if arrivals == [] then []
    else match arrivals[0]
      case Bytes(data) => data + UpToError(arrivals[1..])
      case Closing => UpToError(arrivals[1..])
      case Failing => []
  }

  /** The head was read, the reader waits for ever, or the error was thrown. */
  datatype HttpHead = Read(head: bytes) | Waiting | Thrown

  class Client {
    /** The events still to come. */
    var arrivals: seq<Stack.Arrival>

    constructor (arrivals: seq<Stack.Arrival>)
      ensures this.arrivals == arrivals
    {
      this.arrivals := arrivals;
    }

    /** The head, and what is behind it is put back in front. */
    method ReadHttpHead(first: bytes) returns (r: HttpHead)
      modifies this
      ensures match Block(first + UpToError(old(arrivals)))
              case Head(h, rest) => r == Read(h) && UpToError(arrivals) == rest
              case _ => r == if Stack.Failing in old(arrivals) then Thrown else Waiting
    {
      ghost var s := first + UpToError(arrivals);
      var buffer := first;
      while true
        invariant s == buffer + UpToError(arrivals)
        invariant Stack.Failing in arrivals <==> Stack.Failing in old(arrivals)
        decreases |arrivals|
      {
        var end := Find(buffer, 0);
        assert s[..|buffer|] == buffer && s[|buffer|..] == UpToError(arrivals);
        if end != -1 {
          FoundInPrefix(s, |buffer|);
          assert s[..end] == buffer[..end];
          assert s[end + 4..] == buffer[end + 4..] + UpToError(arrivals);
          if |buffer| > end + 4 {
            arrivals := [Stack.Bytes(buffer[end + 4..])] + arrivals;
          }
          return Read(buffer[..end]);
        }
        if arrivals == [] {
          assert s == buffer;
          return Waiting;
        }
        match arrivals[0] {
          case Bytes(data) =>
            Associate(buffer, data, UpToError(arrivals[1..]));
            buffer := buffer + data;
          case Closing =>
          case Failing =>
            assert s == buffer;
            return Thrown;
        }
        arrivals := arrivals[1..];
      }
    }
  }

  // ---- a byte at a time -----------------------------------------------------------------------

  predicate EndsWithTerminator(text: bytes) {
    |text| >= 4 && text[|text| - 4..] == TERMINATOR
  }

  /** No terminator ends within the first `k` bytes. */
  predicate NoneWithin(s: bytes, k: nat) {
    forall j: nat :: j + 4 <= k ==> !At(s, j, TERMINATOR)
  }

  lemma EndsHere(s: bytes, k: nat)
    requires k < |s|
    ensures EndsWithTerminator(s[..k + 1]) <==> k >= 3 && At(s, k - 3, TERMINATOR)
  {
    if k >= 3 {
      assert s[..k + 1][k - 3..] == s[k - 3..k + 1];
    }
  }

  lemma NextByte(s: bytes, k: nat)
    requires k < |s| && k <= LIMIT && NoneWithin(s, k)
    ensures var text := s[..k + 1];
            if EndsWithTerminator(text) then BlockWithin(s) == Head(text[..|text| - 4], s[k + 1..]) else NoneWithin(s, k + 1)
  {
    EndsHere(s, k);
    if k >= 3 && At(s, k - 3, TERMINATOR) {
      FirstAt(s, k - 3);
      assert s[..k + 1][..k - 3] == s[..k - 3];
    } else {
      StillNone(s, k);
    }
  }

  lemma FirstAt(s: bytes, e: nat)
    requires At(s, e, TERMINATOR) && NoneWithin(s, e + 3)
    ensures Find(s, 0) == e
  {
    FirstIsUnique(s, e);
  }

  lemma StillNone(s: bytes, k: nat)
    requires NoneWithin(s, k) && (k < 3 || !At(s, k - 3, TERMINATOR))
    ensures NoneWithin(s, k + 1)
  {
  }

  lemma UsedUp(s: bytes, k: nat)
    requires k <= LIMIT && NoneWithin(s, k)
    ensures k == |s| ==> BlockWithin(s) == Starved
  {
  }

  lemma OverLimit(s: bytes, k: nat)
    requires LIMIT < k <= |s| && NoneWithin(s, k)
    ensures BlockWithin(s) == TooLarge
  {
  }

  lemma OneMore(s: bytes, k: nat)
    requires k < |s|
    ensures s[..k] + s[k..][..1] == s[..k + 1] && s[k..][1..] == s[k + 1..]
  {
  }

  /** `readUntilCrlfCrlf` over a link: however the stream arrives, the outcome depends on its bytes only, and nothing
      behind the block has been taken. A socket that closes or fails can only make it fail. */
  method ReadUntilCrlfCrlf(link: Stack.Link) returns (head: Option<bytes>, tooLarge: bool)
    requires link.Idle()
    modifies link, link.sb
    ensures head.Some? || tooLarge || !old(link.Calm()) || BlockWithin(old(link.Stream())) == Starved
    ensures tooLarge ==> head == None && BlockWithin(old(link.Stream())) == TooLarge
    ensures head.Some? ==> link.Idle() && BlockWithin(old(link.Stream())) == Head(head.value, link.Stream())
  {
    ghost var s := link.Stream();
    var text: bytes := [];
    while true
      invariant link.Idle() && (old(link.Calm()) ==> link.Calm())
      invariant |text| <= LIMIT && |text| <= |s| && text == s[..|text|] && link.Stream() == s[|text|..]
      invariant NoneWithin(s, |text|)
      decreases LIMIT - |text|
    {
      ghost var k := |text|;
      var next := link.Await(1);
      if next.None? {
        UsedUp(s, k);
        return None, false;
      }
      OneMore(s, k);
      NextByte(s, k);
      text := text + next.value;
      if EndsWithTerminator(text) {
        return Some(text[..|text| - 4]), false;
      }
      if |text| > LIMIT {
        OverLimit(s, k + 1);
        return None, true;
      }
    }
  }

  /** The handshake's loop is the same, but keeps the terminator and then asks for status 101. */
  method ReadHandshake(link: Stack.Link, upgraded: bytes -> bool) returns (ok: bool)
    requires link.Idle()
    modifies link, link.sb
    ensures match BlockWithin(old(link.Stream()))
            case Head(head, rest) =>
              && (ok ==> upgraded(head + TERMINATOR) && link.Idle() && link.Stream() == rest)
              && (old(link.Calm()) ==> ok == upgraded(head + TERMINATOR))
            case _ => !ok
  {
    var head, tooLarge := ReadUntilCrlfCrlf(link);
    return head.Some? && upgraded(head.value + TERMINATOR);
  }
}
