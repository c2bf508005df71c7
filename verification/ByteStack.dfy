/** The receiving stack of a VMess-over-WebSocket node: socket events, frames, a byte source, chunks. */
module ByteStack {
  import opened Bytes
  import opened SB = SocketBuffers
  import Ws = WsFrames
  import A = AeadFraming
  import V = VmessChunks
  import Records

  /** What a socket can still do: deliver bytes, close, or fail. */
  datatype Arrival = Bytes(data: bytes) | Closing | Failing

  /** The bytes that arrive before the socket closes. */
  function UpToClose(arrivals: seq<Arrival>): bytes {
    if arrivals == [] then []
    else match arrivals[0]
      case Bytes(data) => data + UpToClose(arrivals[1..])
      case Failing => UpToClose(arrivals[1..])
      case Closing => []
  }

  predicate OnlyBytes(arrivals: seq<Arrival>) {
    forall i :: 0 <= i < |arrivals| ==> arrivals[i].Bytes?
  }

  /** A socket buffer and the events that have not fired yet. */
  class Link {
    const sb: SocketBuffer
    var arrivals: seq<Arrival>

    constructor (arrivals: seq<Arrival>)
      ensures Idle() && Stream() == UpToClose(arrivals) && fresh(sb) && (OnlyBytes(arrivals) ==> Calm())
    {
      this.arrivals := arrivals;
      sb := new SocketBuffer();
    }

    /** No promise pending. */
    ghost predicate Idle()
      reads this, sb
    {
      sb.waiters == []
    }

    /** The socket is open and will neither close nor fail. */
    ghost predicate Calm()
      reads this, sb
    {
      !sb.ended && OnlyBytes(arrivals)
    }

    /** Every byte that is buffered or still to arrive. */
    ghost function Stream(): bytes
      reads this, sb
    {
      sb.buffer + if sb.ended then [] else UpToClose(arrivals)
    }

    /** The next event fires. */
    method Fire()
      requires arrivals != []
      modifies this, sb
      ensures arrivals == old(arrivals)[1..]
      ensures sb.View() == Step(old(sb.View()), match old(arrivals)[0]
                                                case Bytes(data) => Chunk(data) case Closing => Close case Failing => Error)
    {
      match arrivals[0] {
        case Bytes(data) => sb.OnData(data);
        case Closing => sb.OnClose();
        case Failing => sb.OnError();
      }
      arrivals := arrivals[1..];
    }

    /** Any number of events fire before the program goes on. */
    method Pause()
      requires Idle()
      modifies this, sb
      ensures Idle() && Stream() == old(Stream()) && (old(Calm()) ==> Calm())
    {
      while *
        invariant Idle() && Stream() == old(Stream()) && (old(Calm()) ==> Calm())
        decreases |arrivals|
      {
        if arrivals == [] {
          return;
        }
        IdleStep(sb.View(), arrivals);
        Fire();
      }
    }

    /** `await buffer.read(count)`: the next `count` bytes however they arrive. None if they never do, or if the socket
        closes or fails first. */
    method Await(count: nat) returns (r: Option<bytes>)
      requires Idle()
      modifies this, sb
      ensures r.Some? ==>
                var s := old(Stream());
                count <= |s| && r.value == s[..count] && Idle() && Stream() == s[count..] && (old(Calm()) ==> Calm())
      ensures old(Calm()) && count <= |old(Stream())| ==> r.Some?
    {
      Pause();
      ghost var s := Stream();
      if sb.ended {
        return None;
      }
      var id := sb.issued;
      var already := |sb.settled|;
      OneRead(sb.View(), count);
      sb.Read(count);
      while |sb.settled| == already
        invariant old(Calm()) ==> Calm()
        invariant |sb.settled| == already ==>
                    !sb.ended && sb.waiters == [Fixed(id, count)] && |sb.buffer| < count && Stream() == s
        invariant |sb.settled| != already ==>
                    && |sb.settled| == already + 1 && Idle()
                    && if sb.settled[already].result.Data?
                       then count <= |s| && Stream() == s[count..] && sb.settled[already].result == Data(s[..count])
                       else !old(Calm())
        decreases |arrivals|
      {
        if arrivals == [] {
          return None;
        }
        WaitStep(sb.View(), id, count, arrivals);
        Fire();
      }
      match sb.settled[already].result {
        case Data(data) => return Some(data);
        case _ => return None;
      }
    }
  }

  /** The event a socket's next arrival is to its buffer. */
  function EventOf(a: Arrival): Event {
    match a case Bytes(data) => Chunk(data) case Closing => Close case Failing => Error
  }

  /** The bytes of a buffer and what is still to arrive. */
  function StreamOf(s: State, arrivals: seq<Arrival>): bytes {
    s.buffer + if s.ended then [] else UpToClose(arrivals)
  }

  /** An event while nobody waits changes nothing about the stream. */
  lemma IdleStep(s: State, arrivals: seq<Arrival>)
    requires s.waiters == [] && arrivals != []
    ensures var t := Step(s, EventOf(arrivals[0]));
            && t.waiters == [] && StreamOf(t, arrivals[1..]) == StreamOf(s, arrivals)
            && (arrivals[0].Bytes? ==> t.ended == s.ended)
  {
    match arrivals[0] {
      case Bytes(data) => Associate(s.buffer, data, UpToClose(arrivals[1..]));
      case Closing => assert s.settled + SettleAll(s.waiters, true) == s.settled;
      case Failing => assert s.settled + SettleAll(s.waiters, false) == s.settled;
    }
  }

  /** An event while one fixed read waits: the read is served, rejected, or waits on. */
  lemma WaitStep(s: State, id: nat, count: nat, arrivals: seq<Arrival>)
    requires !s.ended && s.waiters == [Fixed(id, count)] && |s.buffer| < count && arrivals != []
    ensures var t := Step(s, EventOf(arrivals[0]));
            var all := StreamOf(s, arrivals);
            if arrivals[0].Bytes? && |s.buffer + arrivals[0].data| < count then
              t == s.(buffer := s.buffer + arrivals[0].data) && StreamOf(t, arrivals[1..]) == all
            else if arrivals[0].Bytes? then
              && !t.ended && t.waiters == [] && t.settled == s.settled + [Settlement(Fixed(id, count), Data(all[..count]))]
              && count <= |all| && StreamOf(t, arrivals[1..]) == all[count..]
            else
              && t.waiters == [] && t.settled == s.settled + [Settlement(Fixed(id, count), Rejected)]
  {
    match arrivals[0] {
      case Bytes(data) =>
        OneWaiter(s.(buffer := s.buffer + data), id, count);
        Associate(s.buffer, data, UpToClose(arrivals[1..]));
        if |s.buffer + data| >= count {
          FrontOfTotal(s.buffer + data, UpToClose(arrivals[1..]), count);
        }
      case Closing => assert SettleAll(s.waiters, true) == [Settlement(Fixed(id, count), Rejected)];
      case Failing => assert SettleAll(s.waiters, false) == [Settlement(Fixed(id, count), Rejected)];
    }
  }

  /** Why a reader gets nothing more: a close frame ended the stream, the bytes never came, or something threw. */
  datatype Failure = Ended | Lost | Threw

  /** The frame parser over a link, answering pings on the way. */
  class WsStream {
    const link: Link
    const keys: nat -> Ws.Key
    /** What was written to the socket: one pong per ping. */
    var sent: bytes
    var used: nat

    constructor (link: Link, keys: nat -> Ws.Key)
      ensures this.link == link && this.keys == keys && sent == [] && used == 0
    {
      this.link, this.keys := link, keys;
      sent, used := [], 0;
    }

    ghost predicate Idle()
      reads this, link, link.sb
    {
      link.Idle()
    }

    ghost predicate Calm()
      reads this, link, link.sb
    {
      link.Calm()
    }

    /** The two header bytes and the length they announce. */
    method ReadHeader() returns (r: Option<(byte, bool, nat)>)
      requires Idle()
      modifies link, link.sb
      ensures var s := old(link.Stream());
              var length := if |s| < 2 then None else Ws.ParseLength(s[1] % 128, s[2..]);
              && (r.Some? ==> && length.Some? && r == Some((s[0], s[1] >= 128, length.value.0)) && Idle()
                              && link.Stream() == s[2 + length.value.1..] && (old(Calm()) ==> Calm()))
              && (old(Calm()) && length.Some? ==> r.Some?)
    {
      ghost var s := link.Stream();
      var b0 := link.Await(1);
      if b0.None? {
        return None;
      }
      var b1 := link.Await(1);
      if b1.None? {
        return None;
      }
      assert s[1..][1..] == s[2..] && s[1..][..1] == [s[1]];
      var length := ReadLength(b1.value[0] % 128);
      if length.None? {
        return None;
      }
      ghost var k := Ws.ParseLength(s[1] % 128, s[2..]).value.1;
      assert s[2..][k..] == s[2 + k..];
      return Some((b0.value[0], b1.value[0] >= 128, length.value));
    }

    /** The length in the second byte, or the two or eight bytes behind it. */
    method ReadLength(short: byte) returns (r: Option<nat>)
      requires Idle()
      modifies link, link.sb
      ensures var s := old(link.Stream());
              var length := Ws.ParseLength(short, s);
              && (r.Some? ==> && length.Some? && r == Some(length.value.0) && Idle()
                              && link.Stream() == s[length.value.1..] && (old(Calm()) ==> Calm()))
              && (old(Calm()) && length.Some? ==> r.Some?)
    {
      if short == 126 {
        var two := link.Await(2);
        return if two.None? then None else Some(FromU16(two.value[0], two.value[1]));
      } else if short == 127 {
        var eight := link.Await(8);
        return if eight.None? then None else Some(FromBigEndian(eight.value));
      }
      return Some(short);
    }

    /** One whole frame, unmasked. */
    method ReadFrame() returns (r: Option<Ws.Frame>)
      requires Idle()
      modifies link, link.sb
      ensures var p := Ws.Parse(old(link.Stream()));
              && (r.Some? ==> p.Some? && r == Some(p.value.0) && Idle() && link.Stream() == p.value.1 && (old(Calm()) ==> Calm()))
              && (old(Calm()) && p.Some? ==> r.Some?)
    {
      var header := ReadHeader();
      if header.None? {
        return None;
      }
      var (first, masked, length) := header.value;
      r := ReadBody(first, masked, length);
    }

    /** The masking key, if any, and the payload. */
    method ReadBody(first: byte, masked: bool, length: nat) returns (r: Option<Ws.Frame>)
      requires Idle()
      modifies link, link.sb
      ensures var p := Ws.ParseBody(first, masked, length, old(link.Stream()));
              && (r.Some? ==> p.Some? && r == Some(p.value.0) && Idle() && link.Stream() == p.value.1 && (old(Calm()) ==> Calm()))
              && (old(Calm()) && p.Some? ==> r.Some?)
    {
      ghost var body := link.Stream();
      if masked {
        var key := link.Await(4);
        if key.None? {
          return None;
        }
        var payload := link.Await(length);
        if payload.None? {
          return None;
        }
        assert body[4..][..length] == body[4..4 + length] && body[4..][length..] == body[4 + length..];
        var clear := Ws.MaskPayload(payload.value, key.value);
        return Some(Ws.Frame(first, Some(key.value), clear[..]));
      }
      var payload := link.Await(length);
      if payload.None? {
        return None;
      }
      return Some(Ws.Frame(first, None, payload.value));
    }

    /** `iterator.next()` of the frame loop: the next non-empty payload. */
    method Next() returns (payload: bytes, failure: Option<Failure>)
      requires Idle()
      modifies this, link, link.sb
      ensures NextOutcome(Ws.NextPayload(old(link.Stream())), payload, failure, link.Stream(), old(Calm()))
      ensures failure == None ==> Idle() && (old(Calm()) ==> Calm())
      ensures var (pongs, drawn) := Ws.Pongs(old(link.Stream()), keys, old(used));
              && sent <= old(sent) + pongs
              && (failure != Some(Lost) || old(Calm()) ==> sent == old(sent) + pongs && used == drawn)
    {
      ghost var found, calm, goal := Ws.NextPayload(link.Stream()), Calm(), Ws.Written(link.Stream(), keys, sent, used);
      Ws.WrittenAppends(link.Stream(), keys, sent, used);
      while true
        invariant Idle() && (calm ==> Calm()) && Ws.NextPayload(link.Stream()) == found
        invariant Ws.Written(link.Stream(), keys, sent, used) == goal
        decreases |link.Stream()|
      {
        Ws.WrittenAppends(link.Stream(), keys, sent, used);
        var r := ReadFrame();
        if r.None? {
          return [], Some(Lost);
        }
        var f := r.value;
        if f.Opcode() == Ws.CLOSE {
          return [], Some(Ended);
        }
        if f.Opcode() == Ws.PING {
          sent := sent + Ws.Answer(f.payload, keys, used);
          used := used + 1;
        } else if f.Opcode() != Ws.PONG && |f.payload| > 0 {
          return f.payload, None;
        }
      }
    }
  }

  /** What `next` returns for what the stream holds. Only a socket that closes or fails may make it give up early. */
  predicate NextOutcome(found: Records.Found<bytes, Ws.Reason>, payload: bytes, failure: Option<Failure>, rest: bytes,
                        calm: bool) {
    match found
    case Got(p, behind) => if failure == None then payload == p && rest == behind else failure == Some(Lost) && !calm
    case Stop(Closed) => failure == Some(Ended) || (failure == Some(Lost) && !calm)
    case Stop(Incomplete) => failure == Some(Lost)
  }

  /** `iterableSource`: a reader of exact counts over the payloads of a frame stream. */
  class IterableSource {
    const ws: WsStream
    var pending: bytes

    constructor (ws: WsStream)
      ensures this.ws == ws && pending == []
    {
      this.ws := ws;
      pending := [];
    }

    ghost predicate Idle()
      reads this, ws, ws.link, ws.link.sb
    {
      ws.Idle()
    }

    ghost predicate Calm()
      reads this, ws, ws.link, ws.link.sb
    {
      ws.Calm()
    }

    /** Every payload byte that is buffered here or still to come. */
    ghost function Total(): bytes
      reads this, ws, ws.link, ws.link.sb
    {
      pending + Ws.Content(ws.link.Stream())
    }

    method Read(count: nat) returns (out: bytes, failure: Option<Failure>)
      requires Idle()
      modifies this, ws, ws.link, ws.link.sb
      ensures var t := old(Total());
              && (failure == None ==> count <= |t| && out == t[..count] && Idle() && Total() == t[count..] && (old(Calm()) ==> Calm()))
              && (old(Calm()) && count <= |t| ==> failure == None)
              && failure != Some(Threw)
    {
      ghost var t := Total();
      while |pending| < count
        invariant Idle() && Total() == t && (old(Calm()) ==> Calm())
        decreases |ws.link.Stream()|
      {
        ghost var before := pending;
        var payload, stop := ws.Next();
        if stop.Some? {
          return [], stop;
        }
        pending := pending + payload;
        Associate(before, payload, Ws.Content(ws.link.Stream()));
      }
      FrontOfTotal(pending, Ws.Content(ws.link.Stream()), count);
      out := pending[..count];
      pending := pending[count..];
      return out, None;
    }
  }

  lemma FrontOfTotal(pending: bytes, content: bytes, count: nat)
    requires count <= |pending|
    ensures (pending + content)[..count] == pending[..count] && (pending + content)[count..] == pending[count..] + content
  {
  }

  datatype ChunkRead = Plain(plain: bytes) | End | Failed(failure: Failure)

  /** The chunk reader on top. */
  class VmessChunkReader {
    const source: IterableSource
    const channel: A.Channel
    var count: nat

    constructor (source: IterableSource, channel: A.Channel)
      ensures this.source == source && this.channel == channel && count == 0
    {
      this.source, this.channel := source, channel;
      count := 0;
    }

    /** One chunk; End at the zero size. Building the nonce of the 65537th chunk throws. */
    method ReadChunk() returns (r: ChunkRead)
      requires source.Idle()
      modifies this, source, source.ws, source.ws.link, source.ws.link.sb
      ensures var next := A.NextChunk(channel, old(count), true, old(source.Total()));
              && ChunkOutcome(next, old(count) < V.LIMIT, r, old(source.Calm()))
              && (r.Plain? ==> && next.Got? && source.Idle() && source.Total() == next.rest && count == old(count) + 1
                               && (old(source.Calm()) ==> source.Calm()))
    {
      ghost var t := source.Total();
      var sizeHeader, failure := source.Read(2);
      if failure.Some? {
        return Failed(failure.value);
      }
      var size := FromU16(sizeHeader[0], sizeHeader[1]);
      if size == 0 {
        return End;
      }
      var sealed: bytes;
      sealed, failure := source.Read(size);
      if failure.Some? {
        return Failed(failure.value);
      }
      assert t[2..][..size] == t[2..2 + size] && t[2..][size..] == t[2 + size..];
      var index := count;
      count := count + 1;
      if V.NonceThrows(index) {
        return Failed(Threw);
      }
      var text := A.OpenChunk(channel, index, sealed);
      return if text.None? then Failed(Threw) else Plain(text.value);
    }

    /** The relay loop: all plaintext until the end marker. What it has when it fails is the beginning of that. */
    method ReceiveAll() returns (plaintext: bytes, r: ChunkRead)
      requires source.Idle() && count == 0
      modifies this, source, source.ws, source.ws.link, source.ws.link.sb
      ensures RelayOutcome(A.Relayed(channel, 0, old(source.Total()), []), plaintext, r, old(source.Calm()))
    {
      plaintext := [];
      ghost var goal, calm := A.Relayed(channel, 0, source.Total(), []), source.Calm();
      while true
        invariant source.Idle() && (calm ==> source.Calm())
        invariant A.Relayed(channel, count, source.Total(), plaintext) == goal
        decreases |source.Total()|
      {
        ghost var index, s := count, source.Total();
        r := ReadChunk();
        if !r.Plain? {
          RelayEnds(channel, index, s, plaintext, goal, r, calm);
          return;
        }
        RelayStep(channel, index, s, plaintext, goal, r.plain, source.Total(), count);
        plaintext := plaintext + r.plain;
      }
    }
  }

  /** What reading a chunk comes to. Only the 65537th nonce, or a socket that closes or fails, may make it fail early. */
  predicate ChunkOutcome(next: Records.Found<bytes, A.Reason>, room: bool, r: ChunkRead, calm: bool) {
    match next
    case Got(plain, _) => if room && calm then r == Plain(plain) else r.Failed? || (room && r == Plain(plain))
    case Stop(EndMarker(_)) => r == End || (r.Failed? && !calm)
    case Stop(_) => r.Failed?
  }

  /** All of the plaintext at an end marker, the beginning of it otherwise; and only a socket that closes or fails, or a
      body without end marker or of more than 65536 chunks, keeps the relay from the end. */
  predicate RelayOutcome(goal: (bytes, nat, Records.Found<bytes, A.Reason>), plaintext: bytes, r: ChunkRead, calm: bool) {
    var marked := goal.2.Stop? && goal.2.why.EndMarker?;
    && plaintext <= goal.0 && (r == End || r.Failed?)
    && (r == End ==> plaintext == goal.0 && marked)
    && (calm && goal.1 <= V.LIMIT && marked ==> r == End)
  }

  lemma RelayEnds(c: A.Channel, count: nat, s: bytes, plaintext: bytes, goal: (bytes, nat, Records.Found<bytes, A.Reason>),
                  r: ChunkRead, calm: bool)
    requires A.Relayed(c, count, s, plaintext) == goal && !r.Plain?
    requires ChunkOutcome(A.NextChunk(c, count, true, s), count < V.LIMIT, r, calm)
    ensures RelayOutcome(goal, plaintext, r, calm)
  {
    A.RelayedAppends(c, count, s, plaintext);
    A.ReadOne(c, count, s);
  }

  /** One turn of the relay loop. */
  lemma RelayStep(c: A.Channel, count: nat, s: bytes, plaintext: bytes, goal: (bytes, nat, Records.Found<bytes, A.Reason>),
                  plain: bytes, rest: bytes, next: nat)
    requires A.Relayed(c, count, s, plaintext) == goal && next == count + 1
    requires A.NextChunk(c, count, true, s) == Records.Got(plain, rest)
    ensures |rest| < |s| && A.Relayed(c, next, rest, plaintext + plain) == goal
  {
  }

  lemma WholeRelay(c: A.Channel, s: bytes)
    ensures var (parts, stop) := A.ReadChunks(c, 0, true, s); A.Relayed(c, 0, s, []) == (Flatten(parts), |parts|, stop)
  {
    A.RelayedAppends(c, 0, s, []);
    assert [] + Flatten(A.ReadChunks(c, 0, true, s).0) == Flatten(A.ReadChunks(c, 0, true, s).0);
  }

  lemma FlattenPrefix(whole: seq<bytes>, done: seq<bytes>)
    requires done <= whole
    ensures Flatten(done) <= Flatten(whole)
  {
    FlattenAppend(done, whole[|done|..]);
    assert whole == done + whole[|done|..];
  }

  /** What the chunk reader makes of a wire that carries a sealed body and its end marker. */
  lemma WireReads(aead: A.Aead, key: bytes, iv: V.Iv, writes: seq<bytes>, frames: seq<Ws.Frame>, trailer: bytes)
    requires A.Lawful(aead) && Ws.Sendable(frames)
    requires Ws.Payloads(frames) == V.Body(V.BodyChannel(aead, key, iv), writes)
    ensures A.ReadChunks(V.BodyChannel(aead, key, iv), 0, true, Ws.Content(Ws.EncodeAll(frames) + trailer))
            == (A.AllSlices(writes), Records.Stop(A.EndMarker(Ws.Content(trailer))))
  {
    Ws.ContentOfFrames(frames, trailer);
    V.BodyRoundTrip(aead, key, iv, writes, Ws.Content(trailer));
  }

  /** A stream that was cut reads as the beginning of what the whole one does, and at an end marker as all of it. */
  lemma CutStreamReads(c: A.Channel, cut: bytes, rest: bytes, parts: seq<bytes>)
    requires A.ReadChunks(c, 0, true, Ws.Content(cut + rest)).0 == parts
    ensures var (some, stop) := A.ReadChunks(c, 0, true, Ws.Content(cut));
            && some <= parts && (stop.Stop? && stop.why.EndMarker? ==> some == parts)
  {
    Ws.ContentPrefix(cut, rest);
    var part, whole := Ws.Content(cut), Ws.Content(cut + rest);
    assert whole == part + whole[|part|..];
    A.ReadChunksPrefix(c, 0, part, whole[|part|..]);
  }

  /** The same for the beginning of such a wire. */
  lemma CutWireReads(aead: A.Aead, key: bytes, iv: V.Iv, writes: seq<bytes>, wire: bytes, cut: bytes)
    requires A.ReadChunks(V.BodyChannel(aead, key, iv), 0, true, Ws.Content(wire)).0 == A.AllSlices(writes)
    requires cut <= wire
    ensures var (parts, stop) := A.ReadChunks(V.BodyChannel(aead, key, iv), 0, true, Ws.Content(cut));
            && Flatten(parts) <= Flatten(writes) && |parts| <= |A.AllSlices(writes)|
            && (stop.Stop? && stop.why.EndMarker? ==> Flatten(parts) == Flatten(writes))
  {
    var c := V.BodyChannel(aead, key, iv);
    assert wire == cut + wire[|cut|..];
    CutStreamReads(c, cut, wire[|cut|..], A.AllSlices(writes));
    A.AllSlicesFlatten(writes);
    FlattenPrefix(A.AllSlices(writes), A.ReadChunks(c, 0, true, Ws.Content(cut)).0);
  }

  /** For any writes of at most 65536 slices, any frames that carry the sealed body with pings and pongs anywhere in
      between, any masks, any segmentation of the wire into data events and any interleaving of those events with the
      reads: the receiver yields exactly the bytes written, and then the end. If the socket closes or fails on the way,
      it yields the beginning of those bytes and fails, unless the end marker was read before. */
  method EndToEnd(aead: A.Aead, key: bytes, iv: V.Iv, writes: seq<bytes>, frames: seq<Ws.Frame>, trailer: bytes,
                  arrivals: seq<Arrival>, keys: nat -> Ws.Key) returns (plaintext: bytes, r: ChunkRead)
    requires A.Lawful(aead) && |A.AllSlices(writes)| <= V.LIMIT
    requires Ws.Sendable(frames)
    requires Ws.Payloads(frames) == V.Body(V.BodyChannel(aead, key, iv), writes)
    requires UpToClose(arrivals) <= Ws.EncodeAll(frames) + trailer
    ensures plaintext <= Flatten(writes) && (r.Failed? || (r == End && plaintext == Flatten(writes)))
    ensures OnlyBytes(arrivals) && UpToClose(arrivals) == Ws.EncodeAll(frames) + trailer ==> r == End
  {
    var link := new Link(arrivals);
    var ws := new WsStream(link, keys);
    var source := new IterableSource(ws);
    var reader := new VmessChunkReader(source, V.BodyChannel(aead, key, iv));
    WireReads(aead, key, iv, writes, frames, trailer);
    CutWireReads(aead, key, iv, writes, Ws.EncodeAll(frames) + trailer, UpToClose(arrivals));
    assert source.Total() == Ws.Content(UpToClose(arrivals));
    WholeRelay(reader.channel, source.Total());
    plaintext, r := reader.ReceiveAll();
  }

  // ---- the sending side -------------------------------------------------------------

  /** Every buffer the chunk writer hands to the sink is short. */
  lemma {:induction false} SealedChunksAreShort(c: A.Channel, count: nat, parts: seq<bytes>)
    requires A.Lawful(c.aead) && A.Sliced(parts)
    ensures forall i :: 0 <= i < |A.SealedChunks(c, count, parts)| ==> |A.SealedChunks(c, count, parts)[i]| <= Ws.MAX_SAFE
    decreases |parts|
  {
    if parts != [] {
      var rest := A.SealedChunks(c, count + 1, parts[1..]);
      SealedChunksAreShort(c, count + 1, parts[1..]);
      A.SizeField(c, count, parts[0]);
      assert A.SealedChunks(c, count, parts) == [A.SealedChunk(c, count, parts[0])] + rest;
    }
  }

  /** The frames of a whole body, one per chunk, masked with whatever keys were drawn. */
  function BodyFrames(c: A.Channel, writes: seq<bytes>, keys: nat -> Ws.Key): seq<Ws.Frame> {
    Ws.ClientFrames(A.SealedChunks(c, 0, A.AllSlices(writes)) + [U16(0)], keys, 0)
  }

  /** What the sender puts on the wire is one of the wires the receiver understands. */
  lemma BodyFramesCarry(c: A.Channel, writes: seq<bytes>, keys: nat -> Ws.Key)
    requires A.Lawful(c.aead)
    ensures Ws.Sendable(BodyFrames(c, writes, keys)) && Ws.Payloads(BodyFrames(c, writes, keys)) == V.Body(c, writes)
  {
    A.AllSlicesFlatten(writes);
    SealedChunksAreShort(c, 0, A.AllSlices(writes));
    Ws.ClientFramesCarry(A.SealedChunks(c, 0, A.AllSlices(writes)) + [U16(0)], keys, 0);
  }

  /** All writes through one chunk writer; stops at the first that throws. */
  method SealWrites(writer: V.VmessChunkWriter, writes: seq<bytes>) returns (thrown: bool)
    requires writer.Valid() && writer.count == 0 && writer.sink == []
    modifies writer
    ensures writer.Valid()
    ensures thrown <==> |A.AllSlices(writes)| > V.LIMIT
    ensures !thrown ==> writer.sink == A.SealedChunks(writer.channel, 0, A.AllSlices(writes))
  {
    assert writes[..0] == [];
    for i := 0 to |writes|
      invariant writer.Valid() && writer.count == |A.AllSlices(writes[..i])| <= V.LIMIT
      invariant writer.sink == A.SealedChunks(writer.channel, 0, A.AllSlices(writes[..i]))
    {
      A.AllSlicesSnoc(writes, i);
      ghost var before, more := A.AllSlices(writes[..i]), A.Slices(writes[i]);
      thrown := writer.Write(writes[i]);
      if thrown {
        A.AllSlicesGrow(writes, i + 1);
        return;
      }
      assert more[..|more|] == more;
      A.SealedAppend(writer.channel, 0, before, more);
    }
    assert writes[..|writes|] == writes;
    return false;
  }

  /** Sending a whole body over WebSocket: sealed chunks, the end marker, one masked frame each. */
  method SendBody(aead: A.Aead, key: bytes, iv: V.Iv, writes: seq<bytes>, keys: nat -> Ws.Key) returns (wire: bytes, thrown: bool)
    ensures thrown <==> |A.AllSlices(writes)| > V.LIMIT
    ensures !thrown ==> wire == Ws.EncodeAll(BodyFrames(V.BodyChannel(aead, key, iv), writes, keys))
  {
    wire := [];
    var writer := new V.VmessChunkWriter(aead, key, iv);
    thrown := SealWrites(writer, writes);
    if thrown {
      return;
    }
    writer.End();
    wire := SendBuffers(writer.sink, keys);
  }

  /** One masked frame for every buffer. */
  method SendBuffers(buffers: seq<bytes>, keys: nat -> Ws.Key) returns (wire: bytes)
    ensures wire == Ws.EncodeAll(Ws.ClientFrames(buffers, keys, 0))
  {
    wire := [];
    assert buffers[0..] == buffers && buffers[|buffers|..] == [];
    for i := 0 to |buffers|
      invariant wire + Ws.EncodeAll(Ws.ClientFrames(buffers[i..], keys, i)) == Ws.EncodeAll(Ws.ClientFrames(buffers, keys, 0))
    {
      FirstFrame(buffers, keys, i);
      var frame := Ws.WriteFrame(buffers[i], keys(i));
      Associate(wire, frame, Ws.EncodeAll(Ws.ClientFrames(buffers[i + 1..], keys, i + 1)));
      wire := wire + frame;
    }
    assert wire + [] == wire;
  }

  lemma FirstFrame(buffers: seq<bytes>, keys: nat -> Ws.Key, i: nat)
    requires i < |buffers|
    ensures Ws.EncodeAll(Ws.ClientFrames(buffers[i..], keys, i))
            == Ws.Encode(Ws.ClientFrame(buffers[i], keys(i))) + Ws.EncodeAll(Ws.ClientFrames(buffers[i + 1..], keys, i + 1))
  {
    assert buffers[i..][0] == buffers[i] && buffers[i..][1..] == buffers[i + 1..];
    Ws.EncodeAllFirst(Ws.ClientFrame(buffers[i], keys(i)), Ws.ClientFrames(buffers[i + 1..], keys, i + 1));
  }
}
