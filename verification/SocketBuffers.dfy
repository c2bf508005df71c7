/** The waiter queue behind every socket: bytes come in as events, reads are promises settled in order. */
module SocketBuffers {
  import opened Bytes

  /** A pending read: exactly `count` bytes, or whatever is there but at least one byte. */
  datatype Waiter = Fixed(id: nat, count: nat) | Any(id: nat)

  datatype Result = Data(data: bytes) | Null | Rejected

  datatype Settlement = Settlement(waiter: Waiter, result: Result)

  /** `settled` logs the promises in the order in which they were resolved or rejected. */
  datatype State = State(buffer: bytes, waiters: seq<Waiter>, ended: bool, settled: seq<Settlement>, issued: nat)

  const EMPTY := State([], [], false, [], 0)

  datatype Event = Chunk(data: bytes) | Close | Error | Read(count: nat) | ReadAny

  /** The head waiter can be served from the buffer. */
  predicate CanServe(w: Waiter, buffer: bytes) {
    match w
    case Fixed(_, count) => |buffer| >= count
    case Any(_) => buffer != []
  }

  function Served(w: Waiter, buffer: bytes): (n: nat)
    requires CanServe(w, buffer)
    ensures n <= |buffer|
  {
    match w
    case Fixed(_, count) => count
    case Any(_) => |buffer|
  }

  function Flush(s: State): State
    decreases |s.waiters|
  {
    if s.waiters == [] || !CanServe(s.waiters[0], s.buffer) then s else Flush(Serve(s))
  }

  /** The state after the head waiter was served. */
  function Serve(s: State): State
    requires s.waiters != [] && CanServe(s.waiters[0], s.buffer)
  {
    var n := Served(s.waiters[0], s.buffer);
    s.(buffer := s.buffer[n..], waiters := s.waiters[1..],
       settled := s.settled + [Settlement(s.waiters[0], Data(s.buffer[..n]))])
  }

  /** Settling all waiters at once, in order, when the socket closes or fails. */
  function SettleAll(waiters: seq<Waiter>, closing: bool): seq<Settlement> {
    seq(|waiters|, i requires 0 <= i < |waiters| =>
      Settlement(waiters[i], if closing && waiters[i].Any? then Null else Rejected))
  }

  function Step(s: State, e: Event): State {
    match e
    case Chunk(data) => if s.ended then s else Flush(s.(buffer := s.buffer + data))
    case Close => if s.ended then s else s.(ended := true, waiters := [], settled := s.settled + SettleAll(s.waiters, true))
    case Error => s.(waiters := [], settled := s.settled + SettleAll(s.waiters, false))
    case Read(count) => Issue(s, Fixed(s.issued, count), Rejected)
    case ReadAny => Issue(s, Any(s.issued), Null)
  }

  function Issue(s: State, w: Waiter, afterEnd: Result): State {
    var t := s.(issued := s.issued + 1);
    if s.ended then t.(settled := t.settled + [Settlement(w, afterEnd)])
    else Flush(t.(waiters := t.waiters + [w]))
  }

  /** How reads end with the socket: its closing gives null to those that asked for anything and rejects those that asked
      for a count, its failure rejects all, in the order of the calls; and after the closing they end so at once. */
  lemma EndSettles(s: State)
    requires !s.ended
    ensures var t := Step(s, Close);
            && t.ended && t.waiters == [] && t.buffer == s.buffer && t.settled[..|s.settled|] == s.settled
            && |t.settled| == |s.settled| + |s.waiters|
            && (forall i :: 0 <= i < |s.waiters| ==>
                  t.settled[|s.settled| + i] == Settlement(s.waiters[i], if s.waiters[i].Any? then Null else Rejected))
            && (forall n :: Step(t, Read(n)).settled == t.settled + [Settlement(Fixed(t.issued, n), Rejected)])
            && Step(t, ReadAny).settled == t.settled + [Settlement(Any(t.issued), Null)]
    ensures var t := Step(s, Error);
            && !t.ended && t.waiters == [] && t.buffer == s.buffer && t.settled[..|s.settled|] == s.settled
            && |t.settled| == |s.settled| + |s.waiters|
            && forall i :: 0 <= i < |s.waiters| ==> t.settled[|s.settled| + i] == Settlement(s.waiters[i], Rejected)
  {
  }

  function Run(es: seq<Event>): State {
    if es == [] then EMPTY else Step(Run(es[..|es| - 1]), es[|es| - 1])
  }

  // ---- what every run keeps -----------------------------------------------------

  /** The bytes that arrived before the socket closed. */
  function Received(es: seq<Event>): bytes {
    if es == [] then []
    else
      var before, e := es[..|es| - 1], es[|es| - 1];
      Received(before) + if e.Chunk? && !Run(before).ended then e.data else []
  }

  function Delivered(settled: seq<Settlement>): bytes {
    if settled == [] then []
    else Delivered(settled[..|settled| - 1]) + DataOf(settled[|settled| - 1].result)
  }

  function DataOf(r: Result): bytes {
    match r case Data(d) => d case _ => []
  }

  /** The promises in the order they were settled, then those still waiting: the order of the calls. */
  predicate InOrder(settled: seq<Settlement>, waiters: seq<Waiter>, issued: nat) {
    && |settled| + |waiters| == issued
    && (forall i :: 0 <= i < |settled| ==> settled[i].waiter.id == i)
    && (forall i :: 0 <= i < |waiters| ==> waiters[i].id == |settled| + i)
  }

  /** A fixed read got exactly its count, another read at least one byte, and null means the end. */
  predicate Legal(x: Settlement, ended: bool) {
    match x.result
    case Data(d) => if x.waiter.Fixed? then |d| == x.waiter.count else |d| >= 1
    case Null => x.waiter.Any? && ended
    case Rejected => true
  }

  predicate AllLegal(settled: seq<Settlement>, ended: bool) {
    forall i :: 0 <= i < |settled| ==> Legal(settled[i], ended)
  }

  predicate HeadBlocked(s: State) {
    s.waiters != [] ==> !CanServe(s.waiters[0], s.buffer)
  }

  predicate Inv(s: State, received: bytes) {
    && Delivered(s.settled) + s.buffer == received
    && InOrder(s.settled, s.waiters, s.issued)
    && AllLegal(s.settled, s.ended)
    && (s.ended ==> s.waiters == [])
  }

  lemma {:induction false} DeliveredAppend(a: seq<Settlement>, b: seq<Settlement>)
    ensures Delivered(a + b) == Delivered(a) + Delivered(b)
    decreases |b|
  {
    if b == [] {
      assert a + b == a;
    } else {
      assert (a + b)[..|a + b| - 1] == a + b[..|b| - 1];
      DeliveredAppend(a, b[..|b| - 1]);
    }
  }

  lemma {:induction false} NoneDelivered(b: seq<Settlement>)
    requires forall i :: 0 <= i < |b| ==> !b[i].result.Data?
    ensures Delivered(b) == []
  {
    if b != [] {
      NoneDelivered(b[..|b| - 1]);
    }
  }

  lemma DeliveredSnoc(settled: seq<Settlement>, x: Settlement)
    ensures Delivered(settled + [x]) == Delivered(settled) + DataOf(x.result)
    ensures !x.result.Data? ==> Delivered(settled + [x]) == Delivered(settled)
  {
    assert (settled + [x])[..|settled|] == settled;
    assert Delivered(settled) + [] == Delivered(settled);
  }

  /** Settling the waiters of a closed or failed socket delivers nothing. */
  lemma AbandonDelivers(settled: seq<Settlement>, waiters: seq<Waiter>, closing: bool)
    ensures Delivered(settled + SettleAll(waiters, closing)) == Delivered(settled)
  {
    NoneDelivered(SettleAll(waiters, closing));
    DeliveredAppend(settled, SettleAll(waiters, closing));
    assert Delivered(settled) + [] == Delivered(settled);
  }

  lemma OrderServed(settled: seq<Settlement>, waiters: seq<Waiter>, issued: nat, x: Settlement)
    requires InOrder(settled, waiters, issued) && waiters != [] && x.waiter == waiters[0]
    ensures InOrder(settled + [x], waiters[1..], issued)
  {
  }

  lemma OrderIssued(settled: seq<Settlement>, waiters: seq<Waiter>, issued: nat, w: Waiter)
    requires InOrder(settled, waiters, issued) && w.id == issued
    ensures InOrder(settled, waiters + [w], issued + 1)
  {
  }

  lemma OrderRefused(settled: seq<Settlement>, issued: nat, x: Settlement)
    requires InOrder(settled, [], issued) && x.waiter.id == issued
    ensures InOrder(settled + [x], [], issued + 1)
  {
  }

  lemma OrderAbandoned(settled: seq<Settlement>, waiters: seq<Waiter>, issued: nat, closing: bool)
    requires InOrder(settled, waiters, issued)
    ensures InOrder(settled + SettleAll(waiters, closing), [], issued)
  {
  }

  lemma LegalSnoc(settled: seq<Settlement>, ended: bool, x: Settlement)
    requires AllLegal(settled, ended) && Legal(x, ended)
    ensures AllLegal(settled + [x], ended)
  {
  }

  lemma LegalAbandoned(settled: seq<Settlement>, ended: bool, waiters: seq<Waiter>, closing: bool)
    requires AllLegal(settled, ended)
    ensures AllLegal(settled + SettleAll(waiters, closing), ended || closing)
  {
  }

  lemma DeliveredServed(settled: seq<Settlement>, w: Waiter, buffer: bytes, n: nat)
    requires n <= |buffer|
    ensures Delivered(settled + [Settlement(w, Data(buffer[..n]))]) + buffer[n..] == Delivered(settled) + buffer
  {
    DeliveredSnoc(settled, Settlement(w, Data(buffer[..n])));
    Rejoin(Delivered(settled), buffer, n);
  }

  lemma ServeKeepsInv(s: State, received: bytes)
    requires Inv(s, received) && s.waiters != [] && CanServe(s.waiters[0], s.buffer)
    ensures Inv(Serve(s), received)
  {
    var n := Served(s.waiters[0], s.buffer);
    var x := Settlement(s.waiters[0], Data(s.buffer[..n]));
    DeliveredServed(s.settled, s.waiters[0], s.buffer, n);
    OrderServed(s.settled, s.waiters, s.issued, x);
    LegalSnoc(s.settled, s.ended, x);
  }

  lemma Rejoin(front: bytes, buffer: bytes, n: nat)
    requires n <= |buffer|
    ensures (front + buffer[..n]) + buffer[n..] == front + buffer
  {
  }

  lemma {:induction false} FlushKeepsInv(s: State, received: bytes)
    requires Inv(s, received)
    ensures Inv(Flush(s), received) && HeadBlocked(Flush(s))
    ensures Flush(s).ended == s.ended && Flush(s).issued == s.issued
    decreases |s.waiters|
  {
    if s.waiters != [] && CanServe(s.waiters[0], s.buffer) {
      ServeKeepsInv(s, received);
      FlushKeepsInv(Serve(s), received);
    }
  }

  lemma StepKeepsInv(s: State, e: Event, received: bytes)
    requires Inv(s, received) && HeadBlocked(s)
    ensures Inv(Step(s, e), received + if e.Chunk? && !s.ended then e.data else [])
    ensures HeadBlocked(Step(s, e))
  {
    assert received + [] == received;
    match e {
      case Chunk(data) =>
        if !s.ended {
          Associate(Delivered(s.settled), s.buffer, data);
          FlushKeepsInv(s.(buffer := s.buffer + data), received + data);
        }
      case Close => AbandonKeepsInv(s, received, true);
      case Error => AbandonKeepsInv(s, received, false);
      case Read(count) => IssueKeepsInv(s, Fixed(s.issued, count), Rejected, received);
      case ReadAny => IssueKeepsInv(s, Any(s.issued), Null, received);
    }
  }

  lemma AbandonKeepsInv(s: State, received: bytes, closing: bool)
    requires Inv(s, received)
    ensures Inv(s.(ended := s.ended || closing, waiters := [], settled := s.settled + SettleAll(s.waiters, closing)), received)
  {
    AbandonDelivers(s.settled, s.waiters, closing);
    OrderAbandoned(s.settled, s.waiters, s.issued, closing);
    LegalAbandoned(s.settled, s.ended, s.waiters, closing);
  }

  lemma IssueKeepsInv(s: State, w: Waiter, afterEnd: Result, received: bytes)
    requires Inv(s, received) && HeadBlocked(s) && w.id == s.issued
    requires afterEnd == (if w.Any? then Null else Rejected)
    ensures Inv(Issue(s, w, afterEnd), received) && HeadBlocked(Issue(s, w, afterEnd))
  {
    if s.ended {
      var x := Settlement(w, afterEnd);
      DeliveredSnoc(s.settled, x);
      OrderRefused(s.settled, s.issued, x);
      LegalSnoc(s.settled, s.ended, x);
    } else {
      OrderIssued(s.settled, s.waiters, s.issued, w);
      FlushKeepsInv(s.(issued := s.issued + 1, waiters := s.waiters + [w]), received);
    }
  }

  /** Under any interleaving of events and calls: no byte received before the close is lost, repeated or reordered,
      promises settle in the order of the calls, and no waiter waits for bytes that are there. */
  lemma {:induction false} EveryRun(es: seq<Event>)
    ensures Inv(Run(es), Received(es)) && HeadBlocked(Run(es))
  {
    if es != [] {
      EveryRun(es[..|es| - 1]);
      StepKeepsInv(Run(es[..|es| - 1]), es[|es| - 1], Received(es[..|es| - 1]));
    }
  }

  // ---- fixed reads on an open socket ---------------------------------------------------

  predicate OpenRun(es: seq<Event>) {
    forall i :: 0 <= i < |es| ==> es[i].Chunk? || es[i].Read?
  }

  function Counts(es: seq<Event>): seq<nat> {
    if es == [] then []
    else Counts(es[..|es| - 1]) + if es[|es| - 1].Read? then [es[|es| - 1].count] else []
  }

  /** Cutting a stream into pieces of the given sizes, as far as it goes. */
  function Cut(stream: bytes, counts: seq<nat>): seq<bytes>
    decreases |counts|
  {
    if counts == [] || |stream| < counts[0] then []
    else [stream[..counts[0]]] + Cut(stream[counts[0]..], counts[1..])
  }

  function Datas(settled: seq<Settlement>): seq<bytes> {
    seq(|settled|, i requires 0 <= i < |settled| => if settled[i].result.Data? then settled[i].result.data else [])
  }

  /** A queue of fixed reads only, none of them rejected. */
  predicate AllFixed(s: State) {
    && !s.ended
    && (forall i :: 0 <= i < |s.settled| ==> s.settled[i].waiter.Fixed? && s.settled[i].result.Data?)
    && (forall i :: 0 <= i < |s.waiters| ==> s.waiters[i].Fixed?)
  }

  /** The counts asked for, by the promises in their order. */
  predicate WantsAre(s: State, counts: seq<nat>) {
    && AllFixed(s)
    && |counts| == |s.settled| + |s.waiters|
    && (forall i :: 0 <= i < |s.settled| ==> s.settled[i].waiter.count == counts[i])
    && (forall i :: 0 <= i < |s.waiters| ==> s.waiters[i].count == counts[|s.settled| + i])
  }

  lemma {:induction false} FlushKeepsFixed(s: State, counts: seq<nat>)
    requires WantsAre(s, counts)
    ensures WantsAre(Flush(s), counts)
    decreases |s.waiters|
  {
    if s.waiters != [] && CanServe(s.waiters[0], s.buffer) {
      FlushKeepsFixed(Serve(s), counts);
    }
  }

  lemma {:induction false} OpenRunFixed(es: seq<Event>)
    requires OpenRun(es)
    ensures WantsAre(Run(es), Counts(es))
  {
    if es != [] {
      var before, e := es[..|es| - 1], es[|es| - 1];
      OpenRunFixed(before);
      match e {
        case Chunk(data) => ChunkKeepsFixed(Run(before), data, Counts(before));
        case Read(count) => ReadKeepsFixed(Run(before), count, Counts(before));
        case _ =>
      }
    }
  }

  lemma ChunkKeepsFixed(s: State, data: bytes, counts: seq<nat>)
    requires WantsAre(s, counts)
    ensures WantsAre(Step(s, Chunk(data)), counts + [])
  {
    assert counts + [] == counts;
    FlushKeepsFixed(s.(buffer := s.buffer + data), counts);
  }

  lemma ReadKeepsFixed(s: State, count: nat, counts: seq<nat>)
    requires WantsAre(s, counts)
    ensures WantsAre(Step(s, Read(count)), counts + [count])
  {
    FlushKeepsFixed(s.(issued := s.issued + 1, waiters := s.waiters + [Fixed(s.issued, count)]), counts + [count]);
  }

  /** Pieces of the right sizes in front of a stream are what cutting it yields first. */
  lemma {:induction false} CutPieces(pieces: seq<bytes>, rest: bytes, counts: seq<nat>)
    requires |pieces| <= |counts| && forall i :: 0 <= i < |pieces| ==> |pieces[i]| == counts[i]
    requires |pieces| < |counts| ==> |rest| < counts[|pieces|]
    ensures Cut(Flatten(pieces) + rest, counts) == pieces
    decreases |pieces|
  {
    if pieces == [] {
      assert Flatten(pieces) + rest == rest;
    } else {
      var stream := Flatten(pieces) + rest;
      Associate(pieces[0], Flatten(pieces[1..]), rest);
      assert stream[..counts[0]] == pieces[0] && stream[counts[0]..] == Flatten(pieces[1..]) + rest;
      CutPieces(pieces[1..], rest, counts[1..]);
    }
  }

  lemma {:induction false} DatasDelivered(settled: seq<Settlement>)
    requires forall i :: 0 <= i < |settled| ==> settled[i].result.Data?
    ensures Flatten(Datas(settled)) == Delivered(settled)
  {
    if settled != [] {
      var n := |settled| - 1;
      DatasDelivered(settled[..n]);
      assert Datas(settled) == Datas(settled[..n]) + [settled[n].result.data];
      FlattenSnoc(Datas(settled[..n]), settled[n].result.data);
    }
  }

  /** What fixed reads deliver depends on the bytes and the counts alone, not on how events and calls interleave. */
  lemma InterleavingIndependent(es: seq<Event>)
    requires OpenRun(es)
    ensures Datas(Run(es).settled) == Cut(Received(es), Counts(es))
  {
    EveryRun(es);
    OpenRunFixed(es);
    var s := Run(es);
    DatasDelivered(s.settled);
    assert forall i :: 0 <= i < |s.settled| ==> Legal(s.settled[i], s.ended);
    CutPieces(Datas(s.settled), s.buffer, Counts(es));
  }

  lemma RunSnoc(es: seq<Event>, e: Event)
    ensures Run(es + [e]) == Step(Run(es), e)
  {
    assert (es + [e])[..|es + [e]| - 1] == es;
  }

  /** A flush while one fixed read waits. */
  lemma OneWaiter(s: State, id: nat, count: nat)
    requires s.waiters == [Fixed(id, count)]
    ensures Flush(s) == if |s.buffer| < count then s
                        else s.(buffer := s.buffer[count..], waiters := [],
                                settled := s.settled + [Settlement(Fixed(id, count), Data(s.buffer[..count]))])
  {
    if |s.buffer| >= count {
      assert s.waiters[1..] == [];
      assert Flush(s) == Flush(Serve(s)) == Serve(s);
    }
  }

  /** A fixed read on an open socket where nobody waits. */
  lemma OneRead(s: State, count: nat)
    requires s.waiters == [] && !s.ended
    ensures var t, w := s.(issued := s.issued + 1), Fixed(s.issued, count);
            Step(s, Event.Read(count))
            == if |s.buffer| < count then t.(waiters := [w])
               else t.(buffer := s.buffer[count..], settled := s.settled + [Settlement(w, Data(s.buffer[..count]))])
  {
    assert s.waiters + [Fixed(s.issued, count)] == [Fixed(s.issued, count)];
    OneWaiter(s.(issued := s.issued + 1, waiters := [Fixed(s.issued, count)]), s.issued, count);
  }

  /** What is still buffered when the socket closes is abandoned: a read that would be served at once before the
      close is rejected after it. */
  lemma CloseAbandonsBuffer(es: seq<Event>, count: nat)
    requires Run(es).waiters == [] && !Run(es).ended && count <= |Run(es).buffer|
    ensures var s := Run(es);
            && Run(es + [Read(count)]).settled == s.settled + [Settlement(Fixed(s.issued, count), Data(s.buffer[..count]))]
            && Run(es + [Close] + [Read(count)]).settled == s.settled + [Settlement(Fixed(s.issued, count), Rejected)]
  {
    RunSnoc(es, Read(count));
    RunSnoc(es, Close);
    RunSnoc(es + [Close], Read(count));
    OneRead(Run(es), count);
    ReadAfterClose(Run(es), count);
  }

  lemma ReadAfterClose(s: State, count: nat)
    requires s.waiters == [] && !s.ended
    ensures Step(Step(s, Close), Event.Read(count)).settled == s.settled + [Settlement(Fixed(s.issued, count), Rejected)]
  {
    assert s.settled + SettleAll(s.waiters, true) == s.settled;
  }

  /** Once closed, a buffer keeps its bytes and delivers nothing more. */
  lemma ClosedStep(s: State, e: Event)
    requires s.ended && s.waiters == []
    ensures var t := Step(s, e);
            t.ended && t.waiters == [] && t.buffer == s.buffer && Delivered(t.settled) == Delivered(s.settled)
  {
    match e {
      case Error => assert s.settled + SettleAll(s.waiters, false) == s.settled;
      case Read(count) => DeliveredSnoc(s.settled, Settlement(Fixed(s.issued, count), Rejected));
      case ReadAny => DeliveredSnoc(s.settled, Settlement(Any(s.issued), Null));
      case _ =>
    }
  }

  lemma {:induction false} ClosedRun(es: seq<Event>, later: seq<Event>)
    requires Run(es).ended && Run(es).waiters == []
    ensures var t := Run(es + later);
            && t.ended && t.waiters == [] && t.buffer == Run(es).buffer
            && Delivered(t.settled) == Delivered(Run(es).settled) && Received(es + later) == Received(es)
    decreases |later|
  {
    if later == [] {
      assert es + later == es;
    } else {
      var n := |later| - 1;
      ClosedRun(es, later[..n]);
      assert es + later == (es + later[..n]) + [later[n]];
      RunSnoc(es + later[..n], later[n]);
      ReceivedSnoc(es + later[..n], later[n]);
      ClosedStep(Run(es + later[..n]), later[n]);
    }
  }

  lemma ReceivedSnoc(es: seq<Event>, e: Event)
    ensures Received(es + [e]) == Received(es) + if e.Chunk? && !Run(es).ended then e.data else []
    ensures !e.Chunk? || Run(es).ended ==> Received(es + [e]) == Received(es)
  {
    assert (es + [e])[..|es|] == es;
    assert Received(es) + [] == Received(es);
  }

  /** The close of an open socket settles what waits and keeps what is buffered. */
  lemma CloseKeepsBuffer(es: seq<Event>)
    requires !Run(es).ended
    ensures var t := Run(es + [Close]);
            t.ended && t.waiters == [] && t.buffer == Run(es).buffer && Delivered(t.settled) == Delivered(Run(es).settled)
    ensures Received(es + [Close]) == Received(es)
  {
    var s := Run(es);
    RunSnoc(es, Close);
    ReceivedSnoc(es, Close);
    AbandonDelivers(s.settled, s.waiters, true);
  }

  /** Across a close: whatever is read later, what is delivered in all is what was delivered before, a prefix of what
      was received; and it is everything exactly when nothing was buffered at the close. */
  lemma DeliveredAcrossCloseIff(es: seq<Event>, later: seq<Event>)
    requires !Run(es).ended
    ensures var all := es + [Close] + later;
            && Delivered(Run(all).settled) == Delivered(Run(es).settled) <= Received(all) == Received(es)
            && (Delivered(Run(all).settled) == Received(all) <==> Run(es).buffer == [])
  {
    EveryRun(es);
    CloseKeepsBuffer(es);
    ClosedRun(es + [Close], later);
    var s := Run(es);
    assert |Delivered(s.settled) + s.buffer| == |Delivered(s.settled)| + |s.buffer|;
    assert s.buffer == [] ==> Delivered(s.settled) + s.buffer == Delivered(s.settled);
  }

  // ---- the object --------------------------------------------------------------------------

  class SocketBuffer {
    var buffer: bytes
    var waiters: seq<Waiter>
    var ended: bool
    /** The calls of the promise callbacks, in order. */
    var settled: seq<Settlement>
    var issued: nat

    constructor ()
      ensures View() == EMPTY
    {
      buffer, waiters, ended, settled, issued := [], [], false, [], 0;
    }

    function View(): State
      reads this
    {
      State(buffer, waiters, ended, settled, issued)
    }

    method FlushWaiters()
      modifies this
      ensures View() == Flush(old(View()))
    {
      while |waiters| > 0
        invariant Flush(View()) == Flush(old(View()))
        decreases |waiters|
      {
        ghost var s := View();
        var waiter := waiters[0];
        if waiter.Any? {
          if |buffer| == 0 {
            return;
          }
          assert buffer[..|buffer|] == buffer && buffer[|buffer|..] == [];
          waiters := waiters[1..];
          settled := settled + [Settlement(waiter, Data(buffer))];
          buffer := [];
        } else {
          if |buffer| < waiter.count {
            return;
          }
          waiters := waiters[1..];
          settled := settled + [Settlement(waiter, Data(buffer[..waiter.count]))];
          buffer := buffer[waiter.count..];
        }
        assert View() == Serve(s);
      }
    }

    method OnData(chunk: bytes)
      modifies this
      ensures View() == Step(old(View()), Chunk(chunk))
    {
      if ended {
        return;
      }
      buffer := buffer + chunk;
      FlushWaiters();
    }

    method OnClose()
      modifies this
      ensures View() == Step(old(View()), Close)
    {
      if ended {
        return;
      }
      ended := true;
      var all := waiters;
      waiters := [];
      for i := 0 to |all|
        invariant waiters == [] && ended && buffer == old(buffer) && issued == old(issued)
        invariant settled == old(settled) + SettleAll(all, true)[..i]
      {
        settled := settled + [Settlement(all[i], if all[i].Any? then Null else Rejected)];
      }
    }

    method OnError()
      modifies this
      ensures View() == Step(old(View()), Error)
    {
      var all := waiters;
      waiters := [];
      for i := 0 to |all|
        invariant waiters == [] && ended == old(ended) && buffer == old(buffer) && issued == old(issued)
        invariant settled == old(settled) + SettleAll(all, false)[..i]
      {
        settled := settled + [Settlement(all[i], Rejected)];
      }
    }

    method Read(count: nat)
      modifies this
      ensures View() == Step(old(View()), Event.Read(count))
    {
      ghost var s := View();
      var w := Fixed(issued, count);
      issued := issued + 1;
      if ended {
        settled := settled + [Settlement(w, Rejected)];
        return;
      }
      waiters := waiters + [w];
      assert View() == s.(issued := s.issued + 1, waiters := s.waiters + [w]);
      FlushWaiters();
    }

    method ReadAny()
      modifies this
      ensures View() == Step(old(View()), Event.ReadAny)
    {
      ghost var s := View();
      var w := Any(issued);
      issued := issued + 1;
      if ended {
        settled := settled + [Settlement(w, Null)];
        return;
      }
      waiters := waiters + [w];
      assert View() == s.(issued := s.issued + 1, waiters := s.waiters + [w]);
      FlushWaiters();
    }
  }
}
