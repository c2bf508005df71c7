/** The TLS sniffer that decides when xtls-rprx-vision may go raw (`filterTLS`). */
module VisionFilter {
  import opened Bytes

  const SUPPORTED_VERSIONS: bytes := [0x00, 0x2b, 0x00, 0x02, 0x03, 0x04]
  const CLIENT_HELLO: bytes := [0x16, 0x03]
  const APPLICATION_DATA: bytes := [0x17, 0x03, 0x03]

  predicate Contains(s: bytes, pattern: bytes) {
    exists i :: 0 <= i <= |s| && At(s, i, pattern)
  }

  /** The fields of the connection that only the filter writes. `panicked` records a slice out of range. */
  datatype Filter = Filter(isTLS: bool, packets: int, tls12: bool, serverHello: int,
                           cipher: nat, xtls: bool, panicked: bool)

  const FRESH := Filter(false, 8, false, -1, 0, false, false)

  /** The cipher names of the dictionary, without the one the filter turns down (0x1305). */
  predicate AllowedCipher(cipher: nat) {
    0x1301 <= cipher <= 0x1304
  }

  predicate IsServerHello(b: bytes) {
    |b| > 6 && b[0] == 22 && b[1] == 3 && b[2] == 3 && b[5] == 2
  }

  function RecordEnd(b: bytes): nat
    requires |b| > 4
  {
    FromU16(b[3], b[4]) + 5
  }

  /** A slice as Go passes it: its bytes, and the bytes behind them up to its capacity. */
  datatype Slice = Slice(data: bytes, beyond: bytes)

  /** The buffer is long enough for the filter to look for the cipher suite behind the session id. */
  predicate ReadsCipher(b: bytes) {
    IsServerHello(b) && |b| >= 79 && RecordEnd(b) >= 79
  }

  /** Where the cipher suite ends, as the session id's length byte says. */
  function CipherEnd(b: bytes): nat
    requires |b| >= 79
  {
    b[43] as int + 46
  }

  /** The two cipher bytes lie within the capacity; elsewhere the slice expression panics. */
  predicate CipherInRange(s: Slice)
    requires |s.data| >= 79
  {
    CipherEnd(s.data) <= |s.data + s.beyond|
  }

  /** The two cipher bytes lie within the buffer itself. */
  predicate CipherInside(b: bytes)
    requires |b| >= 79
  {
    CipherEnd(b) <= |b|
  }

  function CipherOf(s: Slice): nat
    requires |s.data| >= 79 && CipherInRange(s)
  {
    var memory, end := s.data + s.beyond, CipherEnd(s.data);
    FromU16(memory[end - 2], memory[end - 1])
  }

  /** First half of one call: what the head of the record says. */
  function Classify(f: Filter, s: Slice): Filter {
    var b := s.data;
    if |b| <= 6 then f
    else if b[0] == 22 && b[1] == 3 && b[2] == 3 then
      if b[5] != 2 then f.(isTLS := true)
      else
        var g := f.(isTLS := true, tls12 := true, serverHello := RecordEnd(b));
        if |b| < 79 || RecordEnd(b) < 79 then g
        else if CipherInRange(s) then g.(cipher := CipherOf(s))
        else g.(panicked := true)
    else if b[..2] == CLIENT_HELLO && b[5] == 1 then f.(isTLS := true)
    else f
  }

  /** Second half: scanning what is still expected of the ServerHello record. */
  function Scan(f: Filter, b: bytes): Filter {
    if f.serverHello <= 0 then f
    else
      var end := Min(f.serverHello, |b|);
      var g := f.(serverHello := f.serverHello - end);
      if Contains(b[..end], SUPPORTED_VERSIONS) then
        g.(packets := 0, xtls := f.xtls || AllowedCipher(f.cipher))
      else if g.serverHello == 0 then g.(packets := 0)
      else g
  }

  /** One `filterTLS` call; nothing happens any more once the process has panicked. */
  function Step(f: Filter, s: Slice): Filter {
    if f.panicked then f else Finish(Classify(f.(packets := f.packets - 1), s), s.data)
  }

  /** The rest of a call, unless the first half has panicked. */
  function Finish(f: Filter, b: bytes): Filter {
    if f.panicked then f else Scan(f, b)
  }

  /** The filter after it was fed a list of slices, from either direction. */
  function Run(f: Filter, fed: seq<Slice>): Filter {
    if fed == [] then f else Step(Run(f, fed[..|fed| - 1]), fed[|fed| - 1])
  }

  // ---- what the filter knows --------------------------------------------------

  /** The filter took this cipher for the one of the ServerHello record in the slice. */
  predicate TakesCipher(s: Slice, cipher: nat) {
    ReadsCipher(s.data) && CipherInRange(s) && CipherOf(s) == cipher
  }

  predicate CipherTaken(fed: seq<Slice>, cipher: nat) {
    exists i :: 0 <= i < |fed| && TakesCipher(fed[i], cipher)
  }

  predicate HelloSeen(fed: seq<Slice>) {
    exists i :: 0 <= i < |fed| && IsServerHello(fed[i].data)
  }

  /** A TLS 1.3 hello was seen: the version bytes in some buffer fed at or after a ServerHello record. */
  predicate Tls13Seen(fed: seq<Slice>) {
    exists i, j :: 0 <= i <= j < |fed| && IsServerHello(fed[i].data) && Contains(fed[j].data, SUPPORTED_VERSIONS)
  }

  /** The filter took an allowed cipher, be it from the record or from the bytes behind it. */
  predicate AllowedCipherTaken(fed: seq<Slice>) {
    exists i :: 0 <= i < |fed| && TakesAllowed(fed[i])
  }

  predicate TakesAllowed(s: Slice) {
    ReadsCipher(s.data) && CipherInRange(s) && AllowedCipher(CipherOf(s))
  }

  /** Some ServerHello record announced an allowed cipher within its own bytes. */
  predicate AllowedCipherSeen(fed: seq<Slice>) {
    exists i :: 0 <= i < |fed| && Announces(fed[i].data)
  }

  predicate Announces(b: bytes) {
    ReadsCipher(b) && CipherInside(b) && AllowedCipher(CipherOf(Slice(b, [])))
  }

  predicate HelloInside(b: bytes) {
    ReadsCipher(b) ==> CipherInside(b)
  }

  /** A session id as TLS has them: at most 32 bytes. */
  predicate LegalHello(b: bytes) {
    ReadsCipher(b) ==> b[43] <= 32
  }

  lemma LegalIsInside(b: bytes)
    requires LegalHello(b)
    ensures HelloInside(b)
  {
  }

  /** What holds of the filter after it was fed some slices from a fresh start. */
  predicate Evidence(f: Filter, fed: seq<Slice>) {
    && -1 <= f.serverHello <= 65540
    && (f.serverHello != -1 ==> HelloSeen(fed))
    && (f.tls12 ==> HelloSeen(fed))
    && (f.cipher != 0 ==> CipherTaken(fed, f.cipher))
    && (f.xtls ==> Tls13Seen(fed) && AllowedCipherTaken(fed))
  }

  lemma ContainsInPrefix(b: bytes, end: nat, pattern: bytes)
    requires end <= |b| && Contains(b[..end], pattern)
    ensures Contains(b, pattern)
  {
    var i :| 0 <= i <= end && At(b[..end], i, pattern);
    assert b[..end][i..i + |pattern|] == b[i..i + |pattern|];
    assert At(b, i, pattern);
  }

  lemma EvidenceKept(f: Filter, fed: seq<Slice>, s: Slice)
    requires Evidence(f, fed)
    ensures Evidence(f, fed + [s])
  {
    var more := fed + [s];
    assert forall i :: 0 <= i < |fed| ==> more[i] == fed[i];
    if f.cipher != 0 {
      var i :| 0 <= i < |fed| && TakesCipher(fed[i], f.cipher);
      assert TakesCipher(more[i], f.cipher);
    }
    if f.xtls {
      var i, j :| 0 <= i <= j < |fed| && IsServerHello(fed[i].data) && Contains(fed[j].data, SUPPORTED_VERSIONS);
      assert IsServerHello(more[i].data) && Contains(more[j].data, SUPPORTED_VERSIONS);
      var k :| 0 <= k < |fed| && TakesAllowed(fed[k]);
      assert TakesAllowed(more[k]);
    }
  }

  lemma ClassifyEvidence(f: Filter, fed: seq<Slice>, s: Slice)
    requires Evidence(f, fed + [s])
    ensures Evidence(Classify(f, s), fed + [s])
  {
    var more := fed + [s];
    if IsServerHello(s.data) {
      assert more[|fed|] == s;
      assert HelloSeen(more);
      if ReadsCipher(s.data) && CipherInRange(s) {
        assert TakesCipher(more[|fed|], CipherOf(s));
      }
    }
  }

  lemma ScanEvidence(f: Filter, fed: seq<Slice>, s: Slice)
    requires Evidence(f, fed + [s])
    ensures Evidence(Scan(f, s.data), fed + [s])
  {
    var more, b := fed + [s], s.data;
    if f.serverHello > 0 {
      var end := Min(f.serverHello, |b|);
      if Contains(b[..end], SUPPORTED_VERSIONS) {
        ContainsInPrefix(b, end, SUPPORTED_VERSIONS);
        var i :| 0 <= i < |more| && IsServerHello(more[i].data);
        assert IsServerHello(more[i].data) && Contains(more[|fed|].data, SUPPORTED_VERSIONS);
        if AllowedCipher(f.cipher) {
          var k :| 0 <= k < |more| && TakesCipher(more[k], f.cipher);
          assert TakesAllowed(more[k]);
        }
      }
    }
  }

  /** Over every run: no Direct switch without a ServerHello, the TLS 1.3 bytes, and an allowed cipher that the filter
      took from behind a session id. */
  lemma {:induction false} XtlsNeedsEvidence(fed: seq<Slice>)
    ensures Evidence(Run(FRESH, fed), fed)
  {
    if fed != [] {
      var n := |fed| - 1;
      var f, s := Run(FRESH, fed[..n]), fed[n];
      XtlsNeedsEvidence(fed[..n]);
      assert fed[..n] + [s] == fed;
      EvidenceKept(f, fed[..n], s);
      if !f.panicked {
        var g := Classify(f.(packets := f.packets - 1), s);
        ClassifyEvidence(f.(packets := f.packets - 1), fed[..n], s);
        if !g.panicked {
          ScanEvidence(g, fed[..n], s);
        }
      }
    }
  }

  // ---- a cipher from behind the buffer ---------------------------------------------------

  /** No memory behind the hello makes the filter take an allowed cipher: the cipher lies within the buffer, or only its
      first byte does and is none of an allowed cipher. */
  predicate KeepsCipher(b: bytes)
    requires |b| >= 79
  {
    CipherInside(b) || (CipherEnd(b) == |b| + 1 && b[|b| - 1] != 0x13)
  }

  /** The worst that can lie behind a hello: the rest of an allowed cipher. */
  function WorstBehind(b: bytes): bytes {
    if !ReadsCipher(b) || CipherInside(b) then []
    else if CipherEnd(b) == |b| + 1 then [0x01]
    else Repeat(0, CipherEnd(b) - |b| - 2) + [0x13, 0x01]
  }

  lemma CipherBytes(s: Slice)
    requires ReadsCipher(s.data) && CipherInRange(s)
    ensures var (d, end) := (s.data, CipherEnd(s.data));
            CipherOf(s) == if end <= |d| then FromU16(d[end - 2], d[end - 1])
                           else if end == |d| + 1 then FromU16(d[|d| - 1], s.beyond[0])
                           else FromU16(s.beyond[end - 2 - |d|], s.beyond[end - 1 - |d|])
  {
  }

  /** Behind one hello: every memory leaves the filter with an announced cipher or none, exactly if the hello keeps its
      cipher; and otherwise the worst memory does not. */
  lemma TakenIsAnnouncedIff(b: bytes)
    requires ReadsCipher(b)
    ensures (forall beyond: bytes :: TakesAllowed(Slice(b, beyond)) ==> Announces(b)) <==> KeepsCipher(b)
    ensures !KeepsCipher(b) || Announces(b) ==> TakesAllowed(Slice(b, WorstBehind(b)))
    ensures CipherInRange(Slice(b, WorstBehind(b)))
  {
    forall beyond: bytes | TakesAllowed(Slice(b, beyond)) && KeepsCipher(b)
      ensures Announces(b)
    {
      CipherBytes(Slice(b, beyond));
      if CipherInside(b) {
        CipherBytes(Slice(b, []));
      }
    }
    var w := Slice(b, WorstBehind(b));
    CipherBytes(w);
    if CipherInside(b) {
      CipherBytes(Slice(b, []));
    }
    if !KeepsCipher(b) {
      assert TakesAllowed(w) && !Announces(b);
    }
  }

  predicate AllKeepCiphers(fed: seq<Slice>) {
    forall i :: 0 <= i < |fed| && ReadsCipher(fed[i].data) ==> KeepsCipher(fed[i].data)
  }

  /** Where every hello keeps its cipher, the allowed cipher was announced by a ServerHello record. */
  lemma XtlsNeedsAnnouncement(fed: seq<Slice>)
    requires AllKeepCiphers(fed)
    ensures Run(FRESH, fed).xtls ==> Tls13Seen(fed) && AllowedCipherSeen(fed)
  {
    XtlsNeedsEvidence(fed);
    if Run(FRESH, fed).xtls {
      var i :| 0 <= i < |fed| && TakesAllowed(fed[i]);
      TakenIsAnnouncedIff(fed[i].data);
      assert TakesAllowed(Slice(fed[i].data, fed[i].beyond));
      assert Announces(fed[i].data);
    }
  }

  /** The bytes of the hello's own record hold the TLS 1.3 bytes. */
  predicate ShowsTls13(b: bytes)
    requires |b| > 4
  {
    Contains(b[..Min(RecordEnd(b), |b|)], SUPPORTED_VERSIONS)
  }

  lemma OneHello(b: bytes, beyond: bytes)
    requires ReadsCipher(b)
    ensures Run(FRESH, [Slice(b, beyond)]).xtls <==> TakesAllowed(Slice(b, beyond)) && ShowsTls13(b)
    ensures AllowedCipherSeen([Slice(b, beyond)]) <==> Announces(b)
  {
    var s := Slice(b, beyond);
    assert [s][..0] == [] && Run(FRESH, [s]) == Step(FRESH, s);
    assert [s][0] == s;
  }

  /** For a single hello: whatever lies behind it, switching is enabled only after an announcement, exactly if it keeps
      its cipher or does not show the TLS 1.3 bytes. */
  lemma AnnouncementIff(b: bytes)
    requires ReadsCipher(b)
    ensures (forall beyond: bytes :: Run(FRESH, [Slice(b, beyond)]).xtls ==> AllowedCipherSeen([Slice(b, beyond)]))
            <==> KeepsCipher(b) || !ShowsTls13(b)
  {
    TakenIsAnnouncedIff(b);
    forall beyond: bytes
      ensures Run(FRESH, [Slice(b, beyond)]).xtls <==> TakesAllowed(Slice(b, beyond)) && ShowsTls13(b)
      ensures AllowedCipherSeen([Slice(b, beyond)]) <==> Announces(b)
    {
      OneHello(b, beyond);
    }
    if !KeepsCipher(b) && ShowsTls13(b) {
      var s := Slice(b, WorstBehind(b));
      OneHello(b, WorstBehind(b));
      assert Run(FRESH, [s]).xtls && !AllowedCipherSeen([s]);
    }
  }

  // ---- the same over runs ---------------------------------------------------------------------

  function Datas(fed: seq<Slice>): seq<bytes> {
    seq(|fed|, i requires 0 <= i < |fed| => fed[i].data)
  }

  /** The buffers of a run with the worst memory behind each. */
  function Worst(datas: seq<bytes>): seq<Slice> {
    seq(|datas|, i requires 0 <= i < |datas| => Slice(datas[i], WorstBehind(datas[i])))
  }

  predicate Announced(datas: seq<bytes>) {
    exists i :: 0 <= i < |datas| && Announces(datas[i])
  }

  /** What holds between the filter over some memory and the filter over the worst one, as long as nothing is announced. */
  predicate Dominated(f: Filter, w: Filter) {
    && !w.panicked && (f.xtls ==> w.xtls)
    && (f.panicked || (f.serverHello == w.serverHello && (AllowedCipher(f.cipher) ==> AllowedCipher(w.cipher))))
  }

  lemma WorstStep(f: Filter, w: Filter, s: Slice)
    requires Dominated(f, w) && !Announces(s.data)
    ensures Dominated(Step(f, s), Step(w, Slice(s.data, WorstBehind(s.data))))
  {
    var t := Slice(s.data, WorstBehind(s.data));
    WorstIsTaken(s);
    if f.panicked {
      WorstFrozen(f, w, s, t);
    } else {
      WorstLive(f, w, s, t);
    }
  }

  lemma WorstFrozen(f: Filter, w: Filter, s: Slice, t: Slice)
    requires Dominated(f, w) && f.panicked && t.data == s.data && (ReadsCipher(s.data) ==> CipherInRange(t))
    ensures Dominated(f, Step(w, t))
  {
  }

  lemma WorstLive(f: Filter, w: Filter, s: Slice, t: Slice)
    requires Dominated(f, w) && !f.panicked && t.data == s.data
    requires ReadsCipher(s.data) ==> CipherInRange(t) && (TakesAllowed(s) ==> TakesAllowed(t))
    ensures Dominated(Step(f, s), Step(w, t))
  {
    var f1, w1 := f.(packets := f.packets - 1), w.(packets := w.packets - 1);
    WorstClassify(f1, w1, s, t);
    var g, v := Classify(f1, s), Classify(w1, t);
    WorstFinish(g, v, s.data);
    assert Step(f, s) == Finish(g, s.data);
    assert Step(w, t) == Finish(v, s.data);
  }

  lemma WorstIsTaken(s: Slice)
    requires !Announces(s.data)
    ensures var t := Slice(s.data, WorstBehind(s.data));
            ReadsCipher(s.data) ==> CipherInRange(t) && (TakesAllowed(s) ==> TakesAllowed(t))
  {
    if ReadsCipher(s.data) {
      TakenIsAnnouncedIff(s.data);
      assert s == Slice(s.data, s.beyond);
    }
  }

  lemma WorstClassify(f: Filter, w: Filter, s: Slice, t: Slice)
    requires Dominated(f, w) && !f.panicked && t.data == s.data
    requires ReadsCipher(s.data) ==> CipherInRange(t) && (TakesAllowed(s) ==> TakesAllowed(t))
    ensures Dominated(Classify(f, s), Classify(w, t))
  {
  }

  lemma WorstFinish(f: Filter, w: Filter, b: bytes)
    requires Dominated(f, w)
    ensures Dominated(Finish(f, b), Finish(w, b))
  {
  }

  lemma {:induction false} WorstRun(fed: seq<Slice>)
    requires !Announced(Datas(fed))
    ensures Dominated(Run(FRESH, fed), Run(FRESH, Worst(Datas(fed))))
  {
    if fed != [] {
      var n := |fed| - 1;
      var datas := Datas(fed);
      assert Datas(fed[..n]) == datas[..n] && Worst(datas)[..n] == Worst(datas[..n]);
      assert forall i :: 0 <= i < n ==> datas[..n][i] == datas[i];
      assert !Announces(datas[n]);
      WorstRun(fed[..n]);
      WorstStep(Run(FRESH, fed[..n]), Run(FRESH, Worst(datas[..n])), fed[n]);
    }
  }

  /** For any run of buffers: whatever lies behind them, switching is enabled only after an announcement, exactly if it is
      so with the worst memory behind each hello. */
  lemma RunAnnouncementIff(datas: seq<bytes>)
    ensures (forall fed: seq<Slice> | Datas(fed) == datas :: Run(FRESH, fed).xtls ==> Announced(datas))
            <==> (Run(FRESH, Worst(datas)).xtls ==> Announced(datas))
  {
    assert Datas(Worst(datas)) == datas;
    if !Announced(datas) {
      forall fed: seq<Slice> | Datas(fed) == datas
        ensures Run(FRESH, fed).xtls ==> Run(FRESH, Worst(datas)).xtls
      {
        WorstRun(fed);
      }
    }
  }

  /** A 79-byte ServerHello whose session id claims 60 bytes, with the TLS 1.3 bytes inside the id. */
  function LongIdHello(): bytes {
    [22, 3, 3, 0, 74, 2] + Repeat(0, 37) + [60] + SUPPORTED_VERSIONS + Repeat(0, 29)
  }

  /** Elsewhere the code takes the cipher from the bytes behind the buffer: here it enables the switch although no
      record announced an allowed cipher. */
  lemma CipherFromBehind()
    ensures var s := Slice(LongIdHello(), Repeat(0, 25) + [0x13, 0x01]);
            Run(FRESH, [s]).xtls && !Run(FRESH, [s]).panicked && !AllowedCipherSeen([s])
  {
    var b := LongIdHello();
    var s := Slice(b, Repeat(0, 25) + [0x13, 0x01]);
    assert [s][..0] == [] && Run(FRESH, [s]) == Step(FRESH, s);
    assert |b| == 79 && b[43] == 60 && RecordEnd(b) == 79;
    assert CipherEnd(b) == 106 && (s.data + s.beyond)[104] == 0x13 && (s.data + s.beyond)[105] == 0x01;
    assert b[..79] == b && b[44..50] == SUPPORTED_VERSIONS;
    assert At(b, 44, SUPPORTED_VERSIONS);
    assert !CipherInside(b);
  }

  /** The slice expression panics exactly when a long ServerHello names a session id that reaches past the capacity. */
  lemma PanicIff(f: Filter, s: Slice)
    requires !f.panicked
    ensures Step(f, s).panicked <==> ReadsCipher(s.data) && CipherEnd(s.data) > |s.data| + |s.beyond|
  {
    var g := Classify(f.(packets := f.packets - 1), s);
    if !g.panicked {
      assert Scan(g, s.data).panicked == g.panicked;
    }
  }

  /** Session ids of at most 32 bytes, as TLS has them, never make the filter panic. */
  lemma {:induction false} LegalSessionIdsNeverPanic(f: Filter, fed: seq<Slice>)
    requires !f.panicked
    requires forall i :: 0 <= i < |fed| ==> LegalHello(fed[i].data)
    ensures !Run(f, fed).panicked
  {
    if fed != [] {
      var n := |fed| - 1;
      assert forall i :: 0 <= i < n ==> fed[..n][i] == fed[i];
      LegalSessionIdsNeverPanic(f, fed[..n]);
      LegalIsInside(fed[n].data);
      PanicIff(Run(f, fed[..n]), fed[n]);
    }
  }
}
