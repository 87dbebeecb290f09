/** The two ends together: what the client sends is what the server accepts,
    what the server announces is what the client expects, and the receiver's
    buffer holds a correct prefix of the image whatever the network drops,
    repeats or reorders. */
module Session {
  import opened Wire
  import opened Window
  import opened Server
  import opened Client

  /** A name from the command line: no NUL inside, short enough for iq_name
      with its terminator (what args enforces). */
  predicate CommandLineName(name: seq<byte>)
  {
    |name| < MAXFNAME && forall i :: 0 <= i < |name| ==> name[i] != 0
  }

  /** The query sendqry puts on the wire passes recvqry, and the server reads
      back the client's mss, rwnd, fwnd and image name. */
  lemma QueryAccepted(mss: u16, rwnd: byte, fwnd: byte, name: seq<byte>)
    requires CommandLineName(name)
    ensures var w := EncodeQry(Query(mss, rwnd, fwnd, name));
      && RecvQry(w) == 0
      && DecodeQry(w) == IQry(VERS, SYNQRY, mss, rwnd, fwnd, name)
  {
    QryRoundTrip(Query(mss, rwnd, fwnd, name));
  }

  /** The metadata reply sendimsg sends for a found image is taken by recvimsg
      as FOUND, and the image size the client computes from it is the server's
      image size: the number of bytes the transfer carries. */
  lemma MetadataAgrees(t: Tga, w: seq<byte>)
    requires ValidTga(t)
    requires |w| == IMSG_SIZE
    requires DecodeIMsg(w) == Marshall(IMsg(0, FOUND, 0, 0, 0, 0), t).0.(vers := VERS)
    ensures w[0] == VERS && w[1] == FOUND
    ensures var m := DecodeIMsg(w);
      m.height * m.width * m.depth == Marshall(IMsg(0, FOUND, 0, 0, 0, 0), t).1 == |t.pixels|
  {
    MarshallSizeIsPixels(IMsg(0, FOUND, 0, 0, 0, 0), t);
    var m := DecodeIMsg(w);
    assert m.height * m.width * m.depth == m.width * m.height * m.depth;
  }

  /** The ACK recvimsg sends on FOUND is the one sendimsg waits for, and the
      ACK recvimg sends for the FIN is the one sendimg's FIN exchange waits for:
      whenever the first wake-up of an exchange brings that ACK (for the FIN,
      as the last datagram drained), the exchange succeeds after one send. */
  lemma HandshakesMatch(next: u32, synEvents: seq<Wakeup>, finEvents: seq<Wakeup>)
    requires |synEvents| > 0 && synEvents[0].Ready? && synEvents[0].first == AckHdr(SYNSEQ)
    requires |finEvents| > 0 && finEvents[0].Ready?
    requires AckFor(next, FinHdr()).Known?
    requires ([finEvents[0].first] + finEvents[0].rest)[|finEvents[0].rest|]
               == AckHdr(AckFor(next, FinHdr()).seqn)
    ensures AckFor(next, FinHdr()) == Known(FINSEQ)
    ensures PktOutcome(synEvents, SYNSEQ, false, 0) == (0, 1)
    ensures PktOutcome(finEvents, FINSEQ, true, 0) == (0, 1)
  {
    assert WakeupAt(synEvents, 0) == synEvents[0];
    assert WakeupAt(finEvents, 0) == finEvents[0];
  }

  /** The corrected sendpkt retransmits: when the SYNSEQ ACK comes only after
      the first timeout, sendimsg sends the imsg_t twice and succeeds (the
      loop as written sends it three times and fails, so no transfer starts).
      The second copy is still queued at the client when recvimg runs: read
      as an ihdr_t it has version VERS and type FOUND, which is not DATA, so
      recvimg takes it and answers FINSEQ. That seqn is above MAXSEQ, and the
      ACK phase adopts it as snd_una. */
  lemma DuplicateImsgDrawsFinAck(reply: IMsg, next: u32)
    requires reply.typ == FOUND
    ensures var events := [Timeout, Ready(AckHdr(SYNSEQ), [])];
      && PktOutcome(events, SYNSEQ, false, 0) == (0, 2)
      && PktOutcomeAsWritten(events, SYNSEQ, false, 0, true) == (-1, 3)
    ensures var h := DecodePacket(EncodeIMsg(reply.(vers := VERS))).hdr;
      h.vers == VERS && h.typ == FOUND && AckFor(next, h) == Known(FINSEQ)
    ensures FINSEQ > MAXSEQ
    ensures AckPhaseMax(0, [[AckHdr(FINSEQ)]]) == FINSEQ
    ensures !AcksAtMost([[[AckHdr(FINSEQ)]]], MAXSEQ)
  {
    var events := [Timeout, Ready(AckHdr(SYNSEQ), [])];
    AsWrittenRetriesAreBlind(events, SYNSEQ, false, 1);
    assert WakeupAt(events, 1) == events[1];
    assert [[[AckHdr(FINSEQ)]]][0][0][0] == AckHdr(FINSEQ);
    var phase := [[AckHdr(FINSEQ)]];
    assert phase[..0] == [] && [AckHdr(FINSEQ)][..0] == [];
    assert AckMax(0, [AckHdr(FINSEQ)]) == FINSEQ;
  }

  /** The name the client puts in its query is the name the server looks up:
      recvqry accepts the query, and readimg answers FOUND exactly when the
      image is in the store, NFOUND for a missing one and ENAME for an empty
      name. */
  lemma LookupOfQueriedName(mss: u16, rwnd: byte, fwnd: byte, name: seq<byte>, store: Store)
    requires CommandLineName(name)
    ensures var q := DecodeQry(EncodeQry(Query(mss, rwnd, fwnd, name)));
      && (ReadImg(q.name, store) == FOUND <==> name != [] && name in store)
      && (ReadImg(q.name, store) == NFOUND <==> name != [] && name !in store)
      && (ReadImg(q.name, store) == ENAME <==> name == [])
  {
    QueryAccepted(mss, rwnd, fwnd, name);
  }

  /** A data segment as the sender builds it: DATA of version VERS carrying
      exactly the image bytes its header names, inside the first `imgSize`. */
  predicate SenderSegment(p: Packet, image: seq<byte>, imgSize: nat)
  {
    && p.hdr.vers == VERS && p.hdr.typ == DATA
    && 0 < p.hdr.size && p.hdr.seqn + p.hdr.size <= imgSize <= |image|
    && p.payload == image[p.hdr.seqn..p.hdr.seqn + p.hdr.size]
  }

  /** Every datagram of a transfer is a sender segment. */
  lemma TransferSendsSegments(image: seq<byte>, imgSize: nat, mss: u16, rwnd: byte,
                              drop: (nat, nat) -> bool, phases: seq<seq<seq<IHdr>>>, p: Packet)
    requires imgSize <= |image| && imgSize <= MAXSEQ
    requires p in SentIn(SendRounds(0, imgSize, mss, rwnd, drop, phases, 0), image)
    ensures SenderSegment(p, image, imgSize)
  {
    var rounds := SendRounds(0, imgSize, mss, rwnd, drop, phases, 0);
    var starts := AckRun(0, imgSize, phases, 0).starts;
    forall k | 0 <= k < |rounds|
      ensures SegmentsWithin(rounds[k].attempts, imgSize, Datasize(mss))
    {
      RoundSegmentsWithin(starts[k], imgSize, mss, rwnd, drop, k);
    }
    SentAreSlices(rounds, image, imgSize, Datasize(mss));
  }

  /** The window bound over a whole transfer: every datagram of round `k`
      starts at or after that round's snd_una, which is where the previous
      ACK phase left it, and ends less than rwnd*datasize bytes past it. */
  lemma TransferStaysInWindow(image: seq<byte>, imgSize: nat, mss: u16, rwnd: byte,
                              drop: (nat, nat) -> bool, phases: seq<seq<seq<IHdr>>>, k: nat, p: Packet)
    requires imgSize <= |image| && imgSize <= MAXSEQ
    requires k < |SendRounds(0, imgSize, mss, rwnd, drop, phases, 0)|
    requires p in Transmitted(SendRounds(0, imgSize, mss, rwnd, drop, phases, 0)[k].attempts, image)
    ensures var u := SendRounds(0, imgSize, mss, rwnd, drop, phases, 0)[k].una;
      u <= p.hdr.seqn && p.hdr.seqn + p.hdr.size - u < rwnd * Datasize(mss)
    ensures k == 0 ==> SendRounds(0, imgSize, mss, rwnd, drop, phases, 0)[k].una == 0
    ensures var rounds := SendRounds(0, imgSize, mss, rwnd, drop, phases, 0);
      k > 0 ==> rounds[k].una == AckPhaseMax(rounds[k - 1].una, phases[k - 1])
  {
    var starts := AckRun(0, imgSize, phases, 0).starts;
    RoundInWindow(starts[k], imgSize, mss, rwnd, drop, k, image, p);
    AckRunLength(0, imgSize, phases, 0);
    if k > 0 {
      AckRunLinks(0, imgSize, phases, 0);
    }
  }

  /** What the receiver holds: the image buffer (img_size bytes) and the
      expected offset. The buffer is correct up to the expected offset. */
  predicate PrefixCorrect(buf: seq<byte>, next: nat, image: seq<byte>, imgSize: nat)
  {
    |buf| == imgSize <= |image| && next <= imgSize && buf[..next] == image[..next]
  }

  /** Taking any sender segment, in order or not, keeps the buffer correct up
      to the expected offset; the offset only grows, and once it reaches
      img_size the buffer is the whole image. The segment also fits the
      buffer, and the ACK it draws is unset or at most img_size. */
  lemma DeliveryKeepsPrefix(buf: seq<byte>, next: u32, image: seq<byte>, imgSize: nat, p: Packet)
    requires imgSize <= MAXSEQ
    requires PrefixCorrect(buf, next, image, imgSize)
    requires SenderSegment(p, image, imgSize)
    ensures p.hdr.seqn + |Written(p)| <= |buf|
    ensures var buf' := Patch(buf, p.hdr.seqn, Written(p));
      var next' := NextExpected(next, p.hdr);
      && next <= next'
      && PrefixCorrect(buf', next', image, imgSize)
      && (next' == imgSize ==> buf' == image[..imgSize])
    ensures AckFor(next, p.hdr) == Unset || AckFor(next, p.hdr).seqn <= imgSize
  {
    var off := p.hdr.seqn;
    var w := Written(p);
    assert w == p.payload;
    var buf' := Patch(buf, off, w);
    var next' := NextExpected(next, p.hdr);
    assert |buf'| == imgSize;
    forall j | 0 <= j < next'
      ensures buf'[j] == image[j]
    {
      if off <= j < off + |w| {
        assert w[j - off] == image[j];
      } else {
        assert buf[..next][j] == image[..next][j];
      }
    }
    assert buf'[..next'] == image[..next'];
  }

  /** A segment that arrives again straight after it was taken changes
      nothing more: the buffer already holds its bytes, and the expected
      offset has moved past it when it was in order. RetakeChangesNothing
      covers a repeat with other segments in between. */
  lemma DuplicateIsIdempotent(buf: seq<byte>, next: u32, image: seq<byte>, imgSize: nat, p: Packet)
    requires imgSize <= MAXSEQ
    requires PrefixCorrect(buf, next, image, imgSize)
    requires SenderSegment(p, image, imgSize)
    ensures var buf1 := Patch(buf, p.hdr.seqn, Written(p));
      var next1 := NextExpected(next, p.hdr);
      && Patch(buf1, p.hdr.seqn, Written(p)) == buf1
      && NextExpected(next1, p.hdr) == next1
  {
    var buf1 := Patch(buf, p.hdr.seqn, Written(p));
    var buf2 := Patch(buf1, p.hdr.seqn, Written(p));
    assert forall j :: 0 <= j < |buf2| ==> buf2[j] == buf1[j];
  }

  /** What recvimg writes for a sender segment is its whole payload, which
      fits the buffer. */
  lemma WrittenOfSegment(p: Packet, image: seq<byte>, imgSize: nat)
    requires SenderSegment(p, image, imgSize)
    ensures |p.payload| == p.hdr.size && Written(p) == p.payload
  {
  }

  /** The receiver's buffer and expected offset after taking the sender
      segments `ps` in turn, as recvimg takes them one datagram per call. */
  function TakeAll(buf: seq<byte>, next: u32, ps: seq<Packet>, image: seq<byte>): (r: (seq<byte>, u32))
    requires forall k :: 0 <= k < |ps| ==> SenderSegment(ps[k], image, |buf|)
    ensures |r.0| == |buf|
    decreases |ps|
  {
    if ps == [] then (buf, next)
    else
      var p := ps[0];
      WrittenOfSegment(p, image, |buf|);
      TakeAll(Patch(buf, p.hdr.seqn, Written(p)), NextExpected(next, p.hdr), ps[1..], image)
  }

  /** Taking sender segments keeps every buffer byte that already equals the
      image's byte. */
  lemma {:induction false} TakeAllKeepsBytes(buf: seq<byte>, next: u32, ps: seq<Packet>, image: seq<byte>, j: nat)
    requires forall k :: 0 <= k < |ps| ==> SenderSegment(ps[k], image, |buf|)
    requires j < |buf| <= |image| && buf[j] == image[j]
    ensures TakeAll(buf, next, ps, image).0[j] == image[j]
    decreases |ps|
  {
    if ps != [] {
      var p := ps[0];
      WrittenOfSegment(p, image, |buf|);
      var buf1 := Patch(buf, p.hdr.seqn, Written(p));
      assert buf1[j] == image[j];
      TakeAllKeepsBytes(buf1, NextExpected(next, p.hdr), ps[1..], image, j);
    }
  }

  /** Taking sender segments never lowers the expected offset and keeps it
      within img_size. */
  lemma {:induction false} TakeAllAdvances(buf: seq<byte>, next: u32, ps: seq<Packet>, image: seq<byte>)
    requires |buf| <= MAXSEQ && next <= |buf|
    requires forall k :: 0 <= k < |ps| ==> SenderSegment(ps[k], image, |buf|)
    ensures next <= TakeAll(buf, next, ps, image).1 <= |buf|
    decreases |ps|
  {
    if ps != [] {
      var p := ps[0];
      WrittenOfSegment(p, image, |buf|);
      var buf1 := Patch(buf, p.hdr.seqn, Written(p));
      TakeAllAdvances(buf1, NextExpected(next, p.hdr), ps[1..], image);
    }
  }

  /** Writing a sender segment over bytes that already hold its part of the
      image changes nothing. */
  lemma PatchOverHeld(b: seq<byte>, image: seq<byte>, p: Packet)
    requires SenderSegment(p, image, |b|)
    requires forall j :: p.hdr.seqn <= j < p.hdr.seqn + p.hdr.size ==> b[j] == image[j]
    ensures Patch(b, p.hdr.seqn, Written(p)) == b
  {
    WrittenOfSegment(p, image, |b|);
    var b2 := Patch(b, p.hdr.seqn, Written(p));
    assert forall j :: 0 <= j < |b2| ==> b2[j] == b[j];
  }

  /** Taking `p` first and then `between` is taking `between` from the state
      `p` leaves. */
  lemma TakeFirst(buf: seq<byte>, next: u32, image: seq<byte>, p: Packet, between: seq<Packet>)
    requires SenderSegment(p, image, |buf|)
    requires forall k :: 0 <= k < |between| ==> SenderSegment(between[k], image, |buf|)
    ensures forall k :: 0 <= k < |[p] + between| ==> SenderSegment(([p] + between)[k], image, |buf|)
    ensures |p.payload| == p.hdr.size && Written(p) == p.payload
    ensures TakeAll(buf, next, [p] + between, image)
            == TakeAll(Patch(buf, p.hdr.seqn, Written(p)), NextExpected(next, p.hdr), between, image)
  {
    var ps := [p] + between;
    assert ps[0] == p && ps[1..] == between;
    forall k | 0 <= k < |ps| ensures SenderSegment(ps[k], image, |buf|) {
      if k > 0 { assert ps[k] == between[k - 1]; }
    }
    WrittenOfSegment(p, image, |buf|);
  }

  /** A segment taken again, after any other sender segments, leaves the
      buffer as it is; when it was first taken in order, it also leaves the
      expected offset, which has moved past it for good. */
  lemma RetakeChangesNothing(buf: seq<byte>, next: u32, image: seq<byte>, imgSize: nat,
                             p: Packet, between: seq<Packet>)
    requires imgSize <= MAXSEQ && |buf| == imgSize && next <= imgSize
    requires SenderSegment(p, image, imgSize)
    requires forall k :: 0 <= k < |between| ==> SenderSegment(between[k], image, imgSize)
    ensures var s := TakeAll(buf, next, [p] + between, image);
      && Patch(s.0, p.hdr.seqn, Written(p)) == s.0
      && (p.hdr.seqn == next ==> NextExpected(s.1, p.hdr) == s.1)
  {
    TakeFirst(buf, next, image, p, between);
    WrittenOfSegment(p, image, imgSize);
    var buf1 := Patch(buf, p.hdr.seqn, Written(p));
    var next1 := NextExpected(next, p.hdr);
    var s := TakeAll(buf1, next1, between, image);
    forall j | p.hdr.seqn <= j < p.hdr.seqn + p.hdr.size
      ensures s.0[j] == image[j]
    {
      assert buf1[j] == image[j];
      TakeAllKeepsBytes(buf1, next1, between, image, j);
    }
    PatchOverHeld(s.0, image, p);
    if p.hdr.seqn == next {
      assert next1 == next + p.hdr.size;
      TakeAllAdvances(buf1, next1, between, image);
    }
  }
}
