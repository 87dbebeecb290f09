/** The image server of imgdb.cpp: query validation, image lookup, the image
    metadata reply, the acknowledged send of one packet with retries, and the
    windowed transfer of the image itself. */
module Server {
  import opened Wire
  import opened Window

  // ---------------------------------------------------------------------------
  // recvqry

  /** The reply code for a received query datagram `d` (0 when it is accepted).
      recvfrom reads at most sizeof(iqry_t) bytes, so a longer datagram is seen
      as its first IQRY_SIZE bytes and only a shorter one has the wrong size.
      The checks run in order: size, version, then type (with the name length
      for a SYNQRY). An ACK-typed query is accepted without further checks. */
  function RecvQry(d: seq<byte>): (rc: byte)
    ensures rc == ESIZE <==> |d| < IQRY_SIZE
    ensures |d| >= IQRY_SIZE ==>
      var q := DecodeQry(d);
      && (rc == EVERS <==> q.vers != VERS)
      && (rc == ENAME <==> q.vers == VERS && q.typ == SYNQRY && |q.name| >= MAXFNAME)
      && (rc == ETYPE <==> q.vers == VERS && q.typ != SYNQRY && q.typ != ACK)
      && (rc == 0 <==> q.vers == VERS && (q.typ == ACK || (q.typ == SYNQRY && |q.name| < MAXFNAME)))
    ensures rc == 0 || rc == ESIZE || rc == EVERS || rc == ENAME || rc == ETYPE
  {
    if |d| < IQRY_SIZE then ESIZE
    else if d[0] != VERS then EVERS
    else if d[1] == SYNQRY then
      (if CStrLen(NameField(d)) >= MAXFNAME then ENAME else 0)
    else if d[1] != ACK then ETYPE
    else 0
  }

  /** An accepted SYNQRY carries a NUL-terminated name: one that fits iq_name
      with room for its terminator. */
  lemma AcceptedQueryNameFits(d: seq<byte>)
    requires RecvQry(d) == 0 && DecodeQry(d).typ == SYNQRY
    ensures NameFits(DecodeQry(d).name) && |DecodeQry(d).name| < MAXFNAME
  {
    var f := NameField(d);
    var n := CStrLen(f);
    assert forall i :: 0 <= i < n ==> f[..n][i] == f[i];
  }

  // ---------------------------------------------------------------------------
  // readimg and marshall_imsg

  /** A loaded TGA image, as far as the transfer uses it. */
  datatype Tga = Tga(imageType: byte, pixelDepth: byte, alphaDepth: byte,
                     width: u16, height: u16, pixels: seq<byte>)

  /** The pixel array holds width*height pixels of pixelDepth/8 bytes each, and
      its size is a byte offset a segment can carry. */
  predicate ValidTga(t: Tga)
  {
    |t.pixels| == t.width * t.height * (t.pixelDepth / 8) && |t.pixels| <= MAXSEQ
  }

  /** The image files of the database folder that load, by file name. */
  type Store = map<cstr, Tga>

  /** readimg: an empty name is ENAME, a name that loads is FOUND, and any other
      name is NFOUND. */
  function ReadImg(name: cstr, store: Store): byte
  {
    if name == [] then ENAME
    else if name in store then FOUND
    else NFOUND
  }

  /** marshall_imsg: fills depth, format, width and height of `m` from the image
      (version and type are left as they are) and returns the image size. */
  function Marshall(m: IMsg, t: Tga): (r: (IMsg, nat))
    ensures r.0.vers == m.vers && r.0.typ == m.typ
    ensures r.0.depth == t.pixelDepth / 8
    ensures r.0.width == t.width && r.0.height == t.height
    ensures (r.0.format == GS || r.0.format == GSA) <==> (t.imageType == 3 || t.imageType == 11)
    ensures (r.0.format == GSA || r.0.format == RGBA) <==> t.alphaDepth != 0
    ensures r.0.format == GS || r.0.format == GSA || r.0.format == RGB || r.0.format == RGBA
    ensures r.1 == r.0.width * r.0.height * r.0.depth
  {
    var depth := t.pixelDepth / 8;
    var format :=
      if t.imageType == 3 || t.imageType == 11 then (if t.alphaDepth != 0 then GSA else GS)
      else (if t.alphaDepth != 0 then RGBA else RGB);
    (m.(depth := depth, format := format, width := t.width, height := t.height),
     t.width * t.height * depth)
  }

  /** For a valid image, the size announced is exactly the pixel array's length. */
  lemma MarshallSizeIsPixels(m: IMsg, t: Tga)
    requires ValidTga(t)
    ensures Marshall(m, t).1 == |t.pixels| <= MAXSEQ
  {
  }

  // ---------------------------------------------------------------------------
  // sendpkt

  /** What one select() in sendpkt sees after a transmission: the timer fired,
      or the socket became readable with the datagrams queued on it (`first`
      in front, then `rest`), each read as an ihdr_t. */
  datatype Wakeup = Timeout | Ready(first: IHdr, rest: seq<IHdr>)

  /** The wake-up after try `k`; once the environment has none left, the timer fires. */
  function WakeupAt(events: seq<Wakeup>, k: nat): Wakeup
  {
    if k < |events| then events[k] else Timeout
  }

  /** The seqn sendpkt compares: that of the one datagram it reads (all == 0), or
      of the last one drained before the socket was empty (all == 1), whatever
      its type. */
  function AckSeqnOf(w: Wakeup, all: bool): u32
    requires w.Ready?
  {
    if !all || w.rest == [] then w.first.seqn else w.rest[|w.rest| - 1].seqn
  }

  /** The result (0 or -1) and the number of transmissions of sendpkt from try
      `count` on: each try sends the packet and waits; a timeout leads to the
      next try, the first readable wake-up ends the exchange whatever it holds. */
  function PktOutcome(events: seq<Wakeup>, ackseqn: u32, all: bool, count: nat): (r: (int, nat))
    requires count <= MAXTRIES
    decreases MAXTRIES - count
    ensures r.0 == 0 || r.0 == -1
    ensures count == MAXTRIES ==> r == (-1, 0)
    ensures count < MAXTRIES ==> 1 <= r.1 <= MAXTRIES - count
    ensures count < MAXTRIES && WakeupAt(events, count).Ready? ==> r.1 == 1
  {
    if count == MAXTRIES then (-1, 0)
    else
      var w := WakeupAt(events, count);
      match w
      case Timeout =>
        var o := PktOutcome(events, ackseqn, all, count + 1);
        (o.0, o.1 + 1)
      case Ready(_, _) =>
        (if AckSeqnOf(w, all) == ackseqn then 0 else -1, 1)
  }

  /** Try `k` is the first one answered (all earlier tries timed out) and its
      answer carries `ackseqn`. */
  predicate AnsweredAt(events: seq<Wakeup>, ackseqn: u32, all: bool, c: nat, k: nat)
  {
    && (forall j :: c <= j < k ==> WakeupAt(events, j).Timeout?)
    && WakeupAt(events, k).Ready?
    && AckSeqnOf(WakeupAt(events, k), all) == ackseqn
  }

  /** sendpkt succeeds exactly when, within MAXTRIES tries, the first try that
      gets an answer gets the expected seqn; it then has sent the packet once
      per try up to that one. */
  lemma {:induction false} PktSucceedsIff(events: seq<Wakeup>, ackseqn: u32, all: bool, c: nat)
    requires c <= MAXTRIES
    ensures PktOutcome(events, ackseqn, all, c).0 == 0 <==>
              exists k :: c <= k < MAXTRIES && AnsweredAt(events, ackseqn, all, c, k)
    ensures forall k :: c <= k < MAXTRIES && AnsweredAt(events, ackseqn, all, c, k) ==>
              PktOutcome(events, ackseqn, all, c).1 == k - c + 1
    decreases MAXTRIES - c
  {
    if c < MAXTRIES {
      var w := WakeupAt(events, c);
      if w.Timeout? {
        PktSucceedsIff(events, ackseqn, all, c + 1);
        forall k | c <= k < MAXTRIES && AnsweredAt(events, ackseqn, all, c, k)
          ensures c + 1 <= k && AnsweredAt(events, ackseqn, all, c + 1, k)
        {
        }
        if PktOutcome(events, ackseqn, all, c).0 == 0 {
          var k :| c + 1 <= k < MAXTRIES && AnsweredAt(events, ackseqn, all, c + 1, k);
          assert AnsweredAt(events, ackseqn, all, c, k);
        }
      } else {
        forall k | c <= k < MAXTRIES && AnsweredAt(events, ackseqn, all, c, k)
          ensures k == c
        {
        }
        if PktOutcome(events, ackseqn, all, c).0 == 0 {
          assert AnsweredAt(events, ackseqn, all, c, c);
        }
      }
    }
  }

  /** sendpkt: transmits `pkt` up to MAXTRIES times and waits for its ACK.
      Returns the result and the datagrams it put on the wire. This is the
      corrected loop, which re-arms select() for every try (see
      PktOutcomeAsWritten). */
  method SendPkt(pkt: seq<byte>, ackseqn: u32, all: bool, events: seq<Wakeup>)
    returns (rc: int, wire: seq<seq<byte>>)
    ensures var o := PktOutcome(events, ackseqn, all, 0);
      rc == o.0 && |wire| == o.1
    ensures forall k :: 0 <= k < |wire| ==> wire[k] == pkt
  {
    var count := 0;
    wire := [];
    while count < MAXTRIES
      invariant 0 <= count <= MAXTRIES
      invariant |wire| == count && forall k :: 0 <= k < |wire| ==> wire[k] == pkt
      invariant var o := PktOutcome(events, ackseqn, all, count);
        PktOutcome(events, ackseqn, all, 0) == (o.0, count + o.1)
      decreases MAXTRIES - count
    {
      wire := wire + [pkt];
      var w := WakeupAt(events, count);
      if w.Timeout? {
        count := count + 1;
      } else if !all {
        rc := if w.first.seqn == ackseqn then 0 else -1;
        return;
      } else {
        var seen := w.first.seqn;
        var i := 0;
        while i < |w.rest|
          invariant 0 <= i <= |w.rest|
          invariant seen == if i == 0 then w.first.seqn else w.rest[i - 1].seqn
        {
          seen := w.rest[i].seqn;
          i := i + 1;
        }
        rc := if seen == ackseqn then 0 else -1;
        return;
      }
    }
    rc := -1;
  }

  /** sendpkt as written: the fd_set is filled once, before the loop, and
      select() empties it when the timer fires, so every try after the first
      timeout waits on no descriptor and times out as well (`armed` is false
      from then on). */
  function PktOutcomeAsWritten(events: seq<Wakeup>, ackseqn: u32, all: bool, count: nat, armed: bool): (r: (int, nat))
    requires count <= MAXTRIES
    decreases MAXTRIES - count
    ensures r.0 == 0 || r.0 == -1
  {
    if count == MAXTRIES then (-1, 0)
    else
      var w := if armed then WakeupAt(events, count) else Timeout;
      match w
      case Timeout =>
        var o := PktOutcomeAsWritten(events, ackseqn, all, count + 1, false);
        (o.0, o.1 + 1)
      case Ready(_, _) =>
        (if AckSeqnOf(w, all) == ackseqn then 0 else -1, 1)
  }

  /** As written, sendpkt can only succeed on its first try: the retries never
      see an answer. */
  lemma {:induction false} AsWrittenRetriesAreBlind(events: seq<Wakeup>, ackseqn: u32, all: bool, count: nat)
    requires count <= MAXTRIES
    ensures PktOutcomeAsWritten(events, ackseqn, all, count, false) == (-1, MAXTRIES - count)
    decreases MAXTRIES - count
  {
    if count < MAXTRIES {
      AsWrittenRetriesAreBlind(events, ackseqn, all, count + 1);
    }
  }

  lemma AsWrittenSucceedsOnlyFirstTry(events: seq<Wakeup>, ackseqn: u32, all: bool)
    ensures PktOutcomeAsWritten(events, ackseqn, all, 0, true).0 == 0 ==>
              WakeupAt(events, 0).Ready? && AckSeqnOf(WakeupAt(events, 0), all) == ackseqn
  {
    if WakeupAt(events, 0).Timeout? {
      AsWrittenRetriesAreBlind(events, ackseqn, all, 1);
    }
  }

  /** The FIN's ACK arriving just after the first timeout: the corrected loop
      takes it on the second try, the loop as written sends three times and fails. */
  lemma LateFinAckIsLost()
    ensures var events := [Timeout, Ready(IHdr(VERS, ACK, IHDR_SIZE, FINSEQ), [])];
      && PktOutcomeAsWritten(events, FINSEQ, true, 0, true) == (-1, 3)
      && PktOutcome(events, FINSEQ, true, 0) == (0, 2)
  {
    var events := [Timeout, Ready(IHdr(VERS, ACK, IHDR_SIZE, FINSEQ), [])];
    AsWrittenRetriesAreBlind(events, FINSEQ, true, 1);
    assert WakeupAt(events, 1) == events[1];
  }

  // ---------------------------------------------------------------------------
  // sendimsg

  /** sendimsg: sets the version, converts width and height to network order and
      sends the imsg_t with sendpkt, expecting the ACK with SYNSEQ. */
  method SendImsg(imsg: IMsg, events: seq<Wakeup>) returns (rc: int, wire: seq<seq<byte>>)
    ensures rc == PktOutcome(events, SYNSEQ, false, 0).0
    ensures |wire| == PktOutcome(events, SYNSEQ, false, 0).1
    ensures forall k :: 0 <= k < |wire| ==>
              |wire[k]| == IMSG_SIZE && DecodeIMsg(wire[k]) == imsg.(vers := VERS)
  {
    var m := imsg.(vers := VERS);
    var bytes := EncodeIMsg(m);
    IMsgRoundTrip(m);
    rc, wire := SendPkt(bytes, SYNSEQ, false, events);
  }

  // ---------------------------------------------------------------------------
  // sendimg

  /** The drain of the ACK phase: for each readiness wake-up, every queued
      datagram is read and each ACK moves snd_una up to its seqn, until the
      timer fires. */
  method AckPhase(una: nat, phase: seq<seq<IHdr>>) returns (sndUna: nat)
    ensures sndUna == AckPhaseMax(una, phase)
  {
    sndUna := una;
    var b := 0;
    while b < |phase|
      invariant 0 <= b <= |phase|
      invariant sndUna == AckPhaseMax(una, phase[..b])
    {
      var batch := phase[b];
      var start := sndUna;
      var k := 0;
      while k < |batch|
        invariant 0 <= k <= |batch|
        invariant sndUna == AckMax(start, batch[..k])
      {
        if batch[k].typ == ACK {
          sndUna := Max(sndUna, batch[k].seqn);
        }
        assert batch[..k + 1][..k] == batch[..k];
        k := k + 1;
      }
      assert batch[..k] == batch;
      assert phase[..b + 1][..b] == phase[..b];
      b := b + 1;
    }
    assert phase[..b] == phase;
  }

  /** One window of the send loop from snd_una == snd_next == `una`: while the
      unsigned usable window exceeds datasize and image bytes are left, take the
      next segment, send it unless the oracle drops it, and advance snd_next.
      Returns the attempts, the datagrams sent and the new snd_next. */
  method SendWindow(image: seq<byte>, imgSize: nat, una: nat, mss: u16, rwnd: byte,
                    drop: (nat, nat) -> bool, r: nat)
    returns (attempts: seq<Attempt>, sent: seq<Packet>, sndNext: nat)
    requires una <= imgSize <= |image| && imgSize <= MAXSEQ
    ensures attempts == RoundAttempts(una, imgSize, mss, rwnd, drop, r)
    ensures sent == Transmitted(attempts, image)
    ensures sndNext == EndOf(una, attempts)
  {
    var ds := Datasize(mss);
    attempts, sent, sndNext := [], [], una;
    if ds < 1 {
      // the guard is false at once: nothing is sent in this round
      NoRoomWithoutData(rwnd, mss);
      return;
    }
    var rwndShort := RwndShort(rwnd, ds);
    WindowFits(rwnd, mss);
    ghost var wnd: nat := rwnd * ds;
    ghost var whole := Burst(una, una, imgSize, ds, wnd, drop, r, 0);
    var i := 0;
    while Guard(rwndShort, ds, sndNext - una)
      invariant una <= sndNext <= imgSize
      invariant sndNext - una <= wnd
      invariant i == |attempts|
      invariant attempts + Burst(una, sndNext, imgSize, ds, wnd, drop, r, i) == whole
      invariant sndNext == EndOf(una, attempts)
      invariant sent == Transmitted(attempts, image)
      decreases imgSize - sndNext
    {
      GuardIsWindowRoom(wnd, ds, sndNext - una);
      var left := imgSize - sndNext;
      var segsize := Min(ds, left);
      if left == 0 {
        break;
      }
      var a := Attempt(sndNext, segsize, drop(r, i));
      if !a.dropped {
        sent := sent + [SegmentOf(a, image)];
      }
      TransmittedSnoc(attempts, a, image);
      BurstAdvance(attempts, una, sndNext, imgSize, ds, wnd, drop, r, i, whole);
      attempts := attempts + [a];
      sndNext := sndNext + segsize;
      i := i + 1;
    }
    GuardIsWindowRoom(wnd, ds, sndNext - una);
    BurstUnfold(una, sndNext, imgSize, ds, wnd, drop, r, i);
  }

  /** What sendimg did: its rounds, the datagrams it sent, snd_una at the end,
      whether the do-while exited, and (only then) the FIN exchange's result
      and transmissions. */
  datatype Transfer = Transfer(rounds: seq<Round>, sent: seq<Packet>, una: nat, completed: bool,
                               fin: Option<int>, finWire: seq<seq<byte>>)

  /** The FIN segment that closes a transfer. */
  function FinHdr(): IHdr { IHdr(VERS, FIN, 0, FINSEQ) }

  /** The do-while of sendimg: rounds of the send loop, each followed by an
      ACK phase, until snd_next (reset to snd_una) reaches imgsize or the
      environment has no more ACK phases. */
  method SendRoundsLoop(image: seq<byte>, imgSize: nat, mss: u16, rwnd: byte,
                        phases: seq<seq<seq<IHdr>>>, drop: (nat, nat) -> bool)
    returns (rounds: seq<Round>, sent: seq<Packet>, sndUna: nat, completed: bool)
    requires imgSize <= |image| && imgSize <= MAXSEQ
    requires AcksAtMost(phases, MAXSEQ)
    ensures rounds == SendRounds(0, imgSize, mss, rwnd, drop, phases, 0)
    ensures sent == SentIn(rounds, image)
    ensures sndUna == AckRun(0, imgSize, phases, 0).una
    ensures completed == AckRun(0, imgSize, phases, 0).done
  {
    ghost var whole := AckRun(0, imgSize, phases, 0);
    sndUna, rounds, sent, completed := 0, [], [], false;
    var sndNext: nat := 0;
    ghost var starts: seq<nat> := [];
    var r := 0;
    while r < |phases| && !completed
      invariant r == |starts| <= |phases|
      invariant sndUna <= MAXSEQ && sndNext == sndUna
      invariant forall k :: 0 <= k < |starts| ==> starts[k] <= imgSize
      invariant rounds == RoundsAt(starts, imgSize, mss, rwnd, drop, 0)
      invariant sent == SentIn(rounds, image)
      invariant Progress(whole, starts, sndUna, imgSize, phases, completed)
      decreases |phases| - r
    {
      var attempts, roundSent, next := SendWindow(image, imgSize, sndUna, mss, rwnd, drop, r);
      var round := Round(sndUna, attempts);
      SentInSnoc(rounds, round, image);
      RoundsAtSnoc(starts, sndUna, imgSize, mss, rwnd, drop);
      ProgressStep(whole, starts, sndUna, imgSize, phases);
      rounds := rounds + [round];
      sent := sent + roundSent;
      starts := starts + [sndUna];
      var u := AckPhase(sndUna, phases[r]);
      AckPhaseAtMost(sndUna, phases, r, MAXSEQ);
      sndUna := u;
      sndNext := sndUna;
      completed := !(sndNext < imgSize);
      r := r + 1;
    }
    ProgressEnd(whole, starts, sndUna, imgSize, phases, completed);
  }

  /** The server object: the client's parameters it adopts from a query. */
  class ImgDb {
    var mss: u16
    var rwnd: byte
    var fwnd: byte

    /** sendimg: sends `imgSize` bytes of `image` with a window of rwnd segments
        of datasize bytes, Go-Back-N from snd_una after each ACK phase, until
        snd_una reaches imgsize; then the FIN. */
    method SendImg(image: seq<byte>, imgSize: nat, phases: seq<seq<seq<IHdr>>>,
                   drop: (nat, nat) -> bool, finEvents: seq<Wakeup>) returns (t: Transfer)
      requires imgSize <= |image| && imgSize <= MAXSEQ
      requires AcksAtMost(phases, MAXSEQ)
      ensures t.rounds == SendRounds(0, imgSize, mss, rwnd, drop, phases, 0)
      ensures t.sent == SentIn(t.rounds, image)
      ensures t.una == AckRun(0, imgSize, phases, 0).una
      ensures t.completed == AckRun(0, imgSize, phases, 0).done
      ensures t.completed ==> t.fin == Some(PktOutcome(finEvents, FINSEQ, true, 0).0)
                              && |t.finWire| == PktOutcome(finEvents, FINSEQ, true, 0).1
                              && forall k :: 0 <= k < |t.finWire| ==> t.finWire[k] == EncodeHdr(FinHdr())
      ensures !t.completed ==> t.fin == None && t.finWire == []
    {
      var rounds, sent, sndUna, completed := SendRoundsLoop(image, imgSize, mss, rwnd, phases, drop);
      t := Transfer(rounds, sent, sndUna, completed, None, []);
      if completed {
        var rc, wire := SendPkt(EncodeHdr(FinHdr()), FINSEQ, true, finEvents);
        t := t.(fin := Some(rc), finWire := wire);
      }
    }

    /** What handleqry answered and sent. `reply` is the imsg_t before
        sendimsg sets its version; fields the code leaves uninitialised on an
        error reply are 0 here. */
    method HandleQry(dgram: seq<byte>, store: Store, imsgEvents: seq<Wakeup>,
                     phases: seq<seq<seq<IHdr>>>, drop: (nat, nat) -> bool, finEvents: seq<Wakeup>)
      returns (reply: IMsg, imsgRc: int, imsgWire: seq<seq<byte>>, transfer: Option<Transfer>)
      requires forall name :: name in store ==> ValidTga(store[name])
      requires AcksAtMost(phases, MAXSEQ)
      modifies this
      ensures imsgRc == PktOutcome(imsgEvents, SYNSEQ, false, 0).0
      ensures |imsgWire| == PktOutcome(imsgEvents, SYNSEQ, false, 0).1
      ensures forall k :: 0 <= k < |imsgWire| ==>
                |imsgWire[k]| == IMSG_SIZE && DecodeIMsg(imsgWire[k]) == reply.(vers := VERS)
      ensures RecvQry(dgram) != 0 ==>
                reply == IMsg(0, RecvQry(dgram), 0, 0, 0, 0) && transfer == None
                && mss == old(mss) && rwnd == old(rwnd) && fwnd == old(fwnd)
      ensures RecvQry(dgram) == 0 ==>
                var q := DecodeQry(dgram);
                var found := ReadImg(q.name, store);
                && (found == FOUND ==>
                      && mss == q.mss && rwnd == q.rwnd && fwnd == q.fwnd
                      && reply == Marshall(IMsg(0, FOUND, 0, 0, 0, 0), store[q.name]).0
                      && (transfer.Some? <==> imsgRc == 0)
                      && |store[q.name].pixels| <= MAXSEQ
                      && (transfer.Some? ==>
                            transfer.value.rounds == SendRounds(0, |store[q.name].pixels|, q.mss, q.rwnd, drop, phases, 0)
                            && transfer.value.sent == SentIn(transfer.value.rounds, store[q.name].pixels)
                            && transfer.value.una == AckRun(0, |store[q.name].pixels|, phases, 0).una
                            && transfer.value.completed == AckRun(0, |store[q.name].pixels|, phases, 0).done
                            && (transfer.value.completed ==>
                                  && transfer.value.fin == Some(PktOutcome(finEvents, FINSEQ, true, 0).0)
                                  && |transfer.value.finWire| == PktOutcome(finEvents, FINSEQ, true, 0).1
                                  && forall k :: 0 <= k < |transfer.value.finWire| ==>
                                       transfer.value.finWire[k] == EncodeHdr(FinHdr()))
                            && (!transfer.value.completed ==>
                                  transfer.value.fin == None && transfer.value.finWire == [])))
                && (found != FOUND ==>
                      reply == IMsg(0, found, 0, 0, 0, 0) && transfer == None
                      && mss == old(mss) && rwnd == old(rwnd) && fwnd == old(fwnd))
    {
      var rc := RecvQry(dgram);
      transfer := None;
      if rc != 0 {
        reply := IMsg(0, rc, 0, 0, 0, 0);
        imsgRc, imsgWire := SendImsg(reply, imsgEvents);
      } else {
        var q := DecodeQry(dgram);
        var found := ReadImg(q.name, store);
        if found == FOUND {
          mss := q.mss;
          rwnd := q.rwnd;
          fwnd := q.fwnd;
          var img := store[q.name];
          var size;
          reply, size := Marshall(IMsg(0, FOUND, 0, 0, 0, 0), img).0, Marshall(IMsg(0, FOUND, 0, 0, 0, 0), img).1;
          MarshallSizeIsPixels(IMsg(0, FOUND, 0, 0, 0, 0), img);
          imsgRc, imsgWire := SendImsg(reply, imsgEvents);
          if imsgRc == 0 {
            var t := SendImg(img.pixels, size, phases, drop, finEvents);
            transfer := Some(t);
          }
        } else {
          reply := IMsg(0, found, 0, 0, 0, 0);
          imsgRc, imsgWire := SendImsg(reply, imsgEvents);
        }
      }
    }
  }
}
