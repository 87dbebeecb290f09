/** The sender's sliding window of imgdb::sendimg, stated as functions: the
    segments one round of the send loop walks through, the packets it puts on
    the wire, and how the ACK phase moves snd_una. The method that runs the
    loops (Server.ImgDb.SendImg) is proved against these functions. */
module Window {
  import opened Wire

  function Min(a: int, b: int): int { if a < b then a else b }
  function Max(a: int, b: int): int { if a < b then b else a }

  /** Conversion of a C int to unsigned int (two's complement wrap-around). */
  function U32(x: int): u32 { x % 0x1_0000_0000 }

  /** datasize = mss - sizeof(ihdr_t) - NETIMG_UDPIP, an int that is not
      positive when mss < 37 (the server never checks the client's mss). */
  function Datasize(mss: int): int { mss - IHDR_SIZE - UDPIP }

  /** One pass through the send loop: the segment at offset `seqn` of `size`
      bytes, and whether the drop oracle dropped it instead of sending it. */
  datatype Attempt = Attempt(seqn: u32, size: u16, dropped: bool)

  /** One round of the outer loop: snd_una (== snd_next) when the round starts,
      and the attempts its send loop made. */
  datatype Round = Round(una: nat, attempts: seq<Attempt>)

  /** snd_next after a run of attempts that started at `next`. */
  function EndOf(next: nat, a: seq<Attempt>): nat
  {
    if a == [] then next else a[|a| - 1].seqn + a[|a| - 1].size
  }

  /** The attempts the send loop makes from snd_next == `next` with snd_una ==
      `una`, a window of `wnd` bytes and `ds` data bytes per segment. Attempt
      `i` of round `r` is dropped when the oracle `drop(r, i)` says so. */
  function Burst(una: nat, next: nat, imgSize: nat, ds: nat, wnd: nat,
                 drop: (nat, nat) -> bool, r: nat, i: nat): seq<Attempt>
    requires 1 <= ds < 0x1_0000
    requires una <= next <= imgSize <= MAXSEQ
    decreases imgSize - next
  {
    if wnd - (next - una) > ds && imgSize - next != 0 then
      var seg := Min(ds, imgSize - next);
      [Attempt(next, seg, drop(r, i))] + Burst(una, next + seg, imgSize, ds, wnd, drop, r, i + 1)
    else
      []
  }

  /** The segments of a window start at snd_next and follow each other without
      gap (a dropped segment still advances snd_next); the window ends inside
      the image, and the loop stops only when the image is exhausted or at most
      one segment of window is left. */
  lemma {:induction false} BurstContiguous(una: nat, next: nat, imgSize: nat, ds: nat, wnd: nat,
                                           drop: (nat, nat) -> bool, r: nat, i: nat)
    requires 1 <= ds < 0x1_0000
    requires una <= next <= imgSize <= MAXSEQ
    decreases imgSize - next
    ensures var a := Burst(una, next, imgSize, ds, wnd, drop, r, i);
      && (|a| > 0 ==> a[0].seqn == next)
      && (forall k :: 0 <= k < |a| - 1 ==> a[k + 1].seqn == a[k].seqn + a[k].size)
      && next <= EndOf(next, a) <= imgSize
      && (EndOf(next, a) == imgSize || wnd - (EndOf(next, a) - una) <= ds)
  {
    if wnd - (next - una) > ds && imgSize - next != 0 {
      var seg := Min(ds, imgSize - next);
      BurstContiguous(una, next + seg, imgSize, ds, wnd, drop, r, i + 1);
    }
  }

  /** Segment `k` of a window has size min(datasize, imgsize - seqn), is never
      empty, never runs past the image, stays inside the window of rwnd*datasize
      bytes from snd_una, and is dropped exactly when the oracle says so. */
  lemma {:induction false} BurstSegment(una: nat, next: nat, imgSize: nat, ds: nat, wnd: nat,
                                        drop: (nat, nat) -> bool, r: nat, i: nat, k: nat)
    requires 1 <= ds < 0x1_0000
    requires una <= next <= imgSize <= MAXSEQ
    requires k < |Burst(una, next, imgSize, ds, wnd, drop, r, i)|
    decreases k
    ensures var s := Burst(una, next, imgSize, ds, wnd, drop, r, i)[k];
      && next <= s.seqn
      && 0 < s.size == Min(ds, imgSize - s.seqn)
      && s.seqn + s.size <= imgSize
      && s.seqn + s.size - una < wnd
      && s.dropped == drop(r, i + k)
  {
    if k > 0 {
      var seg := Min(ds, imgSize - next);
      BurstSegment(una, next + seg, imgSize, ds, wnd, drop, r, i + 1, k - 1);
    }
  }

  /** One step of the send loop, as Burst unfolds it. */
  lemma BurstUnfold(una: nat, next: nat, imgSize: nat, ds: nat, wnd: nat,
                    drop: (nat, nat) -> bool, r: nat, i: nat)
    requires 1 <= ds < 0x1_0000
    requires una <= next <= imgSize <= MAXSEQ
    ensures wnd - (next - una) > ds && next < imgSize ==>
              Burst(una, next, imgSize, ds, wnd, drop, r, i)
                == [Attempt(next, Min(ds, imgSize - next), drop(r, i))]
                   + Burst(una, next + Min(ds, imgSize - next), imgSize, ds, wnd, drop, r, i + 1)
    ensures !(wnd - (next - una) > ds && next < imgSize) ==> Burst(una, next, imgSize, ds, wnd, drop, r, i) == []
  {
  }

  /** The send loop's invariant `attempts + Burst(snd_next) == whole round`
      survives taking one more segment. */
  lemma BurstAdvance(attempts: seq<Attempt>, una: nat, next: nat, imgSize: nat, ds: nat, wnd: nat,
                     drop: (nat, nat) -> bool, r: nat, i: nat, whole: seq<Attempt>)
    requires 1 <= ds < 0x1_0000 && una <= next < imgSize <= MAXSEQ && wnd - (next - una) > ds
    requires attempts + Burst(una, next, imgSize, ds, wnd, drop, r, i) == whole
    ensures (attempts + [Attempt(next, Min(ds, imgSize - next), drop(r, i))])
            + Burst(una, next + Min(ds, imgSize - next), imgSize, ds, wnd, drop, r, i + 1) == whole
  {
    BurstUnfold(una, next, imgSize, ds, wnd, drop, r, i);
    var a := Attempt(next, Min(ds, imgSize - next), drop(r, i));
    var rest := Burst(una, next + Min(ds, imgSize - next), imgSize, ds, wnd, drop, r, i + 1);
    assert attempts + ([a] + rest) == (attempts + [a]) + rest;
  }

  /** The attempts of round `r` when it starts at snd_una == snd_next == `una`;
      none when datasize is not positive (see NoRoomWithoutData). */
  function RoundAttempts(una: nat, imgSize: nat, mss: u16, rwnd: byte,
                         drop: (nat, nat) -> bool, r: nat): seq<Attempt>
    requires una <= imgSize <= MAXSEQ
  {
    var ds := Datasize(mss);
    if ds >= 1 then Burst(una, una, imgSize, ds, rwnd * ds, drop, r, 0) else []
  }

  /** The C guard `useable_window > datasize`, in unsigned arithmetic, where
      useable_window = rwnd_short - (snd_next - snd_una) and rwnd_short is the
      unsigned rwnd*datasize. */
  function Guard(rwndShort: u32, ds: int, used: int): bool
  {
    U32(rwndShort - used) > U32(ds)
  }

  /** rwnd_short, the window in bytes, as the unsigned conversion of rwnd*datasize. */
  function RwndShort(rwnd: byte, ds: int): u32
  {
    U32(rwnd * ds)
  }

  /** With datasize <= 0 the unsigned guard is false from the start of a round:
      the sender never transmits. */
  lemma NoRoomWithoutData(rwnd: byte, mss: u16)
    requires Datasize(mss) <= 0
    ensures !Guard(RwndShort(rwnd, Datasize(mss)), Datasize(mss), 0)
  {
    var ds := Datasize(mss);
    if ds == 0 {
      assert rwnd * ds == 0;
    } else if rwnd == 0 {
      U32Negative(ds);
    } else {
      var w := rwnd * ds;
      assert w == ds + (rwnd - 1) * ds;
      NegativeTimes(rwnd - 1, ds);
      MulBelow(rwnd, 255, -ds);
      assert -w == rwnd * -ds;
      U32Negative(w);
      U32Negative(ds);
    }
  }

  lemma NegativeTimes(a: nat, d: int)
    requires d < 0
    ensures a * d <= 0
  {
  }

  lemma U32Negative(x: int)
    requires -0x1_0000_0000 <= x < 0
    ensures U32(x) == x + 0x1_0000_0000
  {
  }

  /** With a positive datasize rwnd_short is the exact window rwnd*datasize. */
  lemma WindowFits(rwnd: byte, mss: u16)
    requires Datasize(mss) >= 1
    ensures 0 < rwnd * Datasize(mss) + Datasize(mss) < 0x1_0000_0000
    ensures RwndShort(rwnd, Datasize(mss)) == rwnd * Datasize(mss)
  {
    var ds := Datasize(mss);
    MulBelow(rwnd, 255, ds);
    U32Exact(rwnd * ds);
  }

  lemma U32Exact(x: int)
    requires 0 <= x < 0x1_0000_0000
    ensures U32(x) == x
  {
  }

  lemma MulBelow(a: nat, b: nat, c: nat)
    requires a <= b
    ensures a * c <= b * c
  {
    assert b * c == a * c + (b - a) * c;
  }

  /** While the used part of the window stays within it, the unsigned guard is
      exactly "more than one segment of the window is left". */
  lemma GuardIsWindowRoom(wnd: nat, ds: int, used: int)
    requires 1 <= ds && wnd + ds < 0x1_0000_0000
    requires 0 <= used <= wnd
    ensures Guard(wnd, ds, used) <==> wnd - used > ds
  {
  }

  // ---------------------------------------------------------------------------
  // Packets on the wire

  /** image[lo..hi], or nothing when that is not a slice of the image. */
  function Slice(image: seq<byte>, lo: nat, hi: nat): seq<byte>
  {
    if lo <= hi <= |image| then image[lo..hi] else []
  }

  /** The DATA datagram the loop sends for an attempt: header plus the image
      slice the iovec points at. */
  function SegmentOf(a: Attempt, image: seq<byte>): Packet
  {
    Packet(IHdr(VERS, DATA, a.size, a.seqn), Slice(image, a.seqn, a.seqn + a.size))
  }

  /** The datagrams sent for a run of attempts, in order: one per attempt the
      oracle did not drop. */
  function Transmitted(a: seq<Attempt>, image: seq<byte>): seq<Packet>
  {
    if a == [] then []
    else
      var last := a[|a| - 1];
      Transmitted(a[..|a| - 1], image) + (if last.dropped then [] else [SegmentOf(last, image)])
  }

  /** Exactly the attempts that were not dropped reach the wire. */
  lemma {:induction false} TransmittedIsUndropped(a: seq<Attempt>, image: seq<byte>)
    ensures var ps := Transmitted(a, image);
      && |ps| <= |a|
      && (forall p :: p in ps ==> exists k :: 0 <= k < |a| && !a[k].dropped && p == SegmentOf(a[k], image))
      && (forall k :: 0 <= k < |a| && !a[k].dropped ==> SegmentOf(a[k], image) in ps)
  {
    if a != [] {
      var init := a[..|a| - 1];
      TransmittedIsUndropped(init, image);
      assert forall k :: 0 <= k < |init| ==> init[k] == a[k];
    }
  }

  /** One more attempt adds its datagram unless it was dropped. */
  lemma TransmittedSnoc(a: seq<Attempt>, x: Attempt, image: seq<byte>)
    ensures Transmitted(a + [x], image) == Transmitted(a, image) + (if x.dropped then [] else [SegmentOf(x, image)])
  {
    assert (a + [x])[..|a|] == a;
  }

  /** Everything sendimg put on the wire over its rounds, in order. */
  function SentIn(rounds: seq<Round>, image: seq<byte>): seq<Packet>
  {
    if rounds == [] then []
    else SentIn(rounds[..|rounds| - 1], image) + Transmitted(rounds[|rounds| - 1].attempts, image)
  }

  // ---------------------------------------------------------------------------
  // Cumulative ACKs

  /** snd_una after one packet of the drain loop: an ACK moves it to the maximum
      of itself and the ACK's seqn; any other type leaves it. */
  function AckStep(una: nat, h: IHdr): nat
  {
    if h.typ == ACK then Max(una, h.seqn) else una
  }

  /** snd_una after draining one batch of packets, in arrival order. */
  function AckMax(una: nat, batch: seq<IHdr>): (u: nat)
    ensures una <= u
    ensures forall k :: 0 <= k < |batch| && batch[k].typ == ACK ==> batch[k].seqn <= u
  {
    if batch == [] then una
    else AckStep(AckMax(una, batch[..|batch| - 1]), batch[|batch| - 1])
  }

  /** snd_una after an ACK phase: the batches drained at each readiness
      wake-up before the retransmission timer fired. */
  function AckPhaseMax(una: nat, phase: seq<seq<IHdr>>): (u: nat)
    ensures una <= u
    ensures forall b, k :: 0 <= b < |phase| && 0 <= k < |phase[b]| && phase[b][k].typ == ACK ==>
              phase[b][k].seqn <= u
  {
    if phase == [] then una
    else AckMax(AckPhaseMax(una, phase[..|phase| - 1]), phase[|phase| - 1])
  }

  /** The cumulative ACK is exact: after a batch snd_una is either where it was
      or the seqn of one of the batch's ACKs (never a value nobody sent). */
  lemma {:induction false} AckMaxIsSomeAck(una: nat, batch: seq<IHdr>)
    ensures var u := AckMax(una, batch);
      u == una || exists k :: 0 <= k < |batch| && batch[k].typ == ACK && u == batch[k].seqn
  {
    if batch != [] {
      var init := batch[..|batch| - 1];
      AckMaxIsSomeAck(una, init);
      var v := AckMax(una, init);
      if v != una {
        var k :| 0 <= k < |init| && init[k].typ == ACK && v == init[k].seqn;
        assert batch[k] == init[k];
      }
    }
  }

  lemma {:induction false} AckPhaseMaxIsSomeAck(una: nat, phase: seq<seq<IHdr>>)
    ensures var u := AckPhaseMax(una, phase);
      u == una || exists b, k :: 0 <= b < |phase| && 0 <= k < |phase[b]| && phase[b][k].typ == ACK
                                 && u == phase[b][k].seqn
  {
    if phase != [] {
      var init := phase[..|phase| - 1];
      var last := phase[|phase| - 1];
      AckPhaseMaxIsSomeAck(una, init);
      var v := AckPhaseMax(una, init);
      AckMaxIsSomeAck(v, last);
      var u := AckMax(v, last);
      if u != v {
        var k :| 0 <= k < |last| && last[k].typ == ACK && u == last[k].seqn;
        assert phase[|phase| - 1][k] == last[k];
      } else if v != una {
        var b, k :| 0 <= b < |init| && 0 <= k < |init[b]| && init[b][k].typ == ACK && v == init[b][k].seqn;
        assert phase[b] == init[b];
      }
    }
  }

  /** Every ACK seqn of the phases is at most `bound`. */
  predicate AcksAtMost(phases: seq<seq<seq<IHdr>>>, bound: nat)
  {
    forall r, b, k :: 0 <= r < |phases| && 0 <= b < |phases[r]| && 0 <= k < |phases[r][b]| ==>
      phases[r][b][k].typ == ACK ==> phases[r][b][k].seqn <= bound
  }

  lemma AckPhaseAtMost(una: nat, phases: seq<seq<seq<IHdr>>>, r: nat, bound: nat)
    requires r < |phases| && AcksAtMost(phases, bound) && una <= bound
    ensures AckPhaseMax(una, phases[r]) <= bound
  {
    AckPhaseMaxIsSomeAck(una, phases[r]);
  }

  // ---------------------------------------------------------------------------
  // The whole transfer

  /** Where the rounds of sendimg's do-while start, driven by the ACK phases
      alone: `starts[k]` is snd_una (== snd_next) when round r+k begins, `una`
      is snd_una after the last round, and `done` says the loop exited. */
  datatype Acked = Acked(starts: seq<nat>, una: nat, done: bool)

  /** The rounds from round `r` on, starting at snd_una == `una`. Round `r`
      spends ACK phase `phases[r]`; the loop is followed for as many rounds as
      there are phases, and exits once snd_una (== snd_next) is not below imgsize.
      Go-Back-N: each round restarts at what the previous ACK phase left. */
  function AckRun(una: nat, imgSize: nat, phases: seq<seq<seq<IHdr>>>, r: nat): (run: Acked)
    requires una <= imgSize && r <= |phases|
    decreases |phases| - r
    ensures |run.starts| <= |phases| - r
    ensures forall k :: 0 <= k < |run.starts| ==> run.starts[k] <= imgSize
  {
    if r == |phases| then Acked([], una, false)
    else
      var u := AckPhaseMax(una, phases[r]);
      if u >= imgSize then Acked([una], u, true)
      else
        var rest := AckRun(u, imgSize, phases, r + 1);
        Acked([una] + rest.starts, rest.una, rest.done)
  }

  /** The length of a run: one round per phase until snd_una reaches
      imgsize, the first starting at `una`; the loop exits exactly when the
      last round's ACK phase brings snd_una to imgsize. */
  lemma {:induction false} AckRunLength(una: nat, imgSize: nat, phases: seq<seq<seq<IHdr>>>, r: nat)
    requires una <= imgSize && r <= |phases|
    decreases |phases| - r
    ensures var run := AckRun(una, imgSize, phases, r);
      && (r < |phases| ==> |run.starts| >= 1 && run.starts[0] == una)
      && (run.done <==> run.starts != [] && run.una >= imgSize)
      && (!run.done ==> |run.starts| == |phases| - r)
  {
    if r < |phases| {
      var u := AckPhaseMax(una, phases[r]);
      if u < imgSize {
        AckRunLength(u, imgSize, phases, r + 1);
      }
    }
  }

  /** Each round but the first starts below imgsize, where the previous
      round's ACK phase left snd_una. */
  lemma {:induction false} AckRunLinks(una: nat, imgSize: nat, phases: seq<seq<seq<IHdr>>>, r: nat)
    requires una <= imgSize && r <= |phases|
    decreases |phases| - r
    ensures var run := AckRun(una, imgSize, phases, r);
      forall k :: 1 <= k < |run.starts| ==>
        run.starts[k] < imgSize && run.starts[k] == AckPhaseMax(run.starts[k - 1], phases[r + k - 1])
  {
    if r < |phases| {
      var u := AckPhaseMax(una, phases[r]);
      if u < imgSize {
        AckRunLinks(u, imgSize, phases, r + 1);
        AckRunLength(u, imgSize, phases, r + 1);
        var rest := AckRun(u, imgSize, phases, r + 1);
        var run := AckRun(una, imgSize, phases, r);
        assert run.starts == [una] + rest.starts;
        forall k | 1 <= k < |run.starts|
          ensures run.starts[k] < imgSize && run.starts[k] == AckPhaseMax(run.starts[k - 1], phases[r + k - 1])
        {
          assert run.starts[k] == rest.starts[k - 1];
          if k >= 2 {
            assert run.starts[k - 1] == rest.starts[k - 2];
          }
        }
      }
    }
  }

  /** snd_una at the end of a run is what the last round's ACK phase left. */
  lemma {:induction false} AckRunLast(una: nat, imgSize: nat, phases: seq<seq<seq<IHdr>>>, r: nat)
    requires una <= imgSize && r <= |phases|
    decreases |phases| - r
    ensures var run := AckRun(una, imgSize, phases, r);
      run.una == if run.starts == [] then una
                 else AckPhaseMax(run.starts[|run.starts| - 1], phases[r + |run.starts| - 1])
  {
    if r < |phases| {
      var u := AckPhaseMax(una, phases[r]);
      if u < imgSize {
        AckRunLast(u, imgSize, phases, r + 1);
        AckRunLength(u, imgSize, phases, r + 1);
        var rest := AckRun(u, imgSize, phases, r + 1);
        var run := AckRun(una, imgSize, phases, r);
        assert run.starts == [una] + rest.starts;
      }
    }
  }

  /** snd_una never decreases over the rounds and ends no lower than it began. */
  lemma {:induction false} AckRunMonotone(una: nat, imgSize: nat, phases: seq<seq<seq<IHdr>>>, r: nat)
    requires una <= imgSize && r <= |phases|
    ensures var run := AckRun(una, imgSize, phases, r);
      (forall k :: 0 <= k < |run.starts| ==> una <= run.starts[k]) && una <= run.una
    decreases |phases| - r
  {
    if r < |phases| {
      var u := AckPhaseMax(una, phases[r]);
      if u < imgSize {
        AckRunMonotone(u, imgSize, phases, r + 1);
        var rest := AckRun(u, imgSize, phases, r + 1);
        var run := AckRun(una, imgSize, phases, r);
        assert run.starts == [una] + rest.starts;
      }
    }
  }

  /** A round of the do-while: the window sent from its own start. */
  function RoundAt(start: nat, imgSize: nat, mss: u16, rwnd: byte, drop: (nat, nat) -> bool, r: nat): Round
    requires start <= imgSize <= MAXSEQ
  {
    Round(start, RoundAttempts(start, imgSize, mss, rwnd, drop, r))
  }

  /** The rounds for the given starts, the first being round `r`. */
  function RoundsAt(starts: seq<nat>, imgSize: nat, mss: u16, rwnd: byte, drop: (nat, nat) -> bool,
                    r: nat): (rounds: seq<Round>)
    requires imgSize <= MAXSEQ
    requires forall k :: 0 <= k < |starts| ==> starts[k] <= imgSize
    ensures |rounds| == |starts|
    ensures forall k :: 0 <= k < |rounds| ==> rounds[k] == RoundAt(starts[k], imgSize, mss, rwnd, drop, r + k)
    decreases |starts|
  {
    if starts == [] then []
    else [RoundAt(starts[0], imgSize, mss, rwnd, drop, r)] + RoundsAt(starts[1..], imgSize, mss, rwnd, drop, r + 1)
  }

  /** Rounds that agree with RoundAt at every start are RoundsAt of those starts. */
  lemma RoundsAtOf(rounds: seq<Round>, starts: seq<nat>, imgSize: nat, mss: u16, rwnd: byte,
                   drop: (nat, nat) -> bool)
    requires imgSize <= MAXSEQ
    requires forall k :: 0 <= k < |starts| ==> starts[k] <= imgSize
    requires |rounds| == |starts|
    requires forall k :: 0 <= k < |rounds| ==> rounds[k] == RoundAt(starts[k], imgSize, mss, rwnd, drop, k)
    ensures rounds == RoundsAt(starts, imgSize, mss, rwnd, drop, 0)
  {
  }

  /** One more round of the do-while, as AckRun unfolds it. */
  lemma AckRunStep(una: nat, imgSize: nat, phases: seq<seq<seq<IHdr>>>, r: nat)
    requires una <= imgSize && r < |phases|
    ensures var u := AckPhaseMax(una, phases[r]);
      AckRun(una, imgSize, phases, r) ==
        if u >= imgSize then Acked([una], u, true)
        else Acked([una] + AckRun(u, imgSize, phases, r + 1).starts,
                   AckRun(u, imgSize, phases, r + 1).una, AckRun(u, imgSize, phases, r + 1).done)
  {
  }

  /** The rounds for some starts followed by one more round. */
  lemma RoundsAtSnoc(starts: seq<nat>, s: nat, imgSize: nat, mss: u16, rwnd: byte,
                     drop: (nat, nat) -> bool)
    requires imgSize <= MAXSEQ && s <= imgSize
    requires forall k :: 0 <= k < |starts| ==> starts[k] <= imgSize
    ensures forall k :: 0 <= k < |starts + [s]| ==> (starts + [s])[k] <= imgSize
    ensures RoundsAt(starts + [s], imgSize, mss, rwnd, drop, 0)
            == RoundsAt(starts, imgSize, mss, rwnd, drop, 0) + [RoundAt(s, imgSize, mss, rwnd, drop, |starts|)]
  {
    var rounds := RoundsAt(starts, imgSize, mss, rwnd, drop, 0) + [RoundAt(s, imgSize, mss, rwnd, drop, |starts|)];
    RoundsAtOf(rounds, starts + [s], imgSize, mss, rwnd, drop);
  }

  /** How far sendimg's do-while has come toward the run `whole` of all its
      rounds: `starts` are the rounds already run and snd_una is `una`; while
      the loop goes on, the rest of the run is AckRun from there. */
  predicate Progress(whole: Acked, starts: seq<nat>, una: nat, imgSize: nat,
                     phases: seq<seq<seq<IHdr>>>, completed: bool)
  {
    if completed then whole == Acked(starts, una, true)
    else una <= imgSize && |starts| <= |phases|
         && var rest := AckRun(una, imgSize, phases, |starts|);
            whole == Acked(starts + rest.starts, rest.una, rest.done)
  }

  /** One round of the do-while keeps Progress, snd_una moving to what
      the round's ACK phase acknowledges. */
  lemma ProgressStep(whole: Acked, starts: seq<nat>, una: nat, imgSize: nat,
                     phases: seq<seq<seq<IHdr>>>)
    requires Progress(whole, starts, una, imgSize, phases, false) && |starts| < |phases|
    ensures AckPhaseMax(una, phases[|starts|]) >= imgSize ==>
              Progress(whole, starts + [una], AckPhaseMax(una, phases[|starts|]), imgSize, phases, true)
    ensures AckPhaseMax(una, phases[|starts|]) < imgSize ==>
              Progress(whole, starts + [una], AckPhaseMax(una, phases[|starts|]), imgSize, phases, false)
  {
    AckRunStep(una, imgSize, phases, |starts|);
    var u := AckPhaseMax(una, phases[|starts|]);
    if u < imgSize {
      var rest := AckRun(u, imgSize, phases, |starts| + 1);
      assert starts + ([una] + rest.starts) == (starts + [una]) + rest.starts;
    }
  }

  /** Where Progress ends: the whole run is the rounds run so far. */
  lemma ProgressEnd(whole: Acked, starts: seq<nat>, una: nat, imgSize: nat,
                    phases: seq<seq<seq<IHdr>>>, completed: bool)
    requires Progress(whole, starts, una, imgSize, phases, completed)
    requires !completed ==> |starts| == |phases|
    ensures whole == Acked(starts, una, completed)
  {
  }

  /** What the first rounds plus one more round put on the wire. */
  lemma SentInSnoc(rounds: seq<Round>, round: Round, image: seq<byte>)
    ensures SentIn(rounds + [round], image) == SentIn(rounds, image) + Transmitted(round.attempts, image)
  {
    assert (rounds + [round])[..|rounds|] == rounds;
  }

  /** The rounds sendimg runs from round `r` on. */
  function SendRounds(una: nat, imgSize: nat, mss: u16, rwnd: byte, drop: (nat, nat) -> bool,
                      phases: seq<seq<seq<IHdr>>>, r: nat): seq<Round>
    requires una <= imgSize <= MAXSEQ && r <= |phases|
  {
    RoundsAt(AckRun(una, imgSize, phases, r).starts, imgSize, mss, rwnd, drop, r)
  }

  /** Properties every attempt of a round has: a non-empty segment of at most
      one datasize that lies inside the image. */
  predicate SegmentsWithin(a: seq<Attempt>, imgSize: nat, ds: int)
  {
    forall k :: 0 <= k < |a| ==> 0 < a[k].size <= ds && a[k].seqn + a[k].size <= imgSize
  }

  lemma RoundSegmentsWithin(una: nat, imgSize: nat, mss: u16, rwnd: byte, drop: (nat, nat) -> bool, r: nat)
    requires una <= imgSize <= MAXSEQ
    ensures SegmentsWithin(RoundAttempts(una, imgSize, mss, rwnd, drop, r), imgSize, Datasize(mss))
  {
    if Datasize(mss) >= 1 {
      forall k | 0 <= k < |RoundAttempts(una, imgSize, mss, rwnd, drop, r)| {
        BurstSegment(una, una, imgSize, Datasize(mss), rwnd * Datasize(mss), drop, r, 0, k);
      }
    }
  }

  /** Every datagram of a round lies inside its window: it starts at or after
      the round's snd_una and ends less than rwnd*datasize bytes past it. */
  lemma RoundInWindow(una: nat, imgSize: nat, mss: u16, rwnd: byte, drop: (nat, nat) -> bool, r: nat,
                      image: seq<byte>, p: Packet)
    requires una <= imgSize <= MAXSEQ
    requires p in Transmitted(RoundAttempts(una, imgSize, mss, rwnd, drop, r), image)
    ensures una <= p.hdr.seqn && p.hdr.seqn + p.hdr.size - una < rwnd * Datasize(mss)
  {
    var a := RoundAttempts(una, imgSize, mss, rwnd, drop, r);
    TransmittedIsUndropped(a, image);
    var k :| 0 <= k < |a| && !a[k].dropped && p == SegmentOf(a[k], image);
    assert Datasize(mss) >= 1;
    BurstSegment(una, una, imgSize, Datasize(mss), rwnd * Datasize(mss), drop, r, 0, k);
  }

  /** Every datagram sendimg puts on the wire is a DATA segment of version
      VERS whose header names exactly the image bytes it carries. */
  lemma {:induction false} SentAreSlices(rounds: seq<Round>, image: seq<byte>, imgSize: nat, ds: int)
    requires imgSize <= |image| && imgSize <= MAXSEQ && ds < 0x1_0000
    requires forall k :: 0 <= k < |rounds| ==> SegmentsWithin(rounds[k].attempts, imgSize, ds)
    ensures forall p :: p in SentIn(rounds, image) ==>
              p.hdr.vers == VERS && p.hdr.typ == DATA
              && 0 < p.hdr.size <= ds && p.hdr.seqn + p.hdr.size <= imgSize
              && p.payload == image[p.hdr.seqn..p.hdr.seqn + p.hdr.size]
  {
    if rounds != [] {
      var init := rounds[..|rounds| - 1];
      assert forall k :: 0 <= k < |init| ==> init[k] == rounds[k];
      SentAreSlices(init, image, imgSize, ds);
      var last := rounds[|rounds| - 1].attempts;
      assert SegmentsWithin(last, imgSize, ds);
      TransmittedIsUndropped(last, image);
      assert SentIn(rounds, image) == SentIn(init, image) + Transmitted(last, image);
    }
  }

  /** A round that starts below imgsize sends something exactly when the window
      holds more than one segment: rwnd >= 2 with a positive datasize. With
      rwnd == 1 (which the client accepts) no round ever sends a byte. */
  lemma RoundSendsIff(una: nat, imgSize: nat, mss: u16, rwnd: byte, drop: (nat, nat) -> bool, r: nat)
    requires una < imgSize <= MAXSEQ
    ensures var a := RoundAttempts(una, imgSize, mss, rwnd, drop, r);
      (|a| > 0 <==> Datasize(mss) >= 1 && rwnd >= 2)
      && (|a| > 0 ==> a[0].seqn == una)
  {
    var ds := Datasize(mss);
    if ds >= 1 {
      if rwnd >= 2 {
        assert rwnd * ds - (una - una) > ds by {
          assert rwnd * ds == ds + (rwnd - 1) * ds;
          assert (rwnd - 1) * ds >= ds;
        }
      } else {
        assert rwnd * ds <= ds;
      }
    }
  }
}
