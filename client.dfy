/** The image client of netimg.cpp: command-line rules, the query it sends,
    the metadata reply it accepts, and the receiver that places each data
    segment into the image buffer at its byte offset and acknowledges
    cumulatively. */
module Client {
  import opened Wire
  import opened Window

  // ---------------------------------------------------------------------------
  // C conversions

  /** A cast of an int to unsigned short (two's complement wrap-around). */
  function U16(x: int): u16 { x % 0x1_0000 }

  /** A cast of an int to unsigned char. */
  function U8(x: int): byte { x % 0x100 }

  function IsSpace(c: byte): bool { c == 0x20 || 0x09 <= c <= 0x0d }
  function IsDigit(c: byte): bool { 0x30 <= c <= 0x39 }

  function SkipSpaces(s: seq<byte>): seq<byte>
  {
    if s != [] && IsSpace(s[0]) then SkipSpaces(s[1..]) else s
  }

  /** The value of the decimal digits at the front of `s`, read left to right
      onto `acc`. */
  function LeadingValue(s: seq<byte>, acc: nat): nat
  {
    if s != [] && IsDigit(s[0]) then LeadingValue(s[1..], acc * 10 + (s[0] - 0x30)) else acc
  }

  /** atoi: leading white space, an optional sign, then the leading digits;
      0 when there are none. The value is kept exact (atoi's result beyond the
      range of int is undefined in C). */
  function Atoi(s: seq<byte>): int
  {
    var t := SkipSpaces(s);
    if t != [] && t[0] == 0x2d then 0 - LeadingValue(t[1..], 0)
    else if t != [] && t[0] == 0x2b then LeadingValue(t[1..], 0)
    else LeadingValue(t, 0)
  }

  /** The decimal digits of `n`, most significant first, without leading zeros. */
  function Decimal(n: nat): (s: seq<byte>)
    ensures |s| >= 1 && forall i :: 0 <= i < |s| ==> IsDigit(s[i])
  {
    if n < 10 then [0x30 + n] else Decimal(n / 10) + [0x30 + n % 10]
  }

  /** One more digit at the end multiplies the value read so far by ten. */
  lemma {:induction false} LeadingValueSnoc(a: seq<byte>, d: byte, acc: nat)
    requires forall i :: 0 <= i < |a| ==> IsDigit(a[i])
    requires IsDigit(d)
    ensures LeadingValue(a + [d], acc) == LeadingValue(a, acc) * 10 + (d - 0x30)
  {
    if a != [] {
      assert (a + [d])[1..] == a[1..] + [d];
      LeadingValueSnoc(a[1..], d, acc * 10 + (a[0] - 0x30));
    }
  }

  lemma {:induction false} LeadingValueOfDecimal(n: nat)
    ensures LeadingValue(Decimal(n), 0) == n
  {
    if n >= 10 {
      LeadingValueOfDecimal(n / 10);
      LeadingValueSnoc(Decimal(n / 10), 0x30 + n % 10, 0);
    }
  }

  /** atoi reads back the decimal digits of any natural number, and a minus
      sign in front of them as its negation. */
  lemma AtoiOfDecimal(n: nat)
    ensures Atoi(Decimal(n)) == n
    ensures Atoi([0x2d] + Decimal(n)) == 0 - n
  {
    LeadingValueOfDecimal(n);
    assert ([0x2d] + Decimal(n))[1..] == Decimal(n);
  }

  // ---------------------------------------------------------------------------
  // The host:port split of args

  /** Where the backward scan of `-s` stops: the last ':' at an index in
      1..p, or None when the scan reaches the first character. */
  function LastSep(s: seq<byte>, p: nat): (j: Option<nat>)
    requires p < |s|
    decreases p
    ensures j.Some? ==> 1 <= j.value <= p
  {
    if p == 0 then None
    else if s[p] == PORTSEP then Some(p)
    else LastSep(s, p - 1)
  }

  /** The scan finds the last ':' of the argument that is not its first
      character, and finds none exactly when there is no such ':'. */
  lemma {:induction false} LastSepIsLastColon(s: seq<byte>, p: nat)
    requires p < |s|
    decreases p
    ensures LastSep(s, p).Some? ==>
              var j := LastSep(s, p).value;
              1 <= j <= p && s[j] == PORTSEP && forall k :: j < k <= p ==> s[k] != PORTSEP
    ensures LastSep(s, p).None? <==> forall k :: 1 <= k <= p ==> s[k] != PORTSEP
  {
    if p > 0 && s[p] != PORTSEP {
      LastSepIsLastColon(s, p - 1);
    }
  }

  /** The loop of args' `-s` case: p starts at the last character and walks
      back until it meets a ':' or the first character. */
  method SplitHostPort(s: seq<byte>) returns (j: Option<nat>)
    requires |s| >= 1
    ensures j == LastSep(s, |s| - 1)
  {
    var p := |s| - 1;
    while p != 0 && s[p] != PORTSEP
      invariant 0 <= p < |s|
      invariant LastSep(s, p) == LastSep(s, |s| - 1)
      decreases p
    {
      p := p - 1;
    }
    if p == 0 {
      j := None;
    } else {
      j := Some(p);
    }
  }

  /** Joining a host and a port with ':' and splitting again gives both back,
      as long as the host is not empty and the port holds no ':'. */
  lemma HostPortRoundTrip(host: seq<byte>, port: seq<byte>)
    requires host != []
    requires forall k :: 0 <= k < |port| ==> port[k] != PORTSEP
    ensures var s := host + [PORTSEP] + port;
      && LastSep(s, |s| - 1) == Some(|host|)
      && s[..|host|] == host && s[|host| + 1..] == port
  {
    var s := host + [PORTSEP] + port;
    LastSepIsLastColon(s, |s| - 1);
    var j := |host|;
    assert s[j] == PORTSEP;
    assert forall k :: j < k < |s| ==> s[k] == port[k - j - 1];
  }

  // ---------------------------------------------------------------------------
  // args

  /** How args fails: Usage is its return of 1; the other three are the
      net_asserts that end the process. */
  datatype ArgsError = Usage | AddrMalformed | HostTooLong | ImgNameTooLong

  /** One option as getopt("s:q:m:w:d:") returns it, with its argument. */
  datatype Opt = Opt(flag: byte, arg: seq<byte>)

  /** What the options have set so far: the client's mss and rwnd, and the
      caller's sname, port and imgname (None while no option has set them). */
  datatype Settings = Settings(mss: u16, rwnd: byte, sname: Option<seq<byte>>,
                               port: Option<u16>, imgname: Option<seq<byte>>)

  datatype Result<T, E> = Ok(value: T) | Err(error: E)

  datatype Parse = Parse(st: Settings, err: Option<ArgsError>)

  /** `-s` arguments are not empty (for an empty one the C scan starts before
      the string). */
  predicate WellFormedOpts(opts: seq<Opt>)
  {
    forall k :: 0 <= k < |opts| ==> opts[k].flag == 0x73 ==> opts[k].arg != []
  }

  /** `-m` as the code means it: an atoi value below NETIMG_MINSS (or, beyond
      the code, above what an unsigned short holds) is refused; otherwise it is
      the mss. An mss it accepts leaves room for at least 4 data bytes in every
      segment. */
  function MssArg(a: int): (m: Option<u16>)
    ensures m.Some? ==> Datasize(m.value) >= 4
  {
    if a < MINSS || a > 0xffff then None else Some(a)
  }

  /** `-m` as written: the check is made on the int and the value is then cut
      to an unsigned short. It differs from the intended rule exactly for
      values an unsigned short cannot hold, and only such a value leaves an
      mss below NETIMG_MINSS. */
  function MssArgAsWritten(a: int): (m: Option<u16>)
    ensures m != MssArg(a) <==> a > 0xffff
    ensures m.Some? && m.value < MINSS ==> a > 0xffff
  {
    if a < MINSS then None else Some(U16(a))
  }

  /** `-m 65546` passes the check and leaves an mss of 10, below NETIMG_MINSS:
      a datasize of -26, with which the server sends no data at all. */
  lemma MssAsWrittenWraps()
    ensures MssArgAsWritten(65546) == Some(10) && 10 < MINSS
    ensures Datasize(10) < 1
    ensures MssArg(65546) == None
  {
  }

  /** `-w`: an atoi value in [1, NETIMG_MAXWIN] is the window, any other is
      refused. A window it accepts leaves the derived fwnd below it, and its
      receive buffer of rwnd*mss bytes fits an int for every mss. */
  function RwndArg(a: int): (w: Option<byte>)
    ensures w.Some? ==> DeriveFwnd(w.value) < w.value
    ensures w.Some? ==> w.value * 0xffff < 0x8000_0000
  {
    if a < 1 || a > MAXWIN then None else Some(a)
  }

  /** The options of args' getopt string "s:q:m:w:d:". */
  predicate KnownFlag(f: byte)
  {
    f == 0x73 || f == 0x71 || f == 0x6d || f == 0x77 || f == 0x64
  }

  /** One pass of args' switch. `-d` sets the drop probability, which this
      model leaves out, so it changes nothing here. */
  function Step(st: Settings, o: Opt): (r: Result<Settings, ArgsError>)
    requires o.flag == 0x73 ==> o.arg != []
    ensures !KnownFlag(o.flag) ==> r == Err(Usage)
    ensures o.flag == 0x64 ==> r == Ok(st)
    ensures r.Ok? && o.flag != 0x6d ==> r.value.mss == st.mss
    ensures r.Ok? && o.flag != 0x77 ==> r.value.rwnd == st.rwnd
    ensures r.Ok? && o.flag != 0x73 ==> r.value.sname == st.sname && r.value.port == st.port
    ensures r.Ok? && o.flag != 0x71 ==> r.value.imgname == st.imgname
  {
    if o.flag == 0x73 then        // 's'
      match LastSep(o.arg, |o.arg| - 1)
      case None => Err(AddrMalformed)
      case Some(j) =>
        if j + 1 > MAXFNAME then Err(HostTooLong)
        else Ok(st.(sname := Some(o.arg[..j]), port := Some(U16(Atoi(o.arg[j + 1..])))))
    else if o.flag == 0x71 then   // 'q'
      if |o.arg| >= MAXFNAME then Err(ImgNameTooLong) else Ok(st.(imgname := Some(o.arg)))
    else if o.flag == 0x6d then   // 'm'
      match MssArg(Atoi(o.arg))
      case None => Err(Usage)
      case Some(m) => Ok(st.(mss := m))
    else if o.flag == 0x77 then   // 'w'
      match RwndArg(Atoi(o.arg))
      case None => Err(Usage)
      case Some(w) => Ok(st.(rwnd := w))
    else if o.flag == 0x64 then   // 'd'
      Ok(st)
    else Err(Usage)
  }

  /** The getopt loop from option `i` on: options are taken in order until
      one fails, which leaves the settings as they were before it. */
  function ParseOpts(st: Settings, opts: seq<Opt>, i: nat): (r: Parse)
    requires WellFormedOpts(opts) && i <= |opts|
    ensures r.err.None? ==> forall k :: i <= k < |opts| ==> KnownFlag(opts[k].flag)
    decreases |opts| - i
  {
    if i == |opts| then Parse(st, None)
    else match Step(st, opts[i])
      case Err(e) => Parse(st, Some(e))
      case Ok(st') => ParseOpts(st', opts, i + 1)
  }

  /** Settings whose mss and rwnd are within the bounds args enforces. */
  predicate Bounded(st: Settings)
  {
    MINSS <= st.mss && 1 <= st.rwnd
  }

  /** The defaults args starts from. */
  function Defaults(): Settings
  {
    Settings(MSS, RCVWIN, None, None, None)
  }

  /** Every option keeps mss of at least NETIMG_MINSS and rwnd in
      [1, NETIMG_MAXWIN], whether it succeeds or fails, and names are
      only set short enough for their C buffers. */
  lemma {:induction false} ParseKeepsBounds(st: Settings, opts: seq<Opt>, i: nat)
    requires WellFormedOpts(opts) && i <= |opts|
    requires Bounded(st)
    requires st.imgname.Some? ==> |st.imgname.value| < MAXFNAME
    requires st.sname.Some? ==> |st.sname.value| < MAXFNAME
    decreases |opts| - i
    ensures var p := ParseOpts(st, opts, i);
      && Bounded(p.st)
      && (p.st.imgname.Some? ==> |p.st.imgname.value| < MAXFNAME)
      && (p.st.sname.Some? ==> |p.st.sname.value| < MAXFNAME)
  {
    if i < |opts| {
      match Step(st, opts[i])
      case Err(e) =>
      case Ok(st') => ParseKeepsBounds(st', opts, i + 1);
    }
  }

  /** fwnd = NETIMG_FECWIN >= rwnd ? rwnd-1 : NETIMG_FECWIN, stored in an
      unsigned char. For every window args allows it is smaller than rwnd and
      at most NETIMG_FECWIN; a window of 0 would give 255. */
  function DeriveFwnd(rwnd: byte): (f: byte)
    ensures rwnd >= 1 ==> f < rwnd && f <= FECWIN && (f == rwnd - 1 || f == FECWIN)
    ensures rwnd >= 1 ==> f == Min(rwnd - 1, FECWIN)
    ensures rwnd == 0 ==> f == 255
  {
    if FECWIN >= rwnd then U8(rwnd - 1) else FECWIN
  }

  /** When args succeeds, the client's parameters are within bounds: mss of
      at least NETIMG_MINSS (so a datasize of at least 4 bytes), rwnd in
      [1, NETIMG_MAXWIN] and fwnd below rwnd; the names fit their buffers. */
  lemma ArgsBounds(opts: seq<Opt>)
    requires WellFormedOpts(opts)
    requires ParseOpts(Defaults(), opts, 0).err == None
    ensures var st := ParseOpts(Defaults(), opts, 0).st;
      && MINSS <= st.mss && Datasize(st.mss) >= 4
      && 1 <= st.rwnd <= MAXWIN && DeriveFwnd(st.rwnd) < st.rwnd
      && (st.imgname.Some? ==> |st.imgname.value| < MAXFNAME)
      && (st.sname.Some? ==> |st.sname.value| < MAXFNAME)
  {
    ParseKeepsBounds(Defaults(), opts, 0);
    MinSegmentHoldsData(ParseOpts(Defaults(), opts, 0).st.mss);
  }

  // ---------------------------------------------------------------------------
  // sendqry

  /** The query sendqry builds for `imgname` from the client's parameters. */
  function Query(mss: u16, rwnd: byte, fwnd: byte, imgname: seq<byte>): IQry
  {
    IQry(VERS, SYNQRY, mss, rwnd, fwnd, imgname)
  }

  // ---------------------------------------------------------------------------
  // imsg_t as it lies in host memory (a little-endian host)

  function LE16(b: seq<byte>, i: nat): u16
    requires i + 2 <= |b|
  {
    (b[i] as int) + (b[i + 1] as int) * 0x100
  }

  /** ntohs on a little-endian host: the two bytes change places. */
  function Swap16(x: u16): u16 { (x % 0x100) * 0x100 + x / 0x100 }

  /** Swapping twice gives the value back: ntohs and htons are one and the
      same operation on a little-endian host. */
  lemma Swap16Twice(x: u16)
    ensures Swap16(Swap16(x)) == x
  {
    var lo, hi := x % 0x100, x / 0x100;
    var y := lo * 0x100 + hi;
    assert y % 0x100 == hi && y / 0x100 == lo;
  }

  /** The imsg_t whose memory holds the 8 bytes `b`. */
  function HostIMsg(b: seq<byte>): IMsg
    requires |b| >= IMSG_SIZE
  {
    IMsg(b[0], b[1], b[2], b[3], LE16(b, 4), LE16(b, 6))
  }

  /** The 8 bytes of memory of an imsg_t. */
  function HostBytes(m: IMsg): (b: seq<byte>)
    ensures |b| == IMSG_SIZE
  {
    [m.vers, m.typ, m.depth, m.format, m.width % 0x100, m.width / 0x100,
     m.height % 0x100, m.height / 0x100]
  }

  /** What recv leaves in imsg when a datagram of fewer than 8 bytes arrives:
      its bytes over the first bytes of the old contents. */
  function Overlay(m: IMsg, d: seq<byte>): IMsg
    requires |d| < IMSG_SIZE
  {
    HostIMsg(d + HostBytes(m)[|d|..])
  }

  /** Converting a received field with ntohs gives its big-endian value. */
  lemma Swap16OfLE(b: seq<byte>, i: nat)
    requires i + 2 <= |b|
    ensures Swap16(LE16(b, i)) == Get16(b, i)
  {
    var x := LE16(b, i);
    assert x % 0x100 == b[i] && x / 0x100 == b[i + 1];
  }

  /** The fields recvimsg fills on FOUND are exactly the decoded reply. */
  lemma FoundIsDecoded(b: seq<byte>)
    requires |b| >= IMSG_SIZE
    ensures var m := HostIMsg(b);
      m.(width := Swap16(m.width), height := Swap16(m.height)) == DecodeIMsg(b)
  {
    Swap16OfLE(b, 4);
    Swap16OfLE(b, 6);
  }

  /** The overlay of fewer than 8 bytes keeps the bytes it does not cover. */
  lemma OverlayKeepsRest(m: IMsg, d: seq<byte>)
    requires |d| < IMSG_SIZE
    ensures HostBytes(Overlay(m, d)) == d + HostBytes(m)[|d|..]
  {
    var b := d + HostBytes(m)[|d|..];
    assert LE16(b, 4) % 0x100 == b[4] && LE16(b, 4) / 0x100 == b[5];
    assert LE16(b, 6) % 0x100 == b[6] && LE16(b, 6) / 0x100 == b[7];
  }

  // ---------------------------------------------------------------------------
  // The receiver's buffer write

  /** The image buffer with `data` written from offset `off`. */
  function Patch(s: seq<byte>, off: nat, data: seq<byte>): (r: seq<byte>)
    requires off + |data| <= |s|
    ensures |r| == |s|
    ensures forall j :: 0 <= j < |s| ==> r[j] == if off <= j < off + |data| then data[j - off] else s[j]
  {
    s[..off] + data + s[off + |data|..]
  }

  /** The bytes recvmsg places into the image: the payload up to the header's
      size (a longer payload is cut by the iovec, a shorter one is all there is). */
  function Written(p: Packet): seq<byte>
  {
    p.payload[..Min(p.hdr.size, |p.payload|)]
  }

  /** The receiver's expected offset after a DATA header: advanced by its size
      (in unsigned arithmetic) when it starts there, unchanged otherwise. */
  function NextExpected(next: u32, h: IHdr): u32
  {
    if h.seqn == next then U32(next + h.size) else next
  }

  /** The expected offset never decreases while it stays a byte offset of the
      image. */
  lemma ExpectedNeverDecreases(next: u32, h: IHdr)
    requires next + h.size <= MAXSEQ
    ensures next <= NextExpected(next, h) <= next + h.size
  {
  }

  /** The seqn of an ACK the receiver sends; Unset where the C code sends the
      uninitialised field of its ACK header. */
  datatype AckSeqn = Known(seqn: u32) | Unset

  /** The ACK recvimg prepares for a consumed datagram: the new expected
      offset after an in-order DATA segment, NETIMG_FINSEQ after any type other
      than DATA (FEC included, since the test is ==). */
  function AckFor(next: u32, h: IHdr): AckSeqn
  {
    if h.typ != DATA then Known(FINSEQ)
    else if h.seqn == next then Known(U32(next + h.size))
    else Unset
  }

  /** The ACK header sent back for `a`, when it is Known. */
  function AckHdr(seqn: u32): IHdr { IHdr(VERS, ACK, IHDR_SIZE, seqn) }

  // ---------------------------------------------------------------------------
  // The client object

  class NetImg {
    var mss: u16
    var rwnd: byte
    var fwnd: byte
    /** next_seqn, the next expected byte offset (the code's expected_seq_num) */
    var nextSeqn: u32
    var windowStart: u32
    var packetsCount: int
    var goBackNMode: bool
    var imsg: IMsg
    /** the file's global img_size, which recvimsg sets */
    var imgSize: int

    /** The state the inline constructor leaves; the other fields are not
        initialised in C. */
    predicate Initial()
      reads this
    {
      nextSeqn == 0 && windowStart == 0 && packetsCount == 0 && !goBackNMode
    }

    constructor ()
      ensures Initial()
    {
      mss, rwnd, fwnd := 0, 0, 0;
      nextSeqn, windowStart, packetsCount, goBackNMode := 0, 0, 0, false;
      imsg := IMsg(0, 0, 0, 0, 0, 0);
      imgSize := 0;
    }

    /** rcvbuf: the socket receive buffer of rwnd segments of mss bytes; it
        always fits an int. */
    function RcvBuf(): (n: int)
      reads this
      ensures 0 <= n < 0x8000_0000
      ensures n >= rwnd * (Datasize(mss) + IHDR_SIZE)
      ensures rwnd >= 1 ==> n >= mss
    {
      MulBelow(rwnd, 255, mss);
      rwnd * mss
    }

    /** args: with fewer than 5 arguments it fails at once; otherwise the
        defaults rwnd = NETIMG_RCVWIN and mss = NETIMG_MSS are set and the
        options are taken in order, each one that succeeds updating mss, rwnd
        or the caller's sname, port and imgname. The first that fails ends
        args with the fields as far as they got; when all succeed fwnd is
        derived from rwnd. */
    method Args(argc: nat, opts: seq<Opt>)
      returns (err: Option<ArgsError>, sname: Option<seq<byte>>, port: Option<u16>,
               imgname: Option<seq<byte>>)
      requires WellFormedOpts(opts)
      modifies this
      ensures argc < 5 ==> err == Some(Usage) && mss == old(mss) && rwnd == old(rwnd)
      ensures argc >= 5 ==>
                var p := ParseOpts(Defaults(), opts, 0);
                && err == p.err && mss == p.st.mss && rwnd == p.st.rwnd
                && sname == p.st.sname && port == p.st.port && imgname == p.st.imgname
      ensures err == None ==> fwnd == DeriveFwnd(rwnd)
      ensures err != None ==> fwnd == old(fwnd)
      ensures nextSeqn == old(nextSeqn) && windowStart == old(windowStart)
      ensures packetsCount == old(packetsCount) && goBackNMode == old(goBackNMode)
      ensures imsg == old(imsg) && imgSize == old(imgSize)
    {
      sname, port, imgname := None, None, None;
      if argc < 5 {
        err := Some(Usage);
        return;
      }
      rwnd := RCVWIN;
      mss := MSS;
      var i := 0;
      while i < |opts|
        invariant 0 <= i <= |opts|
        invariant ParseOpts(Settings(mss, rwnd, sname, port, imgname), opts, i)
                  == ParseOpts(Defaults(), opts, 0)
        invariant fwnd == old(fwnd)
        invariant nextSeqn == old(nextSeqn) && windowStart == old(windowStart)
        invariant packetsCount == old(packetsCount) && goBackNMode == old(goBackNMode)
        invariant imsg == old(imsg) && imgSize == old(imgSize)
        decreases |opts| - i
      {
        var o := opts[i];
        if o.flag == 0x73 {
          var j := SplitHostPort(o.arg);
          if j.None? {
            err := Some(AddrMalformed);
            return;
          }
          if j.value + 1 > MAXFNAME {
            err := Some(HostTooLong);
            return;
          }
          sname := Some(o.arg[..j.value]);
          port := Some(U16(Atoi(o.arg[j.value + 1..])));
        } else if o.flag == 0x71 {
          if |o.arg| >= MAXFNAME {
            err := Some(ImgNameTooLong);
            return;
          }
          imgname := Some(o.arg);
        } else if o.flag == 0x6d {
          var a := Atoi(o.arg);
          if a < MINSS || a > 0xffff {
            assert MssArg(a) == None;
            err := Some(Usage);
            return;
          }
          assert MssArg(a) == Some(a);
          mss := a;
        } else if o.flag == 0x77 {
          var a := Atoi(o.arg);
          if a < 1 || a > MAXWIN {
            assert RwndArg(a) == None;
            err := Some(Usage);
            return;
          }
          assert RwndArg(a) == Some(a);
          rwnd := a;
        } else if o.flag != 0x64 {
          err := Some(Usage);
          return;
        }
        i := i + 1;
      }
      fwnd := if FECWIN >= rwnd then U8(rwnd - 1) else FECWIN;
      err := None;
    }

    /** sendqry: the query carries version NETIMG_VERS, type NETIMG_SYNQRY,
        the client's mss (big-endian), rwnd, fwnd and the image name. It
        returns 1 when send took all of it, else 0. The bytes of iq_name after
        the name's NUL are uninitialised in C and zero here. */
    method SendQry(imgname: seq<byte>, sentBytes: int) returns (rc: int, q: IQry, wire: seq<byte>)
      requires |imgname| < MAXFNAME
      ensures q == Query(mss, rwnd, fwnd, imgname)
      ensures |wire| == IQRY_SIZE && wire == EncodeQry(q)
      ensures rc == 1 <==> sentBytes == IQRY_SIZE
      ensures rc == 0 <==> sentBytes != IQRY_SIZE
    {
      q := IQry(VERS, SYNQRY, mss, rwnd, fwnd, imgname);
      wire := EncodeQry(q);
      if sentBytes != IQRY_SIZE {
        rc := 0;
      } else {
        rc := 1;
      }
    }

    /** recvimsg on datagram `d` (None when recv fails). recv copies at most 8
        bytes into imsg: fewer is ESIZE, with imsg partly overwritten. Then a
        wrong version is EVERS. On FOUND width and height are converted to host
        order, img_size is set to height*width*depth, an ACK of seqn
        NETIMG_SYNSEQ is sent and the expected offset is reset to 0. The reply
        type is returned; other types leave the fields in network order. */
    method RecvImsg(d: Option<seq<byte>>) returns (rc: byte, ack: Option<IHdr>)
      modifies this
      ensures d.None? ==> rc == ESIZE && ack == None && imsg == old(imsg)
      ensures d.Some? && |d.value| < IMSG_SIZE ==>
                rc == ESIZE && ack == None && imsg == Overlay(old(imsg), d.value)
      ensures d.Some? && |d.value| >= IMSG_SIZE && d.value[0] != VERS ==>
                rc == EVERS && ack == None && imsg == HostIMsg(d.value)
      ensures d.Some? && |d.value| >= IMSG_SIZE && d.value[0] == VERS && d.value[1] == FOUND ==>
                && rc == FOUND && imsg == DecodeIMsg(d.value)
                && imgSize == imsg.height * imsg.width * imsg.depth
                && nextSeqn == 0 && ack == Some(AckHdr(SYNSEQ))
      ensures d.Some? && |d.value| >= IMSG_SIZE && d.value[0] == VERS && d.value[1] != FOUND ==>
                rc == d.value[1] && ack == None && imsg == HostIMsg(d.value)
      ensures !(d.Some? && |d.value| >= IMSG_SIZE && d.value[0] == VERS && d.value[1] == FOUND) ==>
                nextSeqn == old(nextSeqn) && imgSize == old(imgSize)
      ensures mss == old(mss) && rwnd == old(rwnd) && fwnd == old(fwnd)
      ensures windowStart == old(windowStart) && packetsCount == old(packetsCount)
      ensures goBackNMode == old(goBackNMode)
    {
      ack := None;
      if d.None? {
        return ESIZE, None;
      }
      var b := d.value;
      if |b| < IMSG_SIZE {
        imsg := Overlay(imsg, b);
        return ESIZE, None;
      }
      imsg := HostIMsg(b);
      if imsg.vers != VERS {
        return EVERS, None;
      }
      if imsg.typ == FOUND {
        imsg := imsg.(height := Swap16(imsg.height), width := Swap16(imsg.width));
        FoundIsDecoded(b);
        imgSize := imsg.height * imsg.width * imsg.depth;
        ack := Some(AckHdr(SYNSEQ));
        nextSeqn := 0;
      }
      rc := imsg.typ;
    }

    /** recvimg on the datagram at the head of the socket's queue (None when
        there is none). It returns whether the datagram left the queue and the
        ACK sent, if any. A missing datagram, or one of the wrong version, is
        left where it is and nothing changes. A DATA segment is written into
        the image at its seqn, advances the expected offset when it is the
        one expected, and is acknowledged; another type is taken off the queue
        and answered with NETIMG_FINSEQ. `dropAck` is the random choice to
        drop the ACK. */
    method RecvImg(image: array<byte>, d: Option<Packet>, dropAck: bool)
      returns (consumed: bool, ack: Option<AckSeqn>)
      requires d.Some? && d.value.hdr.vers == VERS && d.value.hdr.typ == DATA ==>
                 d.value.hdr.seqn + |Written(d.value)| <= image.Length
      modifies this, image
      ensures d.None? || d.value.hdr.vers != VERS ==>
                !consumed && ack == None && image[..] == old(image[..]) && nextSeqn == old(nextSeqn)
      ensures d.Some? && d.value.hdr.vers == VERS ==>
                && consumed
                && ack == (if dropAck then None else Some(AckFor(old(nextSeqn), d.value.hdr)))
      ensures d.Some? && d.value.hdr.vers == VERS && d.value.hdr.typ == DATA ==>
                && image[..] == Patch(old(image[..]), d.value.hdr.seqn, Written(d.value))
                && nextSeqn == NextExpected(old(nextSeqn), d.value.hdr)
      ensures d.Some? && d.value.hdr.vers == VERS && d.value.hdr.typ != DATA ==>
                image[..] == old(image[..]) && nextSeqn == old(nextSeqn)
      ensures mss == old(mss) && rwnd == old(rwnd) && fwnd == old(fwnd)
      ensures windowStart == old(windowStart) && packetsCount == old(packetsCount)
      ensures goBackNMode == old(goBackNMode) && imsg == old(imsg) && imgSize == old(imgSize)
    {
      if d.None? || d.value.hdr.vers != VERS {
        return false, None;
      }
      var p := d.value;
      var a: AckSeqn;
      if p.hdr.typ == DATA {
        WriteAt(image, p.hdr.seqn, Written(p));
        if nextSeqn == p.hdr.seqn {
          nextSeqn := U32(nextSeqn + p.hdr.size);
          a := Known(nextSeqn);
        } else {
          a := Unset;
        }
      } else {
        a := Known(FINSEQ);
      }
      consumed := true;
      ack := if dropAck then None else Some(a);
    }
  }

  /** recvmsg's second iovec: `data` lands in `image` from offset `off`. */
  method WriteAt(image: array<byte>, off: nat, data: seq<byte>)
    requires off + |data| <= image.Length
    modifies image
    ensures image[..] == Patch(old(image[..]), off, data)
  {
    for k := 0 to |data|
      invariant forall j :: 0 <= j < image.Length ==>
                  image[j] == if off <= j < off + k then data[j - off] else old(image[j])
    {
      image[off + k] := data[k];
    }
  }
}
