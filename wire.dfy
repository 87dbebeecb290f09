/** The constants, packet layouts and big-endian wire codec of netimg.h.
    Every multi-byte field travels in network byte order; the codec below is
    the combined effect of the htons/htonl (ntohs/ntohl) calls the code makes
    at each call site together with the struct's memory layout. */
module Wire {

  type byte = x: int | 0 <= x < 0x100
  type u16 = x: int | 0 <= x < 0x1_0000
  type u32 = x: int | 0 <= x < 0x1_0000_0000

  /** A C string is its bytes, without the terminating NUL. */
  type cstr = seq<byte>

  datatype Option<T> = None | Some(value: T)

  // imsg_t::im_format values
  const RGBA: byte := 0x4
  const RGB: byte := 0x3
  const GSA: byte := 0x2
  const GS: byte := 0x1

  const MAXFNAME := 256        // size of iqry_t::iq_name, including the NUL
  const PORTSEP: byte := 0x3a  // ':'

  const MAXTRIES := 3
  const MAXWIN := 255
  const MINWIN := 4
  const RCVWIN := 12
  const FECWIN := 11
  const UDPIP := 28            // 20 bytes IP and 8 bytes UDP header
  const MSS := 10276
  const MINSS := 40

  const VERS: byte := 0x11

  // types sent by the client
  const SYNQRY: byte := 0x10
  const ACK: byte := 0x11

  // types sent by the server in imsg_t
  const FOUND: byte := 0x02
  const NFOUND: byte := 0x04
  const ERROR: byte := 0x08
  const ESIZE: byte := 0x09
  const EVERS: byte := 0x0a
  const ETYPE: byte := 0x0b
  const ENAME: byte := 0x0c
  const EBUSY: byte := 0x0d

  // segment types of ihdr_t
  const DATA: byte := 0x20
  const FEC: byte := 0x60
  const FIN: byte := 0xa0

  // reserved sequence numbers
  const MAXSEQ: u32 := 2147483647   // 2^31 - 1
  const SYNSEQ: u32 := 4294967295   // 2^32 - 1
  const FINSEQ: u32 := 4294967294   // 2^32 - 2

  // sizeof of the three packet structs
  const IHDR_SIZE := 8
  const IMSG_SIZE := 8
  const IQRY_SIZE := 6 + MAXFNAME

  /** ihdr_t: a segment header (DATA, FEC, ACK or FIN). */
  datatype IHdr = IHdr(vers: byte, typ: byte, size: u16, seqn: u32)

  /** imsg_t: the server's reply to a query. */
  datatype IMsg = IMsg(vers: byte, typ: byte, depth: byte, format: byte, width: u16, height: u16)

  /** iqry_t: the client's query; `name` is iq_name up to its first NUL. */
  datatype IQry = IQry(vers: byte, typ: byte, mss: u16, rwnd: byte, fwnd: byte, name: cstr)

  /** A segment datagram: an ihdr_t followed by the bytes the datagram carries after it. */
  datatype Packet = Packet(hdr: IHdr, payload: seq<byte>)

  // ---------------------------------------------------------------------------
  // Big-endian integers

  function BE16(x: u16): (b: seq<byte>)
  {
    [x / 0x100, x % 0x100]
  }

  function Get16(b: seq<byte>, i: nat): u16
    requires i + 2 <= |b|
  {
    (b[i] as int) * 0x100 + (b[i + 1] as int)
  }

  function BE32(x: u32): (b: seq<byte>)
  {
    BE16(x / 0x1_0000) + BE16(x % 0x1_0000)
  }

  function Get32(b: seq<byte>, i: nat): u32
    requires i + 4 <= |b|
  {
    Get16(b, i) * 0x1_0000 + Get16(b, i + 2)
  }

  lemma BE16RoundTrip(x: u16, pre: seq<byte>, post: seq<byte>)
    ensures Get16(pre + BE16(x) + post, |pre|) == x
  {
    var b := pre + BE16(x) + post;
    assert b[|pre|] == x / 0x100 && b[|pre| + 1] == x % 0x100;
  }

  lemma BE32RoundTrip(x: u32, pre: seq<byte>, post: seq<byte>)
    ensures Get32(pre + BE32(x) + post, |pre|) == x
  {
    var b := pre + BE32(x) + post;
    assert b == pre + BE16(x / 0x1_0000) + (BE16(x % 0x1_0000) + post);
    BE16RoundTrip(x / 0x1_0000, pre, BE16(x % 0x1_0000) + post);
    assert b == (pre + BE16(x / 0x1_0000)) + BE16(x % 0x1_0000) + post;
    BE16RoundTrip(x % 0x1_0000, pre + BE16(x / 0x1_0000), post);
  }

  lemma Get16Bytes(b: seq<byte>, i: nat)
    requires i + 2 <= |b|
    ensures BE16(Get16(b, i)) == b[i..i + 2]
  {
    var x := Get16(b, i);
    assert x / 0x100 == b[i] && x % 0x100 == b[i + 1];
  }

  lemma Get32Bytes(b: seq<byte>, i: nat)
    requires i + 4 <= |b|
    ensures BE32(Get32(b, i)) == b[i..i + 4]
  {
    var x := Get32(b, i);
    assert x / 0x1_0000 == Get16(b, i) && x % 0x1_0000 == Get16(b, i + 2);
    Get16Bytes(b, i);
    Get16Bytes(b, i + 2);
    assert b[i..i + 4] == b[i..i + 2] + b[i + 2..i + 4];
  }

  // ---------------------------------------------------------------------------
  // ihdr_t

  function EncodeHdr(h: IHdr): (b: seq<byte>)
    ensures |b| == IHDR_SIZE
  {
    [h.vers, h.typ] + BE16(h.size) + BE32(h.seqn)
  }

  function DecodeHdr(b: seq<byte>): IHdr
    requires |b| >= IHDR_SIZE
  {
    IHdr(b[0], b[1], Get16(b, 2), Get32(b, 4))
  }

  /** Decoding an encoded header, with anything after it, gives back its fields. */
  lemma HdrRoundTrip(h: IHdr, rest: seq<byte>)
    ensures DecodeHdr(EncodeHdr(h) + rest) == h
  {
    var b := EncodeHdr(h) + rest;
    BE16RoundTrip(h.size, [h.vers, h.typ], BE32(h.seqn) + rest);
    assert b == [h.vers, h.typ] + BE16(h.size) + (BE32(h.seqn) + rest);
    BE32RoundTrip(h.seqn, [h.vers, h.typ] + BE16(h.size), rest);
  }

  /** Every eight bytes are the encoding of the header they decode to. */
  lemma HdrBytesRoundTrip(b: seq<byte>)
    requires |b| == IHDR_SIZE
    ensures EncodeHdr(DecodeHdr(b)) == b
  {
    Get16Bytes(b, 2);
    Get32Bytes(b, 4);
    assert b == [b[0], b[1]] + b[2..4] + b[4..8];
  }

  function EncodePacket(p: Packet): (b: seq<byte>)
    ensures |b| == IHDR_SIZE + |p.payload|
  {
    EncodeHdr(p.hdr) + p.payload
  }

  function DecodePacket(b: seq<byte>): Packet
    requires |b| >= IHDR_SIZE
  {
    Packet(DecodeHdr(b), b[IHDR_SIZE..])
  }

  /** A datagram of at least a header's length is a header and a payload, and
      the two directions of the codec are inverse. */
  lemma PacketRoundTrip(p: Packet, b: seq<byte>)
    requires |b| >= IHDR_SIZE
    ensures DecodePacket(EncodePacket(p)) == p
    ensures EncodePacket(DecodePacket(b)) == b
  {
    HdrRoundTrip(p.hdr, p.payload);
    assert EncodePacket(p)[IHDR_SIZE..] == p.payload;
    HdrBytesRoundTrip(b[..IHDR_SIZE]);
    assert DecodeHdr(b) == DecodeHdr(b[..IHDR_SIZE]);
    assert b == b[..IHDR_SIZE] + b[IHDR_SIZE..];
  }

  // ---------------------------------------------------------------------------
  // imsg_t

  function EncodeIMsg(m: IMsg): (b: seq<byte>)
    ensures |b| == IMSG_SIZE
  {
    [m.vers, m.typ, m.depth, m.format] + BE16(m.width) + BE16(m.height)
  }

  function DecodeIMsg(b: seq<byte>): IMsg
    requires |b| >= IMSG_SIZE
  {
    IMsg(b[0], b[1], b[2], b[3], Get16(b, 4), Get16(b, 6))
  }

  lemma IMsgRoundTrip(m: IMsg)
    ensures DecodeIMsg(EncodeIMsg(m)) == m
  {
    BE16RoundTrip(m.width, [m.vers, m.typ, m.depth, m.format], BE16(m.height));
    BE16RoundTrip(m.height, [m.vers, m.typ, m.depth, m.format] + BE16(m.width), []);
    assert EncodeIMsg(m) == [m.vers, m.typ, m.depth, m.format] + BE16(m.width) + BE16(m.height) + [];
  }

  // ---------------------------------------------------------------------------
  // iqry_t

  /** strlen over a fixed-size character array: the index of the first NUL, or
      the array's length when there is none. */
  function CStrLen(s: seq<byte>): (n: nat)
    ensures n <= |s|
    ensures forall i :: 0 <= i < n ==> s[i] != 0
    ensures n < |s| ==> s[n] == 0
  {
    if s == [] || s[0] == 0 then 0 else 1 + CStrLen(s[1..])
  }

  /** n zero bytes, the padding strcpy leaves after a name in iq_name. */
  function Zeros(n: nat): seq<byte>
  {
    seq(n, _ => 0)
  }

  /** A name fits iq_name (as the text before a NUL or filling the field) and holds no NUL. */
  predicate NameFits(name: cstr)
  {
    |name| <= MAXFNAME && forall i :: 0 <= i < |name| ==> name[i] != 0
  }

  function EncodeQry(q: IQry): (b: seq<byte>)
    requires |q.name| <= MAXFNAME
    ensures |b| == IQRY_SIZE
  {
    [q.vers, q.typ] + BE16(q.mss) + [q.rwnd, q.fwnd] + q.name + Zeros(MAXFNAME - |q.name|)
  }

  /** The bytes of iq_name. */
  function NameField(b: seq<byte>): (f: seq<byte>)
    requires |b| >= IQRY_SIZE
    ensures |f| == MAXFNAME
  {
    b[6..IQRY_SIZE]
  }

  function DecodeQry(b: seq<byte>): IQry
    requires |b| >= IQRY_SIZE
  {
    var f := NameField(b);
    IQry(b[0], b[1], Get16(b, 2), b[4], b[5], f[..CStrLen(f)])
  }

  lemma CStrLenOfPadded(name: cstr, pad: nat)
    requires forall i :: 0 <= i < |name| ==> name[i] != 0
    ensures CStrLen(name + Zeros(pad)) == |name|
  {
    var s := name + Zeros(pad);
    assert forall i :: 0 <= i < |name| ==> s[i] == name[i] && s[i] != 0;
    assert pad > 0 ==> s[|name|] == 0;
  }

  /** Decoding an encoded query (whose name fits and holds no NUL) gives back its fields. */
  lemma QryRoundTrip(q: IQry)
    requires NameFits(q.name)
    ensures DecodeQry(EncodeQry(q)) == q
  {
    var b := EncodeQry(q);
    BE16RoundTrip(q.mss, [q.vers, q.typ], [q.rwnd, q.fwnd] + q.name + Zeros(MAXFNAME - |q.name|));
    assert b == [q.vers, q.typ] + BE16(q.mss) + ([q.rwnd, q.fwnd] + q.name + Zeros(MAXFNAME - |q.name|));
    assert NameField(b) == q.name + Zeros(MAXFNAME - |q.name|);
    CStrLenOfPadded(q.name, MAXFNAME - |q.name|);
    assert NameField(b)[..|q.name|] == q.name;
  }

  // ---------------------------------------------------------------------------
  // Facts about the constants

  predicate Distinct(s: seq<int>)
  {
    forall i, j :: 0 <= i < j < |s| ==> s[i] != s[j]
  }

  /** The reserved sequence numbers differ from each other and lie above every
      byte offset a segment can carry (at most MAXSEQ). */
  lemma ReservedSeqnsAboveData()
    ensures SYNSEQ != FINSEQ
    ensures MAXSEQ < FINSEQ && MAXSEQ < SYNSEQ
  {
  }

  /** DATA, FEC and FIN all carry the DATA bit, so `typ & DATA` accepts each, and
      the client's two types do not. */
  lemma DataBitMarksSegments()
    ensures (DATA as bv8) & (DATA as bv8) != 0
    ensures (FEC as bv8) & (DATA as bv8) != 0
    ensures (FIN as bv8) & (DATA as bv8) != 0
    ensures (SYNQRY as bv8) & (DATA as bv8) == 0 && (ACK as bv8) & (DATA as bv8) == 0
    ensures Distinct([DATA, FEC, FIN])
  {
  }

  /** The server's reply codes are distinct and none is 0, the value recvqry
      uses for "accepted". */
  lemma ReplyCodesDistinct()
    ensures Distinct([FOUND, NFOUND, ERROR, ESIZE, EVERS, ETYPE, ENAME, EBUSY])
    ensures forall c :: c in [FOUND, NFOUND, ERROR, ESIZE, EVERS, ETYPE, ENAME, EBUSY] ==> c != 0
  {
  }

  /** NETIMG_MINSS is the 8-byte ihdr_t, the 28 bytes of UDP/IP and 4 bytes of
      data, so any mss of at least MINSS leaves at least 4 data bytes. */
  lemma MinSegmentHoldsData(mss: int)
    requires mss >= MINSS
    ensures MINSS == IHDR_SIZE + UDPIP + 4
    ensures mss - IHDR_SIZE - UDPIP >= 4
  {
  }
}
