# netimg / imgdb: a verified model of the image transfer

The system is a client (`netimg`) and a server (`imgdb`) that move one
TGA image over UDP. The client sends a query (`iqry_t`) with its maximum
segment size, its receive window and an image name. The server checks the
query, looks the image up and answers with the image's metadata
(`imsg_t`). It waits for that answer to be acknowledged with the reserved
seqn SYNSEQ, then sends the pixel bytes in DATA segments (`ihdr_t` plus a
slice of the image). The sending side is a sliding window with Go-Back-N
and cumulative ACKs. At the end the server sends a FIN, and the client
acknowledges it with the reserved seqn FINSEQ.

The model is in five modules. Each `.dfy` file holds one of them.

- `wire.dfy` (`Wire`) holds the constants and the three packet layouts of
  `netimg.h`. It has big-endian encoders and decoders and proves each one
  inverts the other. It also proves the facts about the constants: the
  reserved seqns, the DATA bit and the reply codes.
- `window.dfy` (`Window`) states the sender's window as functions:
  - `Burst` gives the segments one round of the send loop walks through
    (one `Attempt` each, dropped or not);
  - `Transmitted` and `SentIn` give the datagrams that reach the wire;
  - `AckMax` and `AckPhaseMax` give the cumulative ACK;
  - `AckRun` gives where every round of the do-while starts.

  The lemmas are the window properties sendimg promises.
- `server.dfy` (`Server`) models `imgdb.cpp`:
  - pure functions for `recvqry`, `readimg` and `marshall_imsg`;
  - methods with loops for `sendpkt`, the ACK drain, the send loop and the
    do-while of `sendimg`;
  - a class `ImgDb` whose fields `mss`, `rwnd` and `fwnd` are what
    `handleqry` adopts from a query.
- `client.dfy` (`Client`) models `netimg.cpp` and the `netimg` class of
  `netimg.h`:
  - `args`, as a getopt loop over options, with the backward scan for the
    host:port separator;
  - the fwnd derivation and `sendqry`;
  - `recvimsg`, with the imsg_t's memory on a little-endian host;
  - `recvimg`, which writes each DATA payload into an `array<byte>` image
    buffer in place and advances the next expected offset.
- `session.dfy` (`Session`) connects the two ends:
  - the query the client builds passes the server's validation;
  - the size the client computes from the metadata is the size the
    server sends;
  - the ACKs of the SYN and FIN exchanges are the ones awaited;
  - any segment the sender puts on the wire keeps the receiver's buffer
    correct up to its expected offset, whatever is dropped, repeated or
    reordered.

The network is an input. The environment is:
- a drop oracle `drop(round, attempt)` for the sender's random drops;
- for each round, the ACK phase: the batches of datagrams drained at each
  readiness wake-up before the retransmission timer fires;
- for `sendpkt`, the wake-ups of its `select` calls;
- for the client, the datagram at the head of the socket queue and a
  `dropAck` flag for its random ACK drop.

`sendimg`'s do-while is followed for as many rounds as there are ACK
phases. The transfer's `completed` flag says whether it exited with
snd_una at imgsize, and only then is the FIN exchange modelled.

Two consequences of the code as written are stated as lemmas and not as
findings:
- `RoundSendsIff`: with `-w 1` (accepted by args) the send loop's strict
  `useable_window > datasize` never holds, so the server never sends a
  byte. Whether a window of one segment was meant to send is not evident.
- `Client.NetImg.RecvImg`: a datagram of the wrong version is only peeked,
  never taken off the queue, so every later call sees it again and returns.
  The comment at netimg.cpp:262-264 asks for the process to terminate
  instead. Ending the process is outside this model, so there is no
  corrected member, and the stall is stated as the code has it.

The comment at imgdb.cpp:208-211 promises that sendpkt retries when the
ACK's seqn does not match. The code returns -1 at once instead
(imgdb.cpp:253-254 and 262-263). Both sendpkt models follow the code:
Server.PktOutcome's contract says that a first readable wake-up ends the
exchange after one send, and Server.PktSucceedsIff says that it succeeds
only when that answer carries the awaited seqn.

`expected_seq_num` in `netimg.cpp` is not declared in the shown headers. It
is modelled as the `next_seqn` field of the `netimg` class (unsigned),
`Client.NetImg.nextSeqn`.

## Model

| member | source | states |
|---|---|---|
| Wire.HdrRoundTrip | netimg.h:110-118 | decoding an encoded ihdr_t (u8 vers, u8 type, big-endian u16 size, big-endian u32 seqn), with anything after it, gives back the same header |
| Wire.HdrBytesRoundTrip | netimg.h:110-118 | encoding the header decoded from 8 bytes gives back those bytes |
| Wire.PacketRoundTrip | imgdb.cpp:343-354 | a datagram of header and payload splits back into the same header and payload |
| Wire.IMsgRoundTrip | netimg.h:100-108 | decoding an encoded imsg_t (big-endian width and height) gives back its fields |
| Wire.QryRoundTrip | netimg.h:90-98 | decoding an encoded iqry_t whose name fits and has no NUL gives back vers, type, mss, rwnd, fwnd and name |
| Wire.CStrLenOfPadded | netimg.h:97 | strlen of a NUL-free name padded with zeros is the name's length |
| Wire.ReservedSeqnsAboveData | netimg.h:86-88 | SYNSEQ and FINSEQ differ and both exceed MAXSEQ, so neither is a data byte offset |
| Wire.DataBitMarksSegments | netimg.h:81-83 | DATA, FEC and FIN all have the 0x20 bit and are distinct; SYNQRY and ACK do not have it |
| Wire.ReplyCodesDistinct | netimg.h:72-79 | FOUND, NFOUND and the error codes are pairwise distinct and never 0 |
| Wire.MinSegmentHoldsData | netimg.h:49-53 | MINSS = 8 + 28 + 4, so an mss of at least MINSS leaves at least 4 data bytes |
| Wire.EncodeHdr | imgdb.cpp:404-407 | an ihdr_t goes on the wire as 8 bytes: vers, type, big-endian size (htons), big-endian seqn (htonl); DecodeHdr inverts it (HdrRoundTrip, HdrBytesRoundTrip) |
| Wire.DecodeHdr | netimg.cpp:269-302 | no contract of its own: the header read from 8 bytes with ntohs and ntohl; HdrRoundTrip and HdrBytesRoundTrip prove it the inverse of EncodeHdr |
| Wire.EncodePacket | imgdb.cpp:404-409 | a DATA datagram is the 8-byte header followed by its payload; PacketRoundTrip proves DecodePacket its inverse |
| Wire.DecodePacket | netimg.cpp:285-328 | no contract of its own: the iovec split of a datagram into header and payload; PacketRoundTrip proves it the inverse of EncodePacket both ways |
| Wire.EncodeIMsg | imgdb.cpp:290-294 | an imsg_t goes on the wire as 8 bytes with width and height in network order; IMsgRoundTrip proves DecodeIMsg its inverse |
| Wire.DecodeIMsg | netimg.cpp:186-196 | no contract of its own: the imsg_t with width and height read big-endian; IMsgRoundTrip and Client.FoundIsDecoded characterise it |
| Wire.EncodeQry | netimg.cpp:154-160 | an iqry_t is IQRY_SIZE (262) bytes with big-endian mss and the name zero-padded to NETIMG_MAXFNAME; QryRoundTrip proves DecodeQry its inverse |
| Wire.DecodeQry | imgdb.cpp:179-192 | no contract of its own: the query the server reads, with the name up to its first NUL; QryRoundTrip proves it the inverse of EncodeQry |
| Wire.CStrLen | imgdb.cpp:190 | strlen over iq_name: at most the field's length, no NUL before it, and a NUL at it when it is inside the field |
| Window.BurstContiguous | imgdb.cpp:381-425 | the round's segments start at snd_next and follow each other without gap, dropped or not; snd_next ends inside the image; the loop stops only when the image is exhausted or at most one datasize of window is left |
| Window.BurstSegment | imgdb.cpp:386-424 | each segment has size min(datasize, imgsize - seqn), is never empty, never runs past imgsize, ends inside the window of rwnd*datasize bytes from snd_una, and is dropped exactly when the oracle says so |
| Window.Datasize | imgdb.cpp:319 | no contract of its own: mss minus the 8-byte ihdr_t and the 28 bytes of UDP/IP; NoRoomWithoutData and Wire.MinSegmentHoldsData say when it is positive |
| Window.RwndShort | imgdb.cpp:361 | no contract of its own: rwnd*datasize as an unsigned int; WindowFits proves it exact for a positive datasize |
| Window.Guard | imgdb.cpp:373-381 | no contract of its own: `useable_window > datasize` in unsigned arithmetic; GuardIsWindowRoom and NoRoomWithoutData characterise it |
| Window.Burst | imgdb.cpp:381-425 | no contract of its own: the attempts of the send loop; BurstContiguous and BurstSegment characterise them, and Server.SendWindow is proved equal to it |
| Window.RoundAttempts | imgdb.cpp:373-425 | no contract of its own: one round's attempts from snd_una == snd_next; RoundSendsIff, RoundSegmentsWithin and RoundInWindow characterise them |
| Window.RoundInWindow | imgdb.cpp:373-424 | every datagram of a round starts at or after its snd_una and ends less than rwnd*datasize bytes past it |
| Window.Slice | imgdb.cpp:404-405 | no contract of its own: the image bytes the second iovec entry points at; SentAreSlices proves every datagram carries exactly image[seqn..seqn+size] |
| Window.SegmentOf | imgdb.cpp:404-409 | no contract of its own: the VERS/DATA datagram of an attempt; SentAreSlices characterises it |
| Window.Transmitted | imgdb.cpp:389-419 | no contract of its own: the datagrams of a round in order; TransmittedIsUndropped and TransmittedSnoc characterise them |
| Window.SentIn | imgdb.cpp:365-469 | no contract of its own: all datagrams of the rounds in order; SentAreSlices and Session.TransferSendsSegments characterise them |
| Window.AckStep | imgdb.cpp:455-461 | no contract of its own: one drained datagram; AckMax and AckMaxIsSomeAck characterise the fold of it |
| Window.NoRoomWithoutData | imgdb.cpp:319-381 | when datasize is not positive (mss below 37), the unsigned guard is false at once and nothing is sent |
| Window.WindowFits | imgdb.cpp:361 | for a positive datasize, rwnd*datasize (plus one datasize) fits an unsigned int, so rwnd_short is exact |
| Window.GuardIsWindowRoom | imgdb.cpp:373-381 | while snd_next - snd_una stays within the window, the unsigned guard holds exactly when more than one datasize of window is left |
| Window.TransmittedIsUndropped | imgdb.cpp:389-419 | exactly the attempts the oracle did not drop reach the wire, each as its DATA segment |
| Window.TransmittedSnoc | imgdb.cpp:389-424 | one more attempt adds its datagram to the wire unless it was dropped |
| Window.AckMax | imgdb.cpp:452-462 | draining a batch never lowers snd_una and leaves it at least every ACK seqn of the batch; other types are ignored |
| Window.AckPhaseMax | imgdb.cpp:442-466 | after an ACK phase snd_una has not decreased and covers every ACK seqn drained in it |
| Window.AckMaxIsSomeAck | imgdb.cpp:455-457 | after a batch snd_una is its old value or the seqn of one of the batch's ACKs |
| Window.AckPhaseMaxIsSomeAck | imgdb.cpp:442-466 | after a phase snd_una is its old value or the seqn of an ACK of the phase |
| Window.AckPhaseAtMost | imgdb.cpp:455-457 | when every ACK seqn is at most a bound, so is snd_una after the phase |
| Window.AckRun | imgdb.cpp:365-469 | every round of the do-while starts at an offset within the image, and there are no more rounds than ACK phases |
| Window.AckRunLength | imgdb.cpp:442-469 | the first round starts at snd_una; the loop exits exactly when the last ACK phase brings snd_una (= snd_next) to imgsize; otherwise it runs one round per phase |
| Window.AckRunLinks | imgdb.cpp:442-469 | each later round starts below imgsize, at the snd_una that the previous round's ACK phase left (Go-Back-N: snd_next = snd_una) |
| Window.AckRunLast | imgdb.cpp:442-469 | snd_una at the end is what the last round's ACK phase left |
| Window.AckRunMonotone | imgdb.cpp:455-463 | snd_una never decreases over the rounds |
| Window.RoundAt | imgdb.cpp:365-425 | no contract of its own: the round sent from one start; RoundsAt lists them |
| Window.RoundsAt | imgdb.cpp:365-469 | one round per start, in order, round k being the window sent from the k-th start |
| Window.SendRounds | imgdb.cpp:365-469 | no contract of its own: the rounds sendimg runs; Server.SendRoundsLoop is proved equal to it, and Session.TransferSendsSegments and Session.TransferStaysInWindow characterise its datagrams |
| Window.ProgressStep | imgdb.cpp:442-469 | one round and its ACK phase move the loop on to the next round, or end it exactly when snd_una reaches imgsize |
| Window.RoundSegmentsWithin | imgdb.cpp:386-388 | every segment of a round has between 1 and datasize bytes and ends inside the image |
| Window.SentAreSlices | imgdb.cpp:348-409 | every datagram sent is of version VERS and type DATA, has a size of 1 to datasize, and carries exactly image[seqn..seqn+size] |
| Window.RoundSendsIff | imgdb.cpp:361-388 | a round starting below imgsize sends an attempt exactly when datasize is positive and rwnd is at least 2; the first attempt is at snd_una |
| Server.RecvQry | imgdb.cpp:179-198 | ESIZE exactly for a datagram shorter than iqry_t; else EVERS for a wrong version; else ENAME for a SYNQRY whose name has no NUL in 256 bytes; else ETYPE for a type other than SYNQRY or ACK; else 0 (an ACK is accepted) |
| Server.AcceptedQueryNameFits | imgdb.cpp:189-192 | an accepted SYNQRY's name has no NUL and is shorter than NETIMG_MAXFNAME |
| Server.ReadImg | imgdb.cpp:103-125 | no contract of its own: ENAME, FOUND or NFOUND by the name and the store; Session.LookupOfQueriedName proves each exactly by the name the client queried |
| Server.Marshall | imgdb.cpp:138-150 | depth is pixel depth / 8; the format is GS or GSA exactly for image types 3 and 11, and has alpha exactly when the alpha depth is nonzero; width and height are the image's; version and type are kept; the size is width*height*depth |
| Server.MarshallSizeIsPixels | imgdb.cpp:150 | for a loaded image the announced size is the length of the pixel array |
| Server.WakeupAt | imgdb.cpp:239 | no contract of its own: what the select of try k sees (a timeout once the environment has none left); PktSucceedsIff characterises sendpkt over it |
| Server.AckSeqnOf | imgdb.cpp:249-266 | no contract of its own: the seqn of the one datagram read (all == 0) or of the last one drained (all == 1); PktSucceedsIff uses it |
| Server.PktOutcome | imgdb.cpp:234-271 | sendpkt returns 0 or -1, sends between 1 and MAXTRIES times, and sends only once when the first wait gets an answer |
| Server.PktSucceedsIff | imgdb.cpp:234-271 | sendpkt returns 0 exactly when, within MAXTRIES tries, the first try that is answered sees ackseqn (the one read, or the last one drained with all); it then sent once per try up to that one |
| Server.SendPkt | imgdb.cpp:221-272 | the retry loop with the corrected select re-arming (Findings row 2) returns PktOutcome's result, and the wire holds exactly PktOutcome's number of copies of the packet |
| Server.PktOutcomeAsWritten | imgdb.cpp:228-247 | the loop as written returns 0 or -1 |
| Server.AsWrittenRetriesAreBlind | imgdb.cpp:228-247 | as written, once a select has timed out every later try times out too, and sendpkt fails after MAXTRIES sends |
| Server.AsWrittenSucceedsOnlyFirstTry | imgdb.cpp:228-253 | as written, sendpkt can succeed only on its first try |
| Server.LateFinAckIsLost | imgdb.cpp:228-247 | a FIN ACK that arrives after the first timeout is lost as written (three sends, -1) and taken by the corrected loop (two sends, 0) |
| Server.SendImsg | imgdb.cpp:287-295 | every datagram sendimsg sends is 8 bytes that decode to the imsg with version VERS; it succeeds exactly when the corrected sendpkt (Findings row 2) gets the SYNSEQ ACK |
| Server.AckPhase | imgdb.cpp:442-466 | the nested drain loops leave snd_una at AckPhaseMax of the phase |
| Server.SendWindow | imgdb.cpp:373-425 | one window of the send loop makes exactly the round's attempts (Burst), puts exactly their undropped segments on the wire, and leaves snd_next after the last attempt |
| Server.SendRoundsLoop | imgdb.cpp:365-469 | the do-while runs exactly the rounds AckRun gives, each the window from its start, sends exactly their datagrams, and ends with snd_una and the exit flag of AckRun |
| Server.FinHdr | imgdb.cpp:475-479 | no contract of its own: the FIN header (VERS, FIN, size 0, FINSEQ); Server.ImgDb.SendImg sends its encoding and Session.HandshakesMatch shows the client answers it with FINSEQ |
| Server.ImgDb.SendImg | imgdb.cpp:307-487 | sendimg's rounds, datagrams, final snd_una and exit are those of the run; the FIN (VERS, FIN, size 0, FINSEQ) is sent with the corrected sendpkt (Findings row 2) in all mode only after the loop exits |
| Server.ImgDb.HandleQry | imgdb.cpp:493-525 | a rejected query answers with its error code and keeps mss, rwnd and fwnd; a query for a missing image answers NFOUND or ENAME; a found image's query sets mss, rwnd and fwnd from the query, answers with the marshalled metadata, and runs sendimg exactly when the corrected sendimsg (Findings row 2) succeeded; the imsg_t goes out once per try of that exchange; the transfer's rounds, datagrams, final snd_una, exit and FIN result are sendimg's, with one FIN header per try of the FIN exchange and no FIN when the transfer did not complete |
| Client.LastSep | netimg.cpp:84-89 | the backward scan stops at an index in 1..p, never at the first character (LastSepIsLastColon says which) |
| Client.LastSepIsLastColon | netimg.cpp:84-90 | the backward scan stops at the last ':' that is not the first character, and finds none exactly when there is no such ':' |
| Client.SplitHostPort | netimg.cpp:84-90 | the backward loop over the characters returns the position LastSep gives |
| Client.HostPortRoundTrip | netimg.cpp:84-96 | joining a non-empty host and a port without ':' and splitting gives both back |
| Client.Atoi | netimg.cpp:104 | no contract of its own: atoi, with leading white space, an optional sign and the leading digits, kept exact; its parts are SkipSpaces (the white space) and LeadingValue (the digits); AtoiOfDecimal characterises it |
| Client.AtoiOfDecimal | netimg.cpp:104-111 | atoi reads back the decimal digits of every natural number, and a leading '-' as its negation; Decimal, which writes a number's digits, is the reference it is measured against and models nothing in the source, and LeadingValueOfDecimal with LeadingValueSnoc is the induction behind it |
| Client.MssArg | netimg.cpp:103-109 | corrected `-m`: an mss it accepts leaves at least 4 data bytes per segment (ArgsBounds carries the bound into args) |
| Client.MssArgAsWritten | netimg.cpp:104-108 | `-m` as written: it differs from the corrected rule exactly for values above 65535, and only those leave an mss below MINSS (MssAsWrittenWraps gives one) |
| Client.MssAsWrittenWraps | netimg.cpp:104-108 | as written `-m 65546` gives mss 10 < MINSS (a datasize below 1); the corrected rule refuses it |
| Client.RwndArg | netimg.cpp:110-130 | an accepted `-w` leaves the derived fwnd below rwnd, and rwnd*mss within an int for every mss (ParseKeepsBounds and ArgsBounds carry it into args) |
| Client.Step | netimg.cpp:82-127 | a flag other than s, q, m, w and d is a usage error; `-d` changes nothing; otherwise each option changes only its own settings (mss for m, rwnd for w, sname and port for s, imgname for q) |
| Client.ParseOpts | netimg.cpp:81-128 | the getopt loop over the options; it succeeds only when every option is one of s, q, m, w and d |
| Client.Defaults | netimg.cpp:78-79 | no contract of its own: rwnd NETIMG_RCVWIN and mss NETIMG_MSS before the options; ParseKeepsBounds and ArgsBounds start from it |
| Client.ParseKeepsBounds | netimg.cpp:78-128 | with the corrected `-m` (Findings row 1): starting from bounded settings, the option loop keeps mss >= MINSS and rwnd >= 1, and names shorter than their buffers, whether it succeeds or stops |
| Client.ArgsBounds | netimg.cpp:74-133 | with the corrected `-m` (Findings row 1), when args succeeds: mss >= MINSS (datasize >= 4), rwnd in [1, MAXWIN], fwnd < rwnd, names short enough |
| Client.DeriveFwnd | netimg.cpp:130 | for rwnd >= 1, fwnd = min(rwnd-1, FECWIN) < rwnd; rwnd 0 would give 255 |
| Client.NetImg.Args | netimg.cpp:67-134 | with the corrected `-m` (Findings row 1): fewer than 5 arguments fail at once; otherwise the defaults RCVWIN and MSS are set and the fields and outputs are those of the option loop, stopping at the first failing option; fwnd is derived only on success |
| Client.NetImg.SendQry | netimg.cpp:148-166 | the query has VERS, SYNQRY, the client's mss, rwnd, fwnd and name, encoded as iqry_t; 1 exactly when send took all 262 bytes |
| Client.Query | netimg.cpp:154-159 | no contract of its own: the iqry_t fields sendqry fills; Session.QueryAccepted proves recvqry accepts it and reads them back |
| Client.Swap16 | netimg.cpp:195-196 | no contract of its own: ntohs on a little-endian host; Swap16OfLE and Swap16Twice characterise it |
| Client.Swap16Twice | netimg.cpp:195-196 | swapping twice gives the value back, so ntohs and htons agree |
| Client.HostIMsg | netimg.cpp:186 | no contract of its own: the imsg_t whose memory holds 8 received bytes; FoundIsDecoded characterises it |
| Client.HostBytes | netimg.cpp:186 | an imsg_t's memory is 8 bytes |
| Client.Overlay | netimg.cpp:186-189 | no contract of its own: imsg after a short recv; OverlayKeepsRest characterises it |
| Client.Swap16OfLE | netimg.cpp:195-196 | ntohs of a field read on a little-endian host is its big-endian value |
| Client.FoundIsDecoded | netimg.cpp:186-196 | the imsg recvimsg holds after the FOUND conversion is the decoded reply |
| Client.OverlayKeepsRest | netimg.cpp:186-189 | a short datagram overwrites only the first bytes of imsg |
| Client.NetImg.RecvImsg | netimg.cpp:179-221 | ESIZE for no datagram or one shorter than 8 bytes (imsg partly overwritten); EVERS for a wrong version; on FOUND imsg is the decoded reply, img_size is height*width*depth, the expected offset is 0 and the SYNSEQ ACK is sent; otherwise the type is returned with imsg in network order |
| Client.Patch | netimg.cpp:326-328 | the write changes exactly image[seqn..seqn+len) and leaves every other byte |
| Client.Written | netimg.cpp:326-328 | no contract of its own: the payload cut to the header's size; Session.WrittenOfSegment and Session.DeliveryKeepsPrefix say what it writes for a sender segment |
| Client.NextExpected | netimg.cpp:344-349 | no contract of its own: the expected offset after a header; ExpectedNeverDecreases, Session.DeliveryKeepsPrefix and Session.TakeAllAdvances characterise it |
| Client.ExpectedNeverDecreases | netimg.cpp:344-349 | the expected offset never decreases and grows by at most the size |
| Client.AckFor | netimg.cpp:305-356 | no contract of its own: the ACK seqn for a consumed datagram; Session.HandshakesMatch (FINSEQ for the FIN) and Session.DeliveryKeepsPrefix (unset or at most img_size for a sender segment) characterise it |
| Client.AckHdr | netimg.cpp:305-308 | no contract of its own: the ACK header (VERS, ACK, size 8) with a seqn; Session.HandshakesMatch shows sendpkt accepts the client's ACKs |
| Client.NetImg.RecvImg | netimg.cpp:232-373 | no datagram or a wrong version leaves the queue, buffer and expected offset as they were; DATA writes the payload at seqn and advances the expected offset per NextExpected; other types are taken off the queue; every taken datagram is ACKed per AckFor unless the ACK is dropped |
| Client.WriteAt | netimg.cpp:326-328 | the loop writes data into the buffer from the offset and nothing else |
| Client.NetImg.constructor | netimg.h:136 | next_seqn, window_start and packets_count are 0 and go_back_n_mode is false |
| Client.NetImg.RcvBuf | netimg.h:138 | rwnd*mss fits an int and holds rwnd full segments with their 8-byte headers |
| Session.QueryAccepted | netimg.cpp:154-160 | the query sendqry sends passes recvqry and decodes to the client's mss, rwnd, fwnd and name |
| Session.MetadataAgrees | netimg.cpp:190-201 | the server's metadata reply is taken as FOUND, and the client's height*width*depth is marshall_imsg's size, the pixel array's length |
| Session.HandshakesMatch | netimg.cpp:210-216 | for any wake-ups whose first answer is the client's SYNSEQ ACK, sendimsg succeeds after one send; the client answers the FIN with FINSEQ, and any FIN exchange whose first drain ends with that ACK succeeds after one send |
| Session.DuplicateImsgDrawsFinAck | netimg.cpp:309-356 | with the corrected sendpkt, a late SYNSEQ ACK makes sendimsg send the imsg_t twice and succeed (as written: three sends, failure); the queued copy reads as a VERS header of type FOUND, recvimg answers it with FINSEQ, which exceeds MAXSEQ and becomes snd_una in the ACK phase |
| Session.LookupOfQueriedName | imgdb.cpp:103-125 | the name in the client's query is the one readimg looks up: FOUND exactly for a stored image, NFOUND for a missing one, ENAME for an empty name |
| Session.TransferSendsSegments | imgdb.cpp:386-409 | every datagram of a transfer is a DATA segment carrying exactly image[seqn..seqn+size] within imgsize |
| Session.TransferStaysInWindow | imgdb.cpp:361-469 | every datagram of round k starts at or after that round's snd_una and ends less than rwnd*datasize bytes past it; that snd_una is 0 for the first round and what the previous ACK phase left for later ones |
| Session.DeliveryKeepsPrefix | netimg.cpp:326-349 | taking any sender segment keeps buffer[..expected] equal to image[..expected]; the expected offset only grows; the segment fits the buffer; its ACK is unset or at most imgsize; at imgsize the buffer is the image |
| Session.DuplicateIsIdempotent | netimg.cpp:326-349 | a segment taken again straight after it was taken changes neither the buffer nor the expected offset |
| Session.TakeAll | netimg.cpp:326-349 | the receiver's state after a run of sender segments keeps the buffer's length |
| Session.TakeAllKeepsBytes | netimg.cpp:326-328 | taking sender segments keeps every buffer byte that already equals the image's |
| Session.TakeAllAdvances | netimg.cpp:344-349 | taking sender segments never lowers the expected offset and keeps it within img_size |
| Session.RetakeChangesNothing | netimg.cpp:326-349 | a segment taken again after any other sender segments leaves the buffer unchanged, and leaves the expected offset unchanged when it was first taken in order |

## Left out

- Sockets, `select` and its timers, and `recvfrom`, `sendmsg` and
  `recvmsg` are left out. They become inputs: drop oracle, ACK phases,
  wake-ups and datagrams. The shrinking of the `timeout` member by Linux
  `select` is timing and is not modelled.
- `random()/INT_MAX < pdrop`, `atof` and the `-d` option are left out.
  They are floating point and randomness, replaced by the drop oracle and
  the `dropAck` flag.
- Server.ImgDb.SendImg: requires every ACK seqn to be at most MAXSEQ and
  imgsize at most MAXSEQ, so the `(int)snd_next` cast is exact. For larger
  ACKs the cast would turn negative.
- Server.ImgDb.SendImg: the outer do-while runs at most one round per
  given ACK phase. An unbounded run, with no ACK ever taking snd_una to
  imgsize, is seen as `completed == false`.
- The `double` image-size computations and the `LONG_MAX` checks are left
  out. Sizes are exact integers; valid images are at most MAXSEQ bytes.
- Client.NetImg.RecvImsg: img_size = height*width*depth is kept exact; the
  C `int` product can overflow for images beyond 2^31 bytes.
- Client.Atoi: kept exact; C `atoi` is undefined beyond the range of int.
- Uninitialised values are left out:
  - the seqn of an out-of-order ACK (`Unset`);
  - `recived_ih_seq` in sendpkt;
  - the fields of an error `imsg_t` (0 here);
  - the bytes of `iq_name` after the name's NUL (0 here);
  - the netimg fields the constructor does not set (0 here).
- Client.NetImg.Args: an empty `-s` argument is excluded, because the C
  scan then starts before the string. getopt's own parsing is not
  modelled: options arrive already split.
- The client port is kept as its value. The C code stores it in network
  byte order.
- Client.NetImg.RecvImg: assumes a datagram of at least 8 bytes, because
  a shorter one leaves part of `hdr` uninitialised. The code's own
  unchecked buffer overflow is excluded by requiring
  seqn + written bytes <= buffer length. A failing `recvmsg` after a
  successful peek is not modelled.
- `sendimg`'s `if (!image) return;` and the `sendmsg` failure return are
  not modelled.
- LTGA file loading, OpenGL/GLUT texturing and redisplay, and both `main`
  functions are left out. The loaded images are a map from file name to
  TGA header and pixels.
- FEC parity and the receiver's Go-Back-N mode are left out: no code for
  them is shown. `window_start`, `packets_count` and `go_back_n_mode` are
  only initialised.
- iov.cpp is not part of this model; it is an unrelated example.
- Server.SendPkt: models the corrected loop (Findings row 2), not the
  code as written. A SYNSEQ or FIN ACK answering a retry succeeds here,
  where imgdb.cpp:228-247 fails after MAXTRIES sends. The code's loop is
  Server.PktOutcomeAsWritten.
- Server.SendImsg: uses the corrected sendpkt (Findings row 2). A late
  SYNSEQ ACK succeeds here where the code fails.
- Server.ImgDb.SendImg: the FIN exchange uses the corrected sendpkt
  (Findings row 2). A late FIN ACK succeeds here where the code fails.
- Server.ImgDb.HandleQry: uses the corrected sendimsg (Findings row 2).
  After a late SYNSEQ ACK it runs sendimg, where the code does not.
- Server.ImgDb.SendImg: the requirement that ACK seqns are at most MAXSEQ
  also excludes a case the corrected sendpkt opens. After a retried
  imsg_t, the client takes the queued copy in recvimg and answers it with
  FINSEQ, and sendimg would then set snd_una to FINSEQ
  (Session.DuplicateImsgDrawsFinAck). `(int)snd_next` is then -2, and the
  next round's `left` and `segsize` are negative. The fix of Findings
  row 2 therefore also needs the client to drop a repeated imsg_t; that
  change is not modelled.
- Server.ImgDb.HandleQry: requires ACK seqns of at most MAXSEQ, and so
  excludes the same duplicate-imsg_t scenario as Server.ImgDb.SendImg.
- Server.SendRoundsLoop: requires ACK seqns of at most MAXSEQ, like
  Server.ImgDb.SendImg, and so excludes the same duplicate-imsg_t
  scenario and ACKs whose `(int)` cast would be negative.
- Client.NetImg.Args: uses the corrected `-m` rule (Findings row 1).
  It refuses `-m 65546` with a usage error, where netimg.cpp:103-109
  sets mss 10 and returns 0. The rule as written is
  Client.MssArgAsWritten.
- Client.ParseKeepsBounds: mss >= MINSS holds only with the corrected
  `-m` rule (Findings row 1).
- Client.ArgsBounds: mss >= MINSS on success holds only with the corrected
  `-m` rule (Findings row 1).
- Server.SendImsg: returns the datagrams sent. The in-place htons of the
  caller's `imsg_t` is not modelled.

## Findings

| source | as written | input that shows it | evidently intended | confidence | as-written member | corrected member |
|---|---|---|---|---|---|---|
| netimg.cpp:104-108 | `-m` checks `arg < NETIMG_MINSS` on the int, then casts to unsigned short | `-m 65546` passes and sets mss to 10, a datasize of -26: the server sends nothing | an mss of at least NETIMG_MINSS that fits an unsigned short | medium, not executed | Client.MssAsWrittenWraps | Client.MssArg |
| imgdb.cpp:228-247 | the fd_set is filled once before the retry loop, and select empties it when it times out | the FIN's ACK arriving after the first timeout: three sends and -1 instead of success on the second try | re-arm the fd_set and reset `timeout` before every select (Linux select also uses up the timeout, so re-arming the set alone leaves every retry a zero wait); a retried imsg_t then reaches the client twice, so the client must also ignore the repeat, which it answers with FINSEQ otherwise (Session.DuplicateImsgDrawsFinAck) | high, not executed | Server.LateFinAckIsLost | Server.PktSucceedsIff |
