# Verified models of the v5-package video transports

The project models the protocol code of the repository and proves what it promises over every
input, every run and every interleaving.

**The private frame transport over TCP** (`FrameRecord`, `FrameSender`, `FrameReceiver`,
`FrameDelivery`, `FrameGroups`, `FrameTimeout`). `sendToSocket` cuts a frame into records of 1300
bytes: a 40-byte header, at most 1000 bytes of payload, and padding left from the record before.
`getDataToVDEC` takes whatever pieces `recv` returns, rebuilds records through a carry-over buffer,
drops records whose header is bad, resynchronises on start records and hands a frame to the decoder
when the next one starts. The main results: deframing does not depend on how the stream is cut;
every frame but the last arrives byte for byte, from the encoder to the decoder; with lost records
exactly the whole frames arrive; and for any records at all, exactly the groups whose bytes add up are
handed over.

**The RTP path of the RTSP server** (`RtpPacket`, `Packetizer`, `BufferWriters`, `RtpState`,
`RtpConnections`, `MediaSessions`, `VideoSources`, `RtpRuns`, `RtpRequests`, `RtpDelivery`,
`SharedPacket`). The H.264 and H.265 sources fragment a NAL unit, the session offers each packet to
all its clients in one shared buffer, and each connection gates, numbers and sends it, over UDP, or
through the write queue of its RTSP connection, which it shares with the RTSP responses. The main
results: over any run a strict receiver of one client gets exactly the frames offered if and only
if none is ambiguous, the queue drops none of their packets, and the socket of the channel is one of
the current transport; and which frames and responses go out, octet for octet, numbering, whole
frames, the gate and the byte stream over any run of requests, responses and frames, with sockets
that take any part of what they are given, nothing, or fail.

**Algorithms and state machines** (`NalParser`, `Fifos`, `BufferHandoff`, `PixelFormats`,
`Registry`, `Pusher`). The Annex B scan with its rotating window, the hand-off of V4L2 buffers
between two threads over every interleaving of their steps, the in-place pixel loops, the two-map
session registry, and the handshake of the pusher.

The network is a parameter everywhere: the pieces `recv` returns, and a function that gives the
outcome of the n-th send. Clocks and random numbers are parameters too. Integers are unbounded, and
the widths of the C types are written out where a value can wrap: sequence numbers modulo 2^16,
counters modulo 2^64, header fields in two's complement, the FIFO's counters modulo 2^32. Host
integers are laid out in little-endian order, the order of the target processor. Bytes are numbers
below 256; `Packetizer.MasksAreArithmetic` shows that the quotients and remainders used for the FU
octets are the masks of the sources.

## Where the code does not do what one would expect

Each of these is proved, with an input that shows it and the exact condition.

- The transport is one field of a connection and the socket one of each channel, and each SETUP may
  choose its own transport. After a SETUP over TCP and one over UDP, `sendto` puts bare RTP into the
  byte stream of the RTSP connection, or the write queue goes to another socket
  (`RtpRuns.MixedSetups`). The byte stream comes apart into packets and responses at every moment of
  every run if and only if no frame goes out while its channel's socket and the transport disagree
  about TCP (`RtpRuns.TcpStreamSplits`), and a receiver gets its frames only while the socket is one
  of the transport (`RtpDelivery.EndToEnd`). SETUPs that agree and succeed are enough
  (`RtpRuns.AgreeingSetups`).
- The result of `append` is ignored, so an interleaved client whose socket is slow loses packets of
  a frame while its connection stays open and its sequence numbers go on. Whatever the network does a
  frame is given to a client whole or not at all, and to no other socket, if and only if the channel's
  socket is one of the transport, and the client is not interleaved, its queue has room for all packets
  of the frame, or there is one packet (`RtpRuns.WholeUnderAnyNetwork`); what is kept is numbered
  without a gap if and only if the number lost before each packet is a multiple of 2^16
  (`RtpRuns.KeptNumbering`).
- `sendRtpOverTcp` has the socket watched for writing when the queue is empty, not when bytes are left:
  the bytes a packet leaves are sent by the event loop if and only if the socket was watched before
  (`RtpRuns.PacketIsWatched`), and else wait for the next packet or response
  (`RtpRuns.BlockedPacketWaits`). After a response they are always watched
  (`RtpRuns.MessageIsWatched`).
- Over multicast the loop over the clients ends at the first one that has a connection, even if that
  one has not started: a packet goes out if and only if it is past its gate
  (`RtpRuns.MulticastSendsIff`).
- A start record that is lost can splice frames into one that was never sent: if and only if the
  payloads that come by have the length of what is missing and not its bytes
  (`FrameGroups.SplicedIff`, with cut-backs `FrameGroups.NeverSent`, an instance
  `FrameGroups.LostStartSplicesFrames`). With all start records present this cannot happen
  (`FrameDelivery.LossyDelivery`).
- The select timeout in the client's `main` keeps the bytes carried over and the frame under way.
  The next connection is served as a new one if and only if there are no such bytes and the receiver
  was waiting for a start record (`FrameTimeout.TimeoutIsClean`); the reported disconnect clears
  both (`FrameDelivery.DisconnectIsClean`). The server's main replaces the client while a frame is
  being sent, and goes on with the next record: on such a stream the two services differ if and only
  if no record was lost in between (`FrameTimeout.LateService`).
- The server's sends have a timeout, so one can take part of a record, and the rest of it is not sent
  again. The receiver finds the records sent if and only if every send takes its record whole
  (`FrameSender.WholeIff`); after a partial one the next record found is put together from two
  (`FrameSender.PartialTakeShifts`), until the bytes taken are a multiple of 1300 again
  (`FrameSender.AlignedAgain`, two halves in `FrameSender.TwoHalves`).
- A NAL unit that fits one packet and whose type is the FU type (28 for H.264, 49 for H.265) is taken
  for a fragment (`RtpDelivery.OneFrame`, `RtpDelivery.EndToEnd`, three bytes in
  `RtpDelivery.TakenForAFragment`).
- The comments in RtpConnection.cpp say that an I frame is sent first. The gate is one flag for both
  channels, and an untyped frame opens it as well as an I frame, even before PLAY, so a P frame can
  be first (`RtpRuns.PFrameFirst`); a client that has started gets an I or untyped frame first if and
  only if the gate is not open (`RtpRuns.IFrameFirstIff`).
- The write queue of an interleaved client refers to the buffer shared by all clients, so a client can
  be sent the header of a later one (`SharedPacket.Fanout`, `SharedPacket.OthersPacket`). It is sent
  its own packet whatever its socket takes and when, if and only if the clients after it leave the 16
  reserved bytes as it has written them (`SharedPacket.OwnPacket`); what they leave is said by
  `MediaSessions.MediaSession.SendFrame` and `MediaSessions.LaterStamps`. The last client in the
  fan-out, and so a single one, is always sent its own.
- `findNal` misses a three-byte start code on the last three bytes (`NalParser.ThreeByteFraming`).
- `FIFO_Push` can miss that its ring is full, and then loses the oldest element
  (`Fifos.Fifo.FullTest`, `Fifos.Fifo.Push`, a run in `Fifos.MissesFull`); the hand-off never fills it
  (`BufferHandoff.HandoffIsSafe`).
- The encoder reads a capture buffer after giving it back to the driver if and only if it is set to
  use physical addresses and there is no decoder (`BufferHandoff.ReadsOwnUnlessPhysical`). The display
  layer scans out the last buffer until it is given another one: no buffer is read at all while the
  driver has it if and only if there is a decoder (`BufferHandoff.ReadsOwnIffDecoder`).
- The pusher answers an incomplete response with the next request and an old CSeq
  (`Pusher.NumberedFromOne`, a run in `Pusher.SplitResponse`).
- Renaming a registered session breaks the registry, and nothing else does
  (`Registry.AgreeUnlessRenamed`); removing it then leaves its old suffix behind, and looking that up
  inserts a null session (`Registry.RenameThenRemove`, `Registry.LookInserts`).

## Model

| member | source | states |
|---|---|---|
| FrameRecord.HeaderRoundTrip | tcp_client/src/sample_vi_venc_client.cpp:190-213 | the eight header fields read back what the sender wrote, negative numbers included |
| FrameRecord.RecordRoundTrip | tcp_client/src/sample_vi_venc_client.cpp:190-219 | a record yields the header and payload it was built from, whatever the padding |
| FrameRecord.Layout | tcp_server/src/sample_vi_venc_server.cpp:168-193 | the offsets of the fields in a record, as numbers in host order and two's complement, and the payload at byte 40 |
| FrameRecord.RecordsConcat | tcp_client/src/sample_vi_venc_client.cpp:175-188 | a stream cut at a record boundary gives the records of both parts |
| FrameSender.FramePackets | tcp_server/src/sample_vi_venc_server.cpp:137-210 | closed form of a frame's packets: how many, which bytes, which is the start record |
| FrameSender.PacketsTell | tcp_server/src/sample_vi_venc_server.cpp:144-166 | every packet repeats type, time stamp, length and end-of-frame flag of its frame, the first alone is a start record, and the payloads of at most 1000 bytes make up the frame |
| FrameSender.WriteRecord | tcp_server/src/sample_vi_venc_server.cpp:168-193 | the nine copies fill the buffer with the record and leave the bytes past the payload alone |
| FrameSender.Sender.SendToSocket | tcp_server/src/sample_vi_venc_server.cpp:135-210 | the wire gains what the sends take of the records, up to the first that fails, which closes the connection; without a client nothing is sent |
| FrameSender.WireCarries | tcp_server/src/sample_vi_venc_server.cpp:158-209 | the bytes sent carry exactly the packets, although the padding is stale |
| FrameSender.ChosenIs | tcp_server/src/sample_vi_venc_server.cpp:224-233 | on one connection exactly the rounds from the first I frame on are sent |
| FrameSender.FrameOfRound | tcp_server/src/sample_vi_venc_server.cpp:225-229 | where the data of each round is among the frames sent, with its time stamp, directly behind the parameter sets if it is an I frame; there are no others |
| FrameSender.Sender.SendStream | tcp_server/src/sample_vi_venc_server.cpp:212-238 | one connection carries what its sends take of the records of the chosen frames, in order, up to the first failed send; without a client nothing is sent |
| FrameSender.WholeStream | tcp_server/src/sample_vi_venc_server.cpp:158-209 | if every send takes its record whole the socket takes the whole stream |
| FrameSender.WholeIff | tcp_server/src/sample_vi_venc_server.cpp:195-206 | the receiver finds the records sent if and only if every send takes its record whole |
| FrameSender.PartialTakeShifts | tcp_server/src/sample_vi_venc_server.cpp:195-206 | after a send that took part of a record the receiver holds that part, and the next record it finds is made of it and of the first bytes sent next |
| FrameSender.AlignedAgain | tcp_server/src/sample_vi_venc_server.cpp:195-206 | after any takes, a record taken whole is found as it is, whatever its bytes, if and only if the bytes taken so far are a multiple of the record size; then all that follows is cut as it is sent |
| FrameSender.TwoHalves | tcp_server/src/sample_vi_venc_server.cpp:195-206 | two takes of half a record are found as one record, and the third record is whole |
| FrameSender.LateClient | tcp_server/src/sample_vi_venc_server.cpp:689-697 | a client that is accepted while a frame is being sent gets the packets from that record on |
| FrameReceiver.Client.Collect | tcp_client/src/sample_vi_venc_client.cpp:175-183 | the carry-over buffer takes what fits of the received piece |
| FrameReceiver.Client.Carry | tcp_client/src/sample_vi_venc_client.cpp:221-233 | the rest of the piece is kept; the "overflow 4" branch cannot be reached |
| FrameReceiver.Client.HandleRecord | tcp_client/src/sample_vi_venc_client.cpp:235-324 | reject, skip, hand over, start and append, as the function of the state that the lemmas here are about |
| FrameReceiver.BadRecord | tcp_client/src/sample_vi_venc_client.cpp:237-260 | the seventh bad record since the last forced close closes, and drops the bytes carried over, the frame under way and the one that waits; any other is counted and changes nothing else |
| FrameReceiver.EverySeventh | tcp_client/src/sample_vi_venc_client.cpp:237-260 | over any rounds of main, timeouts, disconnects and reconnections included, the bad records are seven for each forced close and those counted since |
| FrameReceiver.Client.GetDataToVDEC | tcp_client/src/sample_vi_venc_client.cpp:145-325 | one recv on the whole state, disconnects included |
| FrameReceiver.Client.Serve | tcp_client/src/sample_vi_venc_client.cpp:584-613 | one round of the main loop: connect if there is no connection, then a select timeout or one recv |
| FrameReceiver.Client.MainLoop | tcp_client/src/sample_vi_venc_client.cpp:584-613 | the main loop over any rounds, timeouts and reconnections included |
| FrameReceiver.TimeoutRound | tcp_client/src/sample_vi_venc_client.cpp:602-606 | a round that times out closes the connection and leaves all else as it is |
| FrameReceiver.ServedConnection | tcp_client/src/sample_vi_venc_client.cpp:584-613 | as long as nothing closes the connection the loop handles its pieces one after the other |
| FrameDelivery.Deframing | tcp_client/src/sample_vi_venc_client.cpp:175-233 | the receiver has handled exactly the complete records of the stream, and holds exactly the incomplete one |
| FrameDelivery.ChunkingIrrelevant | tcp_client/src/sample_vi_venc_client.cpp:175-233 | two ways to cut the same bytes lead to the same state |
| FrameDelivery.OneFrame | tcp_client/src/sample_vi_venc_client.cpp:283-322 | a frame hands over its predecessor, and waits to be handed over itself exactly when it is whole |
| FrameDelivery.LossyDelivery | tcp_client/src/sample_vi_venc_client.cpp:237-322 | with up to six rejected continuation records, what is delivered and what is pending are exactly the whole frames |
| FrameDelivery.Resync | tcp_client/src/sample_vi_venc_client.cpp:278-281 | everything before the first start record is dropped |
| FrameDelivery.ResyncAndLoss | tcp_client/src/sample_vi_venc_client.cpp:237-322 | both together, from received bytes to delivered buffers: what a stream carries before the first start record is dropped, and exactly the whole frames follow |
| FrameDelivery.EndToEnd | tcp_client/src/sample_vi_venc_client.cpp:145-325 | for every list of frames and every cutting of the stream the decoder gets every frame but the last, in order, with bytes, length, pts and end-of-frame flag |
| FrameDelivery.MixedEndToEnd | tcp_client/src/sample_vi_venc_client.cpp:145-325 | for every list of frames, those without bytes or pts included: with at most six rejected records exactly the others are handed over or pending, and one more closes the connection |
| FrameDelivery.NothingButFrames | tcp_client/src/sample_vi_venc_client.cpp:145-325 | at every moment what was delivered is an initial run of the frames sent |
| FrameDelivery.RejectedFrames | tcp_client/src/sample_vi_venc_client.cpp:237-237 | the header check rejects exactly the frames without pts or without bytes |
| FrameDelivery.OpenIff | tcp_client/src/sample_vi_venc_client.cpp:237-260 | a connection is open exactly as long as there have been at most six bad records since the last forced close |
| FrameDelivery.DisconnectIsClean | tcp_client/src/sample_vi_venc_client.cpp:156-168 | a reported disconnect drops the pending frame, the next connection starts fresh, and the bad records counted stay counted |
| FrameDelivery.EncoderToDecoder | tcp_server/src/sample_vi_venc_server.cpp:222-235 | both sides together: what the encoder yields from the first I frame on, parameter sets and frames with time stamp, length and end-of-frame flag, is exactly what the decoder is handed or is to be handed next, however the bytes are cut |
| FrameTimeout.TimeoutIsClean | tcp_client/src/sample_vi_venc_client.cpp:602-606 | after a select timeout the next connection is served as after a reported disconnect, whatever bytes it carries, if and only if none were left over and the receiver was waiting for a start record |
| FrameTimeout.LateService | tcp_server/src/sample_vi_venc_server.cpp:692-697 | the server goes on with a torn frame and others on the next connection: exactly what is handed over after a timeout and after a disconnect, and they differ if and only if no record was lost in between |
| FrameTimeout.LateServed | tcp_client/src/sample_vi_venc_client.cpp:584-613 | the same of the rounds of main: a timeout or a reported disconnect, and then the pieces of the next connection |
| FrameTimeout.ForcedCloseServed | tcp_client/src/sample_vi_venc_client.cpp:237-260 | after the seventh bad record main connects again, and the decoder is handed exactly the frames of the new connection, nothing of what was under way |
| FrameGroups.GroupHandled | tcp_client/src/sample_vi_venc_client.cpp:237-322 | what a start record and any records after it assemble, cut-backs included |
| FrameGroups.GroupEnds | tcp_client/src/sample_vi_venc_client.cpp:283-297 | the next start record hands the group over if and only if its bytes add up to the length in its start record |
| FrameGroups.PutTogether | tcp_client/src/sample_vi_venc_client.cpp:310-322 | with no cut-back what is assembled is the payloads one after the other |
| FrameGroups.CutBack | tcp_client/src/sample_vi_venc_client.cpp:310-313 | a record that announces fewer bytes than are there keeps as many of them as it has itself |
| FrameGroups.NeverSent | tcp_client/src/sample_vi_venc_client.cpp:283-322 | whatever follows a start record, a buffer that is not the frame is handed over if and only if what is assembled has its length and not its bytes |
| FrameGroups.SplicedIff | tcp_client/src/sample_vi_venc_client.cpp:283-322 | with no cut-back: if and only if the payloads that come by make up the rest of the frame in length and not in content |
| FrameGroups.LostStartSplicesFrames | tcp_client/src/sample_vi_venc_client.cpp:283-322 | two frames of which the lost start record makes one that was never sent |
| FrameGroups.AnyRecords | tcp_client/src/sample_vi_venc_client.cpp:237-322 | for every list of records with at most six bad ones: what precedes the first start record is dropped, and exactly the groups whose bytes add up are handed over or pending |
| FrameGroups.AnyBytes | tcp_client/src/sample_vi_venc_client.cpp:145-325 | the same from bytes, however they are cut |
| RtpPacket.HeaderRoundTrip | rtsp/src/src/rtp.h:25-45 | the 12 header bytes decode to marker, payload type, sequence number, timestamp and SSRC |
| RtpPacket.Layout | rtsp/src/src/rtp.h:25-45 | the octets of the header as section 5.1 of RFC 3550 has them, numbers in network order |
| RtpPacket.InterleavedLayout | rtsp/src/src/RtpConnection.cpp:270-273 | '$', the low octet of the channel number, the low 16 bits of the length in network order, and the packet |
| RtpPacket.InterleavingRoundTrip | rtsp/src/src/RtpConnection.cpp:266-276 | a deframer for section 10.12 of RFC 2326 recovers packets, channels and RTSP messages, in any mix |
| RtpPacket.PrefixSplits | rtsp/src/src/RtpConnection.cpp:266-276 | of a stream that has arrived in part exactly the complete packets and messages come out |
| RtpPacket.EmptyLineDelimits | rtsp/src/src/RtspConnection.cpp:279-289 | a response whose only empty line is its end can be told from what follows, whatever that is |
| RtpPacket.OnlyIfItFits | rtsp/src/src/RtpConnection.cpp:272-273 | a packet comes back if and only if its length fits the 16-bit field |
| BufferWriters.Flushed | rtsp/src/src/xop/BufferWriter.cpp:49-83 | however the socket takes the queue, no byte is lost, repeated or reordered, and the loop stops at a failed send |
| BufferWriters.FlushEnds | rtsp/src/src/RtpConnection.cpp:279-289 | every send before the last took something, the loop has failed exactly if the last one did, and leaves something else only if the last one took nothing |
| BufferWriters.TakenInPart | rtsp/src/src/xop/BufferWriter.cpp:59-68 | a send that takes a part of a packet leaves the rest of it in front |
| BufferWriters.KeepsUp | rtsp/src/src/RtpConnection.cpp:279-289 | a socket that always takes something empties the queue |
| BufferWriters.BufferWriter.Append | rtsp/src/src/xop/BufferWriter.cpp:16-28 | the packet is queued by reference, unless the queue is full or the packet is used up |
| BufferWriters.BufferWriter.Send | rtsp/src/src/xop/BufferWriter.cpp:49-83 | the socket takes a part of the packet in front, as it is now, or none, or fails; a packet used up leaves the queue |
| BufferWriters.BufferWriter.Flush | rtsp/src/src/RtpConnection.cpp:279-289 | the loop around send does to the queue on the heap what the function says, both as it is and as it was appended |
| BufferWriters.BufferWriter.FlushTo | rtsp/src/src/RtpConnection.cpp:279-289 | the same into the descriptor of a channel: what a socket other than that of the RTSP connection takes leaves the queue and is no part of the stream |
| Packetizer.MasksAreArithmetic | rtsp/src/src/H265Source.cpp:71-74 | the masks of both sources on every byte are the arithmetic used in the model |
| Packetizer.Fragments | rtsp/src/src/H264Source.cpp:67-106 | at least two fragments, and as many as the payload room requires |
| Packetizer.Fragment | rtsp/src/src/H265Source.cpp:79-108 | no fragment is empty and none exceeds 1420 bytes |
| Packetizer.FragmentReads | rtsp/src/src/H265Source.cpp:67-109 | a fragment shows the start bit only if it is the first, the end bit only if it is the last, and gives back the whole NAL header |
| Packetizer.FuOctets | rtsp/src/src/H264Source.cpp:67-98 | the bits of the FU octets of RFC 6184 and RFC 7798: type, start and end bit, and all others from the NAL header |
| Packetizer.BodiesFollow | rtsp/src/src/H265Source.cpp:67-109 | the bodies of the fragments are the NAL unit behind its header, cut in order |
| Packetizer.PayloadTotal | rtsp/src/src/H264Source.cpp:67-106 | the payloads add up to the NAL unit and one prefix per fragment |
| VideoSources.SendFragment | rtsp/src/src/H264Source.cpp:80-92 | filling one packet and offering it advances every client by one packet |
| VideoSources.H264Source.HandleFrame | rtsp/src/src/H264Source.cpp:50-109 | every client the session reaches is offered exactly the payloads of the frame, with its type and its time stamp or else the clock's, no other changes, and the loop ends |
| VideoSources.H265Source.HandleFrame | rtsp/src/src/H265Source.cpp:50-112 | the same for H.265 |
| RtpRequests.SourceSteps | rtsp/src/src/MediaSession.cpp:49-63 | that is, for each client reached, the step that the runs below are made of |
| RtpConnections.RtpConnection.SetupRtpOverTcp | rtsp/src/src/RtpConnection.cpp:52-62 | the channel gets its number and the socket of the RTSP connection, and the transport becomes TCP for both channels |
| RtpConnections.RtpConnection.SetupRtpOverUdp | rtsp/src/src/RtpConnection.cpp:64-115 | the channel gets a datagram socket and the transport becomes UDP if one of ten port pairs could be bound; if none could, a closed descriptor is left behind; without a peer address nothing changes |
| RtpConnections.RtpConnection.SetupRtpOverMulticast | rtsp/src/src/RtpConnection.cpp:117-131 | the channel gets the datagram socket of the session, and the transport becomes multicast |
| RtpConnections.RtpConnection.Play | rtsp/src/src/RtpConnection.cpp:133-140 | exactly the channels set up play |
| RtpConnections.RtpConnection.Record | rtsp/src/src/RtpConnection.cpp:142-149 | exactly the channels set up record |
| RtpConnections.RtpConnection.Teardown | rtsp/src/src/RtpConnection.cpp:151-162 | closes once and stops both channels |
| RtpConnections.RtpConnection.SetFrameType | rtsp/src/src/RtpConnection.cpp:224-231 | an I frame or an untyped frame opens the gate for good |
| RtpConnections.RtpConnection.SetRtpHeader | rtsp/src/src/RtpConnection.cpp:233-242 | bytes 4 to 15 of the shared packet become this client's header if its gate is open, else nothing changes |
| RtpConnections.RtpConnection.SendRtpPacket | rtsp/src/src/RtpConnection.cpp:244-264 | gate, transport and counters, which count a dropped packet as well; the bytes from 4 on do not change |
| RtpConnections.RtpConnection.SendRtpOverTcp | rtsp/src/src/RtpConnection.cpp:266-298 | the interleaved packet goes to the write queue or is dropped if that is full, the queue is sent to the descriptor of the channel as far as that takes it, a failed send tears down, and an empty queue turns write watching on |
| RtpConnections.RtpConnection.SendRtpOverUdp | rtsp/src/src/RtpConnection.cpp:300-316 | sendto without the 4 reserved bytes on whatever descriptor the channel has, a part of which may go into the byte stream of the RTSP connection, or a teardown |
| RtpConnections.RtpConnection.HandleWrite | rtsp/src/src/RtspConnection.cpp:92-116 | a writable socket takes what is queued, and is no longer watched when nothing is left; a failed send closes |
| RtpConnections.RtpConnection.SendMessage | rtsp/src/src/RtspConnection.cpp:239-267 | a response joins the queue if that has room, the queue is sent as far as the socket takes it, and the socket is watched if something is left; a failed send closes |
| MediaSessions.MediaSession.AddClient | rtsp/src/src/MediaSession.cpp:218-232 | a socket is added once |
| MediaSessions.MediaSession.RemoveClient | rtsp/src/src/MediaSession.cpp:234-239 | the socket's client is gone, the others stay |
| MediaSessions.MediaSession.SendFrame | rtsp/src/src/MediaSession.cpp:49-63 | whatever the number and order of clients, each one reached is offered the packet with its own header and the same payload, the others do not change, the buffer changes in bytes 0 to 15 only, which hold what the clients have written in the order of the map, and what the last client is due is what its socket really gets |
| MediaSessions.LaterStamps | rtsp/src/src/MediaSession.cpp:51-62 | for a client sent the packet over TCP the reserved bytes are in the end what the clients after it have made of its own |
| RtpRequests.WhoseHeader | rtsp/src/src/RtpConnection.cpp:232-242 | when all clients have had their turns the shared packet carries the RTP header of the last one past its gate, also if it is closed and sent nothing |
| RtpRequests.WhoseHead | rtsp/src/src/RtpConnection.cpp:266-279 | and the interleaving head of the last one that is interleaved, open and past its gate |
| MediaSessions.MulticastSendsOnce | rtsp/src/src/MediaSession.cpp:59-60 | over multicast at most one client is reached |
| RtpRuns.MulticastSendsIff | rtsp/src/src/MediaSession.cpp:51-62 | as long as sends succeed a packet goes out over multicast if and only if the first client of the map with a connection is past its gate |
| RtpDelivery.OneFrame | rtsp/src/src/RtpConnection.cpp:224-264 | a receiver in sync stays in sync and gains exactly the frame, if and only if the frame is not ambiguous and none of its packets is dropped or sent to a socket of another transport |
| RtpDelivery.TakenForAFragment | rtsp/src/src/H264Source.cpp:50-66 | the frame 28, 128, 7: it is not received, and the receiver is out of sync |
| RtpDelivery.EndToEnd | rtsp/src/src/MediaSession.cpp:47-67 | over any run of frames on both channels, requests, responses and writable sockets that leaves the client open, a receiver past the gate gets exactly the frames of its channel, with one timestamp each and the marker on the last packet of each, if and only if none is ambiguous, no packet of the channel is dropped, and each frame goes out while the socket of the channel is one of the transport |
| RtpDelivery.KeepingUp | rtsp/src/src/MediaSession.cpp:47-67 | a client none of whose sends fails or is blocked gets exactly the frames, if and only if none is ambiguous and each goes out while the socket of the channel is one of the transport |
| RtpDelivery.FromTheBytes | rtsp/src/src/RtpConnection.cpp:266-298 | a receiver that takes the byte stream apart and follows the number of a channel is where the receiver of that channel is, in every run that keeps the stream whole |
| RtpDelivery.RunWeight | rtsp/src/src/RtpConnection.cpp:224-264 | conservation: a receiver never has more bytes and frames than were offered, and less if a frame is ambiguous or a packet dropped |
| RtpDelivery.OtherFrame | rtsp/src/src/RtpConnection.cpp:233-264 | frames on one channel do not disturb the receiver of the other |
| RtpRuns.TcpStreamSplits | rtsp/src/src/RtpConnection.cpp:266-298 | in every run and at every moment, whatever the socket takes and when, the bytes due come apart into an initial run of the whole packets and responses put in the queue, if and only if no frame goes out while its channel's socket and the transport disagree about TCP; they are the bytes really sent for the last client of the session |
| RtpRuns.MixedSetups | rtsp/src/src/RtspConnection.cpp:391-418 | the run SETUP over TCP, SETUP of the other channel over UDP, PLAY, I frame: one byte of bare RTP is in the byte stream, and the connection is open |
| RtpRuns.AgreeingSetups | rtsp/src/src/RtspConnection.cpp:391-418 | SETUPs that agree on TCP or on datagrams, and never fail to bind, keep the stream whole and every channel on a socket of the transport |
| RtpRuns.PacketIsWatched | rtsp/src/src/RtpConnection.cpp:291-295 | the bytes an interleaved packet leaves in the queue are watched if and only if the socket was watched before it |
| RtpRuns.MessageIsWatched | rtsp/src/src/RtspConnection.cpp:260-264 | the bytes a response leaves are always watched, and the event loop watches as long as something is left |
| RtpRuns.BlockedPacketWaits | rtsp/src/src/RtpConnection.cpp:279-295 | the run SETUP, PLAY, I frame on a blocked socket: the packet is queued and not watched, and a writable socket sends nothing |
| RtpRuns.NumberingHolds | rtsp/src/src/RtpConnection.cpp:233-264 | in every run the packets handed over, dropped ones included, are numbered from 1 on modulo 2^16 without a gap on each channel, and while open the counters count them and their octets |
| RtpRuns.KeptNumbering | rtsp/src/src/RtpConnection.cpp:233-279 | the packets kept are numbered without a gap if and only if the number lost before each is a multiple of 2^16, so if none is lost |
| RtpRuns.WholeFrames | rtsp/src/src/RtpConnection.cpp:224-298 | a frame that passes the gate is handed over packet by packet unless a send fails and closes the connection, and dropped are exactly the packets of an interleaved client that meet a full queue |
| RtpRuns.WholeUnderAnyNetwork | rtsp/src/src/RtpConnection.cpp:266-316 | whatever the network does an open client gets the frame whole or not at all, and no other socket gets any of it, if and only if the channel's socket is one of the transport, and it is not interleaved, or its queue has room for every packet, or there is one packet |
| RtpRuns.NothingBeforeTheGate | rtsp/src/src/RtpConnection.cpp:224-264 | nothing is handed over before an I or untyped frame was offered, nor on a channel never set up |
| RtpRequests.FrameGoesOut | rtsp/src/src/RtpConnection.cpp:224-264 | on a client that stays open a frame goes out if and only if its channel plays or records and it or an earlier frame was an I or untyped one, as the requests and frames decide; and the exact octets of every packet, channel number and socket |
| RtpRequests.StartedIff | rtsp/src/src/RtpConnection.cpp:133-149 | on an open connection a channel plays or records if and only if a PLAY or RECORD came after a SETUP of it |
| RtpRequests.AsLastAsked | rtsp/src/src/RtpConnection.cpp:52-131 | in every run transport, channel number, socket and payload type are those last asked for, and the SSRC stays |
| RtpRequests.SendtoOutcome | rtsp/src/src/RtpConnection.cpp:300-316 | a packet sent by sendto is sent, and the byte stream gains what it takes of it if it goes there, or the connection is torn down, if and only if sendto fails |
| RtpRequests.StreamOutcome | rtsp/src/src/RtpConnection.cpp:279-289 | a packet of an interleaved client tears the connection down if and only if one of its sends fails |
| RtpRequests.WritableSends | rtsp/src/src/RtspConnection.cpp:92-116 | a writable socket that takes what it is given empties the queue into the byte stream; one not watched or gone is given nothing; a failed send ends the connection |
| RtpRequests.ReplyJoins | rtsp/src/src/RtspConnection.cpp:239-258 | a response joins the byte stream at its end if and only if the connection is there and fewer than 300 chunks are queued |
| RtpRequests.RunAnswers | rtsp/src/src/RtspConnection.cpp:239-258 | in every run the messages in the byte stream are exactly those responses, in order |
| RtpRequests.EveryReply | rtsp/src/src/RtspConnection.cpp:239-258 | a client none of whose sends fails or is blocked is sent every response |
| RtpRequests.NewClientIsAnswered | rtsp/src/src/RtspConnection.cpp:239-258 | the messages in the byte stream of a new client that keeps up are all responses of the run, in order |
| RtpRequests.ReplyOutcome | rtsp/src/src/RtspConnection.cpp:248-258 | a response ends the connection if and only if one of the sends it gives rise to fails |
| RtpRequests.TeardownStops | rtsp/src/src/RtpConnection.cpp:151-162 | a teardown closes and stops both channels |
| RtpRequests.ClosedStill | rtsp/src/src/RtpConnection.cpp:151-242 | a second teardown does nothing, and a channel started again on a closed connection is numbered and not sent |
| RtpRuns.PFrameFirst | rtsp/src/src/RtpConnection.cpp:224-242 | the run SETUP, I frame, PLAY, P frame: the first packet sent is that of the P frame |
| RtpRuns.IFrameFirstIff | rtsp/src/src/RtpConnection.cpp:224-264 | a client that has started is handed an I or untyped frame first if and only if its gate was not open |
| RtpRuns.NothingAfterTeardown | rtsp/src/src/RtpConnection.cpp:151-162 | after a teardown or a failed send nothing is handed over any more, whatever is requested; only what is queued may still be sent |
| SharedPacket.Fanout | rtsp/src/src/RtpConnection.cpp:266-289 | what an interleaved client is sent of a packet that any number of later clients write their headers into, with any backlog before it |
| SharedPacket.OwnPacket | rtsp/src/src/RtpConnection.cpp:266-289 | it is its own packet whatever its socket takes and when, if and only if the later clients leave the reserved bytes as it has written them |
| SharedPacket.OthersPacket | rtsp/src/src/RtpConnection.cpp:266-289 | two clients with the channel numbers 0 and 2, and a socket of the first that takes nothing at first: it is sent the packet of the second |
| NalParser.FindNal | rtsp/src/src/H264Parser.cpp:6-70 | for every input the first start code, and the extent up to the next one of the same length; every read is in range |
| NalParser.FoundIsUnique | rtsp/src/src/H264Parser.cpp:6-70 | that promise leaves one result for each input |
| NalParser.FourByteFraming | rtsp/src/src/H264Parser.cpp:39-61 | between four-byte codes exactly the NAL unit is found |
| NalParser.ThreeByteFraming | rtsp/src/src/H264Parser.cpp:26-38 | between three-byte codes exactly the NAL unit is found, if and only if something follows the second code |
| NalParser.LastUnit | rtsp/src/src/H264Parser.cpp:6-70 | the last unit reaches to the last byte, and a four-byte code with nothing behind it is none |
| NalParser.NoUnit | rtsp/src/src/H264Parser.cpp:6-12 | nothing is found in fewer than five bytes or without a byte of 1 |
| Fifos.Fifo.Push | vecoo/cameratest/src/camera_capture.c:198-198 | FIFO_Push of fifo.c (lines 21 to 43): a ring with room takes the element, a full one that looks full refuses it, and a full one that does not loses its oldest element and counts one too many |
| Fifos.Fifo.Pop | vecoo/cameratest/src/camera_encoder.c:228-228 | FIFO_Pop of fifo.c (lines 45 to 68): takes the oldest element, or reports that there is none |
| Fifos.Fifo.FullTest | vecoo/cameratest/src/camera_capture.c:117-117 | on the ring created here, exactly when the test of FIFO_Push sees a full ring |
| Fifos.MissesFull | vecoo/cameratest/src/camera_capture.c:198-198 | a ring filled, emptied and filled again takes one more push; the next pop yields that newest element and the oldest one is lost |
| BufferHandoff.StepInv | vecoo/cameratest/src/camera_capture.c:188-201 | every step of either thread keeps ownership, the semaphore count, the mutex and the order |
| BufferHandoff.HandoffIsSafe | vecoo/cameratest/src/camera_encoder.c:224-304 | over every interleaving each buffer has one owner, no pop meets an empty FIFO, no push a full one, and capture order is kept |
| BufferHandoff.HandoffFromStart | vecoo/cameratest/src/camera_encoder.c:224-304 | the same from the start of the two threads on |
| BufferHandoff.NoDeadlock | vecoo/cameratest/src/camera_encoder.c:224-304 | in every reachable state some step other than a failed DQBUF can be taken |
| BufferHandoff.ManyRounds | vecoo/cameratest/src/camera_encoder.c:219-320 | any number of frames can go round, in any order of the buffers, each decoded or not, and are finished in that order |
| BufferHandoff.ReadsOwnUnlessPhysical | vecoo/cameratest/src/camera_encoder.c:250-316 | over every run the encoder reads no buffer while the driver has it, if and only if it does not read capture buffers by physical address |
| BufferHandoff.ReadsOwnIffDecoder | vecoo/cameratest/src/camera_encoder.c:242-256 | over every run nothing, the display layer included, reads a buffer while the driver has it, if and only if there is a decoder |
| BufferHandoff.CapturePush | vecoo/cameratest/src/camera_capture.c:196-200 | the ring of fifo.c takes the buffer the capture thread holds |
| BufferHandoff.EncoderPop | vecoo/cameratest/src/camera_encoder.c:225-229 | it yields the oldest captured buffer that is not finished |
| PixelFormats.NV12ToYUV420P | vecoo/cameratest/src/common.c:20-35 | Y stays, the chroma plane becomes its even bytes and then its odd ones, for every size |
| PixelFormats.PlanarIsPermutation | vecoo/cameratest/src/common.c:28-33 | the rewritten plane has the same bytes |
| PixelFormats.WeavingRestores | vecoo/cameratest/src/common.c:28-33 | interleaving its halves restores the plane |
| PixelFormats.YUYVToUYVY | vecoo/cameratest/src/common.c:37-46 | swaps the bytes of every complete pair |
| PixelFormats.SwappedTwice | vecoo/cameratest/src/common.c:41-44 | doing it twice restores the buffer, odd lengths included |
| Registry.RtspServer.AddMeidaSession | rtsp/src/src/RtspServer.cpp:42-55 | the object is registered under its id and its suffix of that moment, once; 0 reports that the suffix was there |
| Registry.RtspServer.RemoveMeidaSession | rtsp/src/src/RtspServer.cpp:57-67 | removes the session and the suffix it has by then |
| Registry.RtspServer.RenameRegistered | rtsp/src/src/MediaSession.h:46-47 | a registered session gets another suffix, and the map of suffixes does not know |
| Registry.RtspServer.LookBySuffix | rtsp/src/src/RtspServer.cpp:69-81 | the entry the suffix leads to, which is inserted as null if it is missing; where the maps agree, exactly the session with that suffix |
| Registry.RtspServer.LookById | rtsp/src/src/RtspServer.cpp:83-94 | finds the session with that id |
| Registry.StepAgrees | rtsp/src/src/RtspServer.cpp:42-67 | a call keeps the two maps inverse if and only if it does not give a registered session another suffix |
| Registry.AgreeUnlessRenamed | rtsp/src/src/RtspServer.cpp:42-81 | over every sequence of calls the maps are inverse at every moment if and only if no registered session is given another suffix |
| Registry.RegisteredIff | rtsp/src/src/RtspServer.cpp:42-67 | over every run without such a rename a suffix leads to a session if and only if a call has added them while the suffix was free and none has removed the session since |
| Registry.LookInserts | rtsp/src/src/RtspServer.cpp:69-81 | a lookup by suffix inserts an entry exactly when the suffix leads to no session |
| Registry.RenameThenRemove | rtsp/src/src/RtspServer.cpp:57-81 | the run add, rename, remove leaves the old suffix dangling, and looking it up inserts a null entry |
| Registry.RenameThenAdd | rtsp/src/src/RtspServer.cpp:42-55 | a renamed session that is added again has two suffixes that lead to it |
| Pusher.RtspConnection.HandleRead | rtsp/src/src/RtspConnection.cpp:55-90 | one read: end, refuse, count, and dispatch on the method last sent |
| Pusher.RtspConnection.SendSetup | rtsp/src/src/RtspConnection.cpp:600-653 | SETUP for the next channel with a source, or RECORD; without a session it closes |
| Pusher.Handshake | rtsp/src/src/RtspConnection.cpp:530-659 | in every run that leaves the connection open the requests are OPTIONS, ANNOUNCE, a SETUP per source and RECORD; recording starts when all are set up; later responses send nothing |
| Pusher.ClosedIff | rtsp/src/src/RtspConnection.cpp:55-84 | it is closed exactly when a read has ended or been refused, or a request could not be made or sent |
| Pusher.CSeqs | rtsp/src/src/RtspMessage.cpp:384-407 | the k-th request carries k less the incomplete reads before it |
| Pusher.NumberedFromOne | rtsp/src/src/RtspMessage.cpp:384-407 | the k-th request has CSeq k for every k if and only if every read before the last request was a whole response |
| Pusher.SplitResponse | rtsp/src/src/RtspConnection.cpp:55-90 | a response to OPTIONS in two reads: ANNOUNCE carries CSeq 1 again, and SETUP CSeq 2 |
| Pusher.ClosedStays | rtsp/src/src/RtspConnection.cpp:55-58 | once it is closed nothing is sent |

## Left out

- FrameReceiver.Client.HandleRecord: a write past the end of the frame buffer has no meaning in C; the model stops with a flag there, and the delivery results show that frames that fit never raise it; the buffer may have any size from 1000 bytes on, where main allocates 4096*2160*3.
- FrameTimeout.TimeoutIsClean: takes a buffer of less than 4 GB, which a record can announce.
- FrameSender.Sender.SendStream: speaks of one connection; the accept thread may replace the client between any two sends. FrameSender.LateClient says what the new one gets of a frame under way, and the second part of FrameSender.ChosenIs what follows: every frame, without waiting for an I frame.
- RtpConnections.RtpConnection.SetupRtpOverUdp: ports and peer addresses are left out; a descriptor stands for the kind of its socket, and one that has been closed takes bytes or fails as the network says, because its number may be in use again.
- RtpConnections.RtpConnection.SetupRtpOverMulticast: address and port are left out.
- RtpConnections.RtpConnection.HandleWrite: handleClose is a teardown of the connection, which the session then no longer reaches.
- RtpRuns.TcpStreamSplits: where a response ends is a function of the bytes that the client is given; RtpPacket.EmptyLineDelimits shows it for responses without a body.
- RtpDelivery.EndToEnd: the receiver reads every payload that is not a fragment as one NAL unit; aggregation packets of RFC 6184 and RFC 7798, which the sources never build, are not modelled. Over TCP it gets the packets accepted, of which RtpRuns.TcpStreamSplits says how far they have arrived, and RtpDelivery.FromTheBytes that they can be read from the bytes.
- BufferHandoff.HandoffIsSafe: QBUF succeeds; a QBUF that fails loses its buffer.
- Registry.RtspServer.RemoveMeidaSession: removing a null entry, which a lookup may have left, is a null dereference in the source and excluded.
- Pusher.Handshake: starts with an OPTIONS request that the socket takes.
- PixelFormats.NV12ToYUV420P: the source's temporary copy is a value, and its size fits an int.
- Ports and addresses of RtpConnection, and the RTCP channel.
- The request side of RtspConnection, the parsing of RTSP text and the formatting of responses and session descriptions.
- Sockets, select, the event loop, timers, threads and logging.
- The vendor calls for capture, encoding, decoding and display; handing a buffer to the decoder appends a snapshot to a list.
- The other transports (udp_client, udp_server, v5_server_local, v5_client_local, tcp_server_local), which are variants of the one modelled.
- The AAC and G.711 sources, which send one packet a frame.
- Shutdown of the camera pipeline and the recorder.
