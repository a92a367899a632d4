# A verified model of a DLMS/COSEM protocol stack

This project models the hard core of a layered DLMS/COSEM stack in Dafny and proves what
the stack is for: that frames, APDUs and keys survive the way there and back, that two
ends of a link agree, and that this stays so over every run. `dafny verify dfyconfig.toml`
verifies all of it.

Every layer comes in two forms. Specification functions say what an operation means on
plain values (octet sequences, datatypes). Beside them, methods and classes do the work the
way the stack does it (moving cursors, bounded buffers, fields updated in place, loops) and
are proved to compute exactly these functions. The main results are lemmas about the
functions, for all inputs and all runs. What the functions mean is pinned down a second
time, without them: octets are written out value by value, the check sequence is a
polynomial division, the key wrap a shift register.

| module | layer |
|---|---|
| `Bytes`, `Numbers` | octets, big-endian numbers, buffers written at an offset |
| `HdlcTypes`, `HdlcAddressCodec`, `HdlcCrc`, `HdlcPolynomial`, `HdlcCodec`, `HdlcWire` | HDLC frame format type 3: addresses, check sequences, frames, and their octets written out |
| `StreamDecoding`, `HdlcStream`, `HdlcSegmentation` | incremental decoding, segmentation and reassembly |
| `HdlcNegotiation`, `HdlcSession`, `HdlcSessionObject`, `HdlcHandshake`, `HdlcLifecycle`, `HdlcWindow` | the session, its parameter negotiation, its end and its sliding windows |
| `Llc`, `HdlcProfile`, `HdlcDelivery`, `HdlcTraffic`, `HdlcBursts`, `HdlcChannel` | the profile channel: APDUs over LLC, segments, windows and acknowledgements |
| `Apdu`, `Axdr`, `ApduCursor`, `DlmsData`, `DlmsDataTypes`, `DlmsDataCodec` | A-XDR and the recursive xDLMS data, in general and type by type |
| `ServiceRequests`, `ServiceChoices`, `ServiceRequestCodec` | GET, SET and ACTION requests, in general and choice by choice |
| `Ber`, `Initiate`, `Acse`, `AcseCodec`, `Association`, `AssociationWire`, `AssociationDecisions`, `AssociationObjects` | AARQ/AARE and the association handshake |
| `Security`, `KeyWrap`, `KeyWrapRegister`, `Ciphering` | AES key wrap (sections 2.2.1 and 2.2.2 of RFC 3394), ciphered APDUs, invocation counters |
| `Wrapper` | WPDUs and their stream decoder |

## What the code needs and where it falls short

Each of these is a proved statement, with a concrete input where a property fails and the
exact condition under which it holds.

- Windows above seven break in-order delivery, and nothing in the session clamps them
  (`HdlcWindow.WindowsExact`).
- A server that was proposed limits and whose negotiated transmit length is below 23 cannot
  build its own UA (`HdlcHandshake.ResponseExact`).
- The reassembler subtracts unsigned sizes: an oversized payload that continues a pending
  frame slips past the limit (`HdlcSegmentation.PushKeepsLimitExact`).
- A frame with a header check sequence but no information is accepted and does not
  re-encode to itself (`HdlcCodec.EncodeInvertsDecode`).
- A complete frame whose source address is cut off is answered with NeedMoreData, so the
  stream decoder drops what it holds without reporting an error
  (`HdlcStream.BoundaryExact`).
- With low-level security or without authentication nothing bounds the calling title, but it
  arrives exactly when it has at most 125 octets (`Association.CallingTitleExact`). A longer
  one makes a request that does not encode or cannot be decoded, as for 126 to 253 octets
  (`Association.LongTitleFails`), or its length octet wraps and the server may accept a
  shorter title: 256 octets can pass for none (`Association.WrappedTitle`).
- A client with default limits leaves the parameter block out of its SNRM, so a server with
  other limits keeps them and the two ends disagree (`HdlcHandshake.PlainConnectAgreement`).
- An AARQ survives its round trip exactly when every raw field is one complete element:
  the encoder looks only at the declared tag (`Acse.AarqRoundTripExact`).
- A sender whose counter starts at 0 has its first APDU refused
  (`Ciphering.RecoveryExact`).

## Assumptions

- The block cipher of the key wrap is any pair of functions that undo each other on 16-octet
  blocks; the authenticated cipher is any seal/open pair in which opening succeeds exactly on
  what was sealed. Both exist (`KeyWrap.CipherExists`, `Ciphering.SoundCipherExists`).
- Limits are negotiated only when the SNRM carries the parameter block, which a client with
  default limits leaves out; without it each end keeps its own limits.
- Delivery over the profile needs windows from 1 to 7, chunks that fit a frame, the same
  non-zero maximum APDU size at both ends, a reassembly limit above it, and ends that take
  turns. A read on an empty line waits.
- Sizes are 64-bit numbers. Null pointers and allocation failures have no counterpart here.
- The channel and the byte stream are objects that hold what the next reads return and what
  was written, so every behaviour of a peer is some content of these objects.

## Model

| member | source | states |
|---|---|---|
| `HdlcDelivery.ProfileDelivery` | lib/dlms-profile/src/profile/hdlc_profile_channel.cpp:541-791 | For every interleaving of two profile channels over lines that lose nothing: no call ever fails, each end receives exactly the APDUs the other one sent, octet for octet and in order, the two ends alternate, and when an end may speak again everything sent before has arrived |
| `HdlcDelivery.PlayKeeps` | lib/dlms-profile/src/profile/hdlc_profile_channel.cpp:541-791 | Every run keeps the explicit description of both ends and both lines: which acknowledgements and which numbered chunks are under way, what the listener holds, and what is still to be said |
| `HdlcDelivery.WindowReopens` | lib/dlms-profile/src/profile/hdlc_profile_channel.cpp:561-575 | At either end, a sender that is blocked on its window can send again after the single next frame it reads |
| `HdlcDelivery.ProfileProgress` | lib/dlms-profile/src/profile/hdlc_profile_channel.cpp:541-715 | No deadlock and no livelock: every step that does anything leaves strictly less to do, and as long as no end may speak one of the two ends can step |
| `HdlcDelivery.ProfileCompletes` | lib/dlms-profile/src/profile/hdlc_profile_channel.cpp:541-715 | From every point of every run the two ends can finish within a number of steps bounded by what is left to do, and then everything sent has been received |
| `HdlcDelivery.AdvanceEffort` | lib/dlms-profile/src/profile/hdlc_profile_channel.cpp:561-591 | One pass of a send or receive loop, from any state of an end, either waits or lowers the work left in the end, on its lines and in what it wrote |
| `HdlcDelivery.HandshakeOpens` | lib/dlms-profile/src/profile/hdlc_profile_channel.cpp:166-224 | The state a successful SNRM/UA exchange leaves behind, with or without the parameter block, for limits with lengths up to 2030 octets and windows up to seven and for any non-zero maximum APDU size that a 64-bit number holds together with the LLC header, with the reassembly limit raised to it, is one from which delivery is guaranteed |
| `HdlcDelivery.DefaultsOpen` | lib/dlms-profile/src/profile/hdlc_profile_channel.cpp:345-404 | Two channels with the default limits and the default maximum APDU size of 65535, connected by an SNRM without the block, are in such a state, for every pair of addresses |
| `HdlcDelivery.TalkerSends` | lib/dlms-profile/src/profile/hdlc_profile_channel.cpp:569-590 | A sender whose window is open writes the next numbered chunk, marked as a segment unless it is the last, and the description of the link stays true |
| `HdlcDelivery.TalkerReads` | lib/dlms-profile/src/profile/hdlc_profile_channel.cpp:678-693 | A sender that reads an acknowledgement moves its count by exactly one and the description stays true |
| `HdlcDelivery.ListenerReadsChunk` | lib/dlms-profile/src/profile/hdlc_profile_channel.cpp:717-761 | A listener that reads the next chunk accepts it, acknowledges it when it is a segment and completes the APDU when it is the last, and the description stays true |
| `HdlcDelivery.ListenerReadsReady` | lib/dlms-profile/src/profile/hdlc_profile_channel.cpp:727-753 | Acknowledgements left over from a listener's own last turn are taken without disturbing the reassembly |
| `HdlcDelivery.ListenerDelivers` | lib/dlms-profile/src/profile/hdlc_profile_channel.cpp:305-326 | Handing over the APDU passes the turn: the description holds with the roles exchanged |
| `HdlcTraffic.TrafficLaw` | lib/dlms-profile/src/profile/hdlc_profile_channel.cpp:561-591 | In every run, whatever the ends are configured to and even if calls fail: an I-frame on either line has the poll/final bit exactly when it is not a segment, every other frame is an empty receive-ready frame with the bit, and all segments but the last have the negotiated length |
| `HdlcTraffic.PassLawful` | lib/dlms-profile/src/profile/hdlc_profile_channel.cpp:561-715 | One pass of a loop, from any state of an end, writes only such frames |
| `HdlcTraffic.SentFrame` | lib/dlms-profile/src/profile/hdlc_profile_channel.cpp:422-462 | Whatever its codec makes of it, a frame that an end sends has the expected numbers, flag, bit and payload |
| `HdlcProfile.Sends` | lib/dlms-profile/src/profile/hdlc_profile_channel.cpp:422-462 | An I-frame that fits both limits is built, decoded, marked and encoded again into the frame with the expected numbers, flag and payload |
| `HdlcProfile.TakesReady` | lib/dlms-profile/src/profile/hdlc_profile_channel.cpp:717-753 | A receive-ready frame in the window changes the acknowledgement and nothing else, whichever of the two routines reads it |
| `HdlcProfile.TakesSegment` | lib/dlms-profile/src/profile/hdlc_profile_channel.cpp:727-739 | A fitting segment joins what is pending, advances the receive sequence and is answered by one receive-ready frame with the new number |
| `HdlcProfile.TakesLast` | lib/dlms-profile/src/profile/hdlc_profile_channel.cpp:745-790 | The last segment completes the LPDU and queues exactly the APDU it carries |
| `HdlcProfile.RefusalClears` | lib/dlms-profile/src/profile/hdlc_profile_channel.cpp:727-761 | An I-frame or an unsegmented frame that is refused hands nothing over, is not answered and leaves nothing pending |
| `HdlcProfile.CompleteExact` | lib/dlms-profile/src/profile/hdlc_profile_channel.cpp:763-791 | Exactly which complete LPDUs are taken, by their octets and the maximum APDU size; the payload is queued, and a refusal changes nothing |
| `HdlcBursts.CallInRun` | lib/dlms-profile/src/profile/hdlc_profile_channel.cpp:541-715 | A send or receive call at either end inside any run, however the other end moves meanwhile: the frames the end has read since the call began make the whole call, over these frames alone, come to the same node with the same output; nothing on either line is lost or made up |
| `HdlcBursts.CallIsPlay` | lib/dlms-profile/src/profile/hdlc_profile_channel.cpp:541-715 | A whole send or receive call is a sequence of single steps of the delivery model in which only one end moves |
| `HdlcBursts.CallMore` | lib/dlms-profile/src/profile/hdlc_profile_channel.cpp:541-715 | A call over more reads goes on exactly where the call over fewer reads stopped, also when reads fail |
| `HdlcBursts.CompletedCall` | lib/dlms-profile/src/profile/hdlc_profile_channel.cpp:541-715 | A call that is over leaves all later reads alone |
| `HdlcBursts.ChunkAt` | lib/dlms-profile/src/profile/hdlc_profile_channel.cpp:553-573 | The frame the loop counts as the last one is exactly the one whose rest fits one chunk |
| `HdlcChannel.HdlcProfileChannel.ReceiveDecodedFrame` | lib/dlms-profile/src/profile/hdlc_profile_channel.cpp:607-676 | For any input, decodable or not: the call returns the first of all that the rest of the byte stream will bring, a frame or the error of a read, and takes exactly that away; status, frames held, buffer and reads left are those of the fetching function |
| `HdlcChannel.HdlcProfileChannel.ReadFrames` | lib/dlms-profile/src/profile/hdlc_profile_channel.cpp:615-675 | Status, frames held, buffer and reads left of the loop are those of the fetching function for any input, with empty reads, octets that do not decode and transport errors |
| `HdlcChannel.HdlcProfileChannel.BuildSessionInformationFrame` | lib/dlms-profile/src/profile/hdlc_profile_channel.cpp:422-462 | Returns the octets of the frame the model sends, the session state it leaves, and its status |
| `HdlcChannel.HdlcProfileChannel.SendSessionReceiveReady` | lib/dlms-profile/src/profile/hdlc_profile_channel.cpp:596-605 | Writes the octets of exactly the receive-ready frame of the model, or nothing |
| `HdlcChannel.HdlcProfileChannel.DecodeFrameToPendingApdu` | lib/dlms-profile/src/profile/hdlc_profile_channel.cpp:717-761 | Reassembly, session, answer and queued APDUs change as in the model of one received frame, and the answer is what is written |
| `HdlcChannel.HdlcProfileChannel.DecodeCompleteInformationToPendingApdu` | lib/dlms-profile/src/profile/hdlc_profile_channel.cpp:763-791 | Queues the APDU of a complete LPDU or returns the status of what is wrong with it |
| `HdlcChannel.HdlcProfileChannel.TakeControlFrame` | lib/dlms-profile/src/profile/hdlc_profile_channel.cpp:685-692 | A frame read to open the window is handled as in the model |
| `HdlcChannel.HdlcProfileChannel.ReceiveNextApdu` | lib/dlms-profile/src/profile/hdlc_profile_channel.cpp:695-715 | For any input and each status the loop returns: it has come as far, with the same state, reads left and octets written, as the same end comes pass by pass |
| `HdlcChannel.HdlcProfileChannel.ReceiveApdu` | lib/dlms-profile/src/profile/hdlc_profile_channel.cpp:305-326 | For any input the call ends in the state, with the APDU, the status, the reads left and the octets written that the same end reaches pass by pass |
| `HdlcChannel.HdlcProfileChannel.ReceiveSessionControlFrame` | lib/dlms-profile/src/profile/hdlc_profile_channel.cpp:678-693 | Reads one frame and takes it as the model does, or returns the error of the read and changes nothing else |
| `HdlcChannel.HdlcProfileChannel.OpenWindow` | lib/dlms-profile/src/profile/hdlc_profile_channel.cpp:562-567 | For any input: reads at most one frame and then may send, or stops with the status and in the state in which the model stops |
| `HdlcChannel.HdlcProfileChannel.SendChunk` | lib/dlms-profile/src/profile/hdlc_profile_channel.cpp:562-590 | For any input one pass of the send loop is one or two steps of the model, or ends the call as the model ends it |
| `HdlcChannel.HdlcProfileChannel.SendChunks` | lib/dlms-profile/src/profile/hdlc_profile_channel.cpp:556-593 | For any input the loop over the chunks ends in the state, with the status, the reads left and the octets written that the same end reaches pass by pass |
| `HdlcChannel.HdlcProfileChannel.SendSessionInformation` | lib/dlms-profile/src/profile/hdlc_profile_channel.cpp:541-594 | Not connected: nothing happens. Otherwise, for any input, state, reads left, octets written and status are those of the same end pass by pass |
| `HdlcChannel.HdlcProfileChannel.SendApdu` | lib/dlms-profile/src/profile/hdlc_profile_channel.cpp:274-295 | Too large an APDU is refused, and so is any APDU while not connected; otherwise, for any input, its LPDU is sent as the same end sends it pass by pass |
| `HdlcChannel.AdvanceWritesDecodable` | lib/dlms-profile/src/profile/hdlc_profile_channel.cpp:422-462 | Every frame an end ever writes is accepted by a decoder with the default limits |
| `HdlcChannel.LineIsClean` | lib/dlms-profile/src/profile/hdlc_profile_channel.cpp:607-676 | The octets of such frames, cut into any non-empty reads, bring a channel just these frames and no error |
| `HdlcChannel.LinesCarryOctets` | lib/dlms-profile/src/profile/hdlc_profile_channel.cpp:422-462 | In every state of every run the frames under way in either direction are such frames, so that the delivery results hold on octets cut into any reads |
| `HdlcWindow.WindowSafety` | lib/dlms-hdlc/src/hdlc/hdlc_session.cpp:579-629 | In every run over channels that lose but do not reorder, with windows up to seven, what each end accepted is a prefix of what the other one built and unacknowledged frames never exceed the window |
| `HdlcWindow.DeliveryExact` | lib/dlms-hdlc/src/hdlc/hdlc_session.cpp:579-629 | An arriving frame is accepted exactly when it is supervisory or the I-frame that is due, counted without a modulus; its acknowledgement is never the reason for a rejection |
| `HdlcWindow.RunKeeps` | lib/dlms-hdlc/src/hdlc/hdlc_session.cpp:481-629 | The three-bit variables are the unbounded counters modulo 8 in every reachable state |
| `HdlcWindow.WindowsExact` | lib/dlms-hdlc/src/hdlc/hdlc_session.cpp:275-280 | In-order delivery holds in all runs exactly when both windows are at most seven |
| `HdlcWindow.OverrunBreaksOrder` | lib/dlms-hdlc/src/hdlc/hdlc_session.cpp:275-280 | With a window of eight or more, nine frames of which the first eight are lost make the ninth pass for the first |
| `HdlcWindow.PacketOnTheLine` | lib/dlms-hdlc/src/hdlc/hdlc_session.cpp:481-505 | The octets of a built I-frame decode to the frame the window model carries |
| `HdlcSession.RunConsistent` | lib/dlms-hdlc/src/hdlc/hdlc_session.cpp:296-756 | Over any sequence of builds and arbitrary received frames: unconnected states have zero sequence variables, only a client awaits a connection, a pending connect response means a disconnected server, and the outstanding count is within the window |
| `HdlcSession.FailureKeepsLink` | lib/dlms-hdlc/src/hdlc/hdlc_session.cpp:296-756 | Every failing call builds nothing and leaves the state and the sequence variables unchanged |
| `HdlcSession.StepConsistent` | lib/dlms-hdlc/src/hdlc/hdlc_session.cpp:296-756 | One call keeps that consistency and never changes role, addresses, configured limits or frame size |
| `HdlcSession.InformationControl` | lib/dlms-hdlc/src/hdlc/hdlc_session.cpp:31-40 | The control octet is an I-frame that carries exactly the given N(S), N(R) and poll/final bit |
| `HdlcSession.ReceiveReadyControl` | lib/dlms-hdlc/src/hdlc/hdlc_session.cpp:42-50 | The control octet is a receive-ready frame that carries exactly the given N(R) and poll/final bit |
| `HdlcLifecycle.DisconnectExchange` | lib/dlms-hdlc/src/hdlc/hdlc_session.cpp:423-464 | DISC and UA between two connected ends, over the octets: the request is built exactly when it fits, the peer stays connected until it has answered and holds the user information unchanged, and then both ends are disconnected with zero sequence variables; the answer can be given once |
| `HdlcLifecycle.PlainDisconnect` | lib/dlms-hdlc/src/hdlc/hdlc_session.cpp:417-464 | Without user information that exchange always succeeds, whatever was negotiated |
| `HdlcLifecycle.RefusalExchange` | lib/dlms-hdlc/src/hdlc/hdlc_session.cpp:466-479 | An SNRM whose block cannot be parsed: the server reports the error, owes a DM and no UA and stays disconnected, and the DM, over its octets, brings the client back to rest from any state |
| `HdlcLifecycle.DueExact` | lib/dlms-hdlc/src/hdlc/hdlc_session.cpp:631-756 | In every run of builds and arbitrary received frames a UA to an SNRM, a UA to a DISC or a DM is due exactly when some frame asked for it and it has not been given since |
| `HdlcLifecycle.ConnectedExact` | lib/dlms-hdlc/src/hdlc/hdlc_session.cpp:296-756 | An end becomes connected exactly by a UA it sends as an answer or receives while it waits for one, and stops being connected exactly by a DISC or UA it sends or a DM it receives |
| `HdlcWire.SnrmOnTheLine` | lib/dlms-hdlc/src/hdlc/hdlc_session.cpp:310-358 | The octets of an SNRM: control 93h, addresses by role, and the four limits with their tags, zero replaced by 128 and 1; or the reason why it does not fit |
| `HdlcWire.UaOnTheLine` | lib/dlms-hdlc/src/hdlc/hdlc_session.cpp:360-415 | The octets of a UA to an SNRM: control 73h and each proposal cut down to what the server can do in that direction |
| `HdlcWire.InformationOnTheLine` | lib/dlms-hdlc/src/hdlc/hdlc_session.cpp:481-505 | The octets of an I-frame: N(R), the poll/final bit and N(S) from the high bit down |
| `HdlcWire.ReadyOnTheLine` | lib/dlms-hdlc/src/hdlc/hdlc_session.cpp:507-520 | The octets of a receive-ready frame |
| `HdlcSessionObject.HdlcSessionEndpoint.constructor` | lib/dlms-hdlc/src/hdlc/hdlc_session.cpp:219-253 | A new session is the initial value of the transitions, and consistent |
| `HdlcSessionObject.HdlcSessionEndpoint.CanSendInformationFrame` | lib/dlms-hdlc/src/hdlc/hdlc_session.cpp:275-280 | True exactly when the outstanding count modulo 8 is below the window |
| `HdlcSessionObject.HdlcSessionEndpoint.BuildConnectRequest` | lib/dlms-hdlc/src/hdlc/hdlc_session.cpp:310-358 | Performs the connect-request transition on the fields and returns its octets and status |
| `HdlcSessionObject.HdlcSessionEndpoint.BuildConnectResponse` | lib/dlms-hdlc/src/hdlc/hdlc_session.cpp:360-415 | Performs the connect-response transition, taking over the negotiated limits before building the UA |
| `HdlcSessionObject.HdlcSessionEndpoint.BuildDisconnectRequest` | lib/dlms-hdlc/src/hdlc/hdlc_session.cpp:423-444 | Performs the disconnect-request transition |
| `HdlcSessionObject.HdlcSessionEndpoint.BuildDisconnectResponse` | lib/dlms-hdlc/src/hdlc/hdlc_session.cpp:446-464 | Performs the disconnect-response transition |
| `HdlcSessionObject.HdlcSessionEndpoint.BuildDmResponse` | lib/dlms-hdlc/src/hdlc/hdlc_session.cpp:466-479 | Performs the DM transition |
| `HdlcSessionObject.HdlcSessionEndpoint.BuildInformationFrame` | lib/dlms-hdlc/src/hdlc/hdlc_session.cpp:481-505 | Performs the I-frame transition: the send sequence moves only when a frame was built |
| `HdlcSessionObject.HdlcSessionEndpoint.BuildReceiveReadyFrame` | lib/dlms-hdlc/src/hdlc/hdlc_session.cpp:507-520 | Builds the receive-ready frame and changes nothing |
| `HdlcSessionObject.HdlcSessionEndpoint.ReceiveFrame` | lib/dlms-hdlc/src/hdlc/hdlc_session.cpp:522-542 | Performs the transition of a received frame of any kind |
| `HdlcSessionObject.HdlcSessionEndpoint.ReceiveInformationFrame` | lib/dlms-hdlc/src/hdlc/hdlc_session.cpp:579-602 | Performs the transition of a received I-frame |
| `HdlcSessionObject.HdlcSessionEndpoint.ReceiveSupervisoryFrame` | lib/dlms-hdlc/src/hdlc/hdlc_session.cpp:604-629 | Performs the transition of a received supervisory frame |
| `HdlcSessionObject.HdlcSessionEndpoint.ReceiveSnrmFrame` | lib/dlms-hdlc/src/hdlc/hdlc_session.cpp:639-685 | Performs the transition of a received SNRM |
| `HdlcSessionObject.HdlcSessionEndpoint.ReceiveUaFrame` | lib/dlms-hdlc/src/hdlc/hdlc_session.cpp:687-731 | Performs the transition of a received UA |
| `HdlcSessionObject.HdlcSessionEndpoint.ReceiveUnnumberedFrame` | lib/dlms-hdlc/src/hdlc/hdlc_session.cpp:631-756 | Performs the transition of a received unnumbered frame |
| `HdlcHandshake.NegotiationAgreement` | lib/dlms-hdlc/src/hdlc/hdlc_session.cpp:296-415 | With the parameter block both ends are connected with the same limits, each the minimum of what its two ends can do, exactly when the server's agreed length is at least 23; user information arrives unchanged. Without the block both always connect and each keeps its own limits. Otherwise the server stays disconnected and answers nothing |
| `HdlcHandshake.PlainConnectAgreement` | lib/dlms-hdlc/src/hdlc/hdlc_session.cpp:296-300 | A plain connect leaves the block out for default limits: the two ends then hold the same limits exactly when the client's limits are not the defaults or the server's are |
| `HdlcHandshake.PlainRequestBuilt` | lib/dlms-hdlc/src/hdlc/hdlc_session.cpp:310-358 | An SNRM without the block can always be built |
| `HdlcHandshake.ResponseExact` | lib/dlms-hdlc/src/hdlc/hdlc_session.cpp:360-415 | The UA can be built exactly when there is no block to confirm or the negotiated length leaves room for its 23 octets |
| `HdlcHandshake.RequestArrives` | lib/dlms-hdlc/src/hdlc/hdlc_session.cpp:310-358 | The server receives exactly the proposal the client encoded, or none, and its user information |
| `HdlcNegotiation.BlockRoundTrip` | lib/dlms-hdlc/src/hdlc/hdlc_session.cpp:87-181 | Parsing an encoded parameter block with anything behind it gives back the parameters and the place where the user information begins |
| `HdlcNegotiation.GroupExact` | lib/dlms-hdlc/src/hdlc/hdlc_session.cpp:110-137 | A group parses exactly when it is a series of tags 5 to 8 with values of one to four octets, and of several values for a tag the last one counts |
| `HdlcNegotiation.FieldExact` | lib/dlms-hdlc/src/hdlc/hdlc_session.cpp:87-108 | A field is read as a block exactly when it begins with 81 80; a block that runs past its end is refused |
| `HdlcNegotiation.ParseSnrmInfoField` | lib/dlms-hdlc/src/hdlc/hdlc_session.cpp:87-140 | The parsing loop computes the parsed parameters, the consumed size, or the error of the parsing function |
| `HdlcSegmentation.PipelineRoundTrip` | lib/dlms-hdlc/src/hdlc/hdlc_segmentation.cpp:62-107 | With default limits, information that is segmented, encoded, concatenated, cut into arbitrary chunks, stream-decoded and reassembled comes back whole exactly when it has at most 65535 octets, and every segment encodes |
| `HdlcSegmentation.ReassembleSegments` | lib/dlms-hdlc/src/hdlc/hdlc_segmentation.cpp:116-174 | Segmenting and reassembling gives the whole back exactly when it fits the reassembly limit; otherwise the overflow is reported and nothing is pending |
| `HdlcSegmentation.RunInvariant` | lib/dlms-hdlc/src/hdlc/hdlc_segmentation.cpp:116-180 | Over any pushes with payloads within the limit: the pending size never exceeds the limit, it is the concatenation since the last completion or reset, completed frames carry all of it, and errors leave nothing pending |
| `HdlcSegmentation.PushKeepsLimitExact` | lib/dlms-hdlc/src/hdlc/hdlc_segmentation.cpp:150-154 | One push keeps the limit exactly when nothing is pending, the frame does not continue it, or its own payload is within the limit: the unsigned difference wraps otherwise |
| `HdlcSegmentation.DefaultSegmentEncodes` | lib/dlms-hdlc/src/hdlc/hdlc_segmentation.cpp:11-17 | A segment of the default size encodes for every legal pair of addresses |
| `HdlcSegmentation.SegmentInformation` | lib/dlms-hdlc/src/hdlc/hdlc_segmentation.cpp:62-107 | The loop returns all segments: full and marked, except for the last |
| `HdlcSegmentation.SegmentsExact` | lib/dlms-hdlc/src/hdlc/hdlc_segmentation.cpp:62-107 | The segments hold the information in order, all but the last full and marked, the last one unmarked and empty only if there is nothing to send, each otherwise equal to the base frame |
| `HdlcSegmentation.ForeignExact` | lib/dlms-hdlc/src/hdlc/hdlc_segmentation.cpp:116-174 | A frame of another kind or between other stations, and no other, is refused as a SegmentationError while something is pending |
| `HdlcSegmentation.HdlcReassembler.Push` | lib/dlms-hdlc/src/hdlc/hdlc_segmentation.cpp:116-174 | The fields, the status and the completed frame are those of the reassembly step |
| `HdlcSegmentation.HdlcReassembler.Reset` | lib/dlms-hdlc/src/hdlc/hdlc_segmentation.cpp:176-180 | Nothing is pending |
| `StreamDecoding.ChunkingIndependence` | lib/dlms-hdlc/src/hdlc/hdlc_stream_decoder.cpp:36-125 | For every decoder whose decisions survive more input, the frames and the first failure do not depend on how the stream is cut into pushes |
| `StreamDecoding.ScanAppend` | lib/dlms-hdlc/src/hdlc/hdlc_stream_decoder.cpp:36-125 | Scanning more input continues exactly where scanning less input stopped |
| `HdlcStream.HdlcStreamDecoder.Push` | lib/dlms-hdlc/src/hdlc/hdlc_stream_decoder.cpp:36-125 | Frames, retained buffer and status are those of scanning the buffered octets followed by the chunk; an error drops the buffer |
| `HdlcStream.StepStable` | lib/dlms-hdlc/src/hdlc/hdlc_stream_decoder.cpp:54-124 | More input never undoes what the HDLC decoder has decided |
| `HdlcStream.StreamDeliversFrames` | lib/dlms-hdlc/src/hdlc/hdlc_stream_decoder.cpp:36-125 | Encoded frames come out as they went in, for every chunking |
| `HdlcStream.WaitingBufferBound` | lib/dlms-hdlc/src/hdlc/hdlc_stream_decoder.cpp:54-124 | After a push without error fewer than three octets or less than a maximum frame is retained |
| `HdlcStream.NoiseLaw` | lib/dlms-hdlc/src/hdlc/hdlc_stream_decoder.cpp:54-70 | Octets before a flag either change nothing or end the push with InvalidFlag, as the options say |
| `HdlcStream.VisibleChunkingIndependence` | lib/dlms-hdlc/src/hdlc/hdlc_stream_decoder.cpp:36-125 | What a caller sees up to the first error depends on the concatenated input only, unless a complete frame with a truncated source address stands at a boundary the decoder reaches |
| `HdlcStream.SilentFailureExact` | lib/dlms-hdlc/src/hdlc/hdlc_stream_decoder.cpp:54-124 | A scan ends in a silent NeedMoreData failure exactly when such a frame stands at a boundary the decoder reaches |
| `HdlcStream.NeedMoreDataExact` | lib/dlms-hdlc/src/hdlc/hdlc_codec.cpp:207-352 | A complete frame is answered with NeedMoreData exactly when its source address runs into the end of the frame |
| `HdlcStream.BoundaryExact` | lib/dlms-hdlc/src/hdlc/hdlc_stream_decoder.cpp:96-124 | A cut right after a complete frame is invisible, whatever follows, exactly when that frame has no truncated source address |
| `HdlcStream.TruncatedFrameExists` | lib/dlms-hdlc/src/hdlc/hdlc_stream_decoder.cpp:96-124 | Such a frame exists: eight octets with a four-octet destination |
| `HdlcStream.PushUntilError` | lib/dlms-hdlc/src/hdlc/hdlc_stream_decoder.cpp:36-125 | A caller that pushes until an error sees exactly the observation the theorems are about |
| `HdlcCodec.DecodeInvertsEncode` | lib/dlms-hdlc/src/hdlc/hdlc_codec.cpp:77-170 | Every frame that encodes decodes to the same frame under the same limits |
| `HdlcCodec.EncodeInvertsDecode` | lib/dlms-hdlc/src/hdlc/hdlc_codec.cpp:207-352 | Every accepted input re-encodes to exactly itself, except for a header check sequence without information, which does not |
| `HdlcCodec.BareChecksumAccepted` | lib/dlms-hdlc/src/hdlc/hdlc_codec.cpp:303-316 | For every address pair and control field there is an accepted input with a bare header check sequence |
| `HdlcCodec.BurstRejected` | lib/dlms-hdlc/src/hdlc/hdlc_codec.cpp:207-352 | Changing any one or two adjacent octets of an accepted frame makes it be rejected |
| `HdlcCodec.InformationBurstStatus` | lib/dlms-hdlc/src/hdlc/hdlc_codec.cpp:309-322 | A change of one or two adjacent octets that stays within the information field of an accepted frame, of any length, is reported as InvalidFrameChecksum |
| `HdlcCodec.AcceptedResidue` | lib/dlms-hdlc/src/hdlc/hdlc_codec.cpp:309-322 | The covered octets of an accepted frame with their check sequence have the constant residue |
| `HdlcWire.FrameOnTheLine` | lib/dlms-hdlc/src/hdlc/hdlc_codec.cpp:77-170 | A frame octet by octet: flags, format type 3 with the segmentation bit and the length between the flags, both addresses, control, and the information between its two check sequences, each of them the complemented remainder of a polynomial division |
| `HdlcWire.FitsExact` | lib/dlms-hdlc/src/hdlc/hdlc_codec.cpp:18-110 | Exactly which frames encode under given limits, zero standing for a largest frame of 2049 octets and for no limit of the information field |
| `HdlcWire.ControlExact` | lib/dlms-hdlc/src/hdlc/hdlc_control.cpp:8-55 | Exactly which octets are control fields: all I- and S-frames and six unnumbered frames with either bit |
| `HdlcCodec.EncodeFrameToBuffer` | lib/dlms-hdlc/src/hdlc/hdlc_codec.cpp:77-170 | Writes exactly the frame's octets and touches nothing else, or reports the first reason and touches nothing |
| `HdlcCodec.DecodeFrameFromBuffer` | lib/dlms-hdlc/src/hdlc/hdlc_codec.cpp:207-352 | Returns the decoded frame and copies its information, or the first error in order, and touches nothing then |
| `HdlcCodec.DecodeFrameToVector` | lib/dlms-hdlc/src/hdlc/hdlc_codec.cpp:354-399 | Status and frame of the decoding function |
| `HdlcCodec.EncodeFrameToVector` | lib/dlms-hdlc/src/hdlc/hdlc_codec.cpp:172-205 | Status and octets of the encoding function |
| `HdlcCrc.UpdateCrc` | lib/dlms-hdlc/src/hdlc/hdlc_crc.cpp:11-24 | The bit loop is the register step |
| `HdlcCrc.CalculateHdlcCrc` | lib/dlms-hdlc/src/hdlc/hdlc_crc.cpp:26-40 | The octet loop is the complemented register of the whole message |
| `HdlcCrc.BurstDetected` | lib/dlms-hdlc/src/hdlc/hdlc_crc.cpp:11-40 | Messages of equal length that differ only within two adjacent octets have different check sequences |
| `HdlcCrc.ResidueExact` | lib/dlms-hdlc/src/hdlc/hdlc_crc.cpp:26-57 | A message followed by two octets has the constant residue exactly when these are its own check sequence, low octet first |
| `HdlcPolynomial.CrcIsRemainder` | lib/dlms-hdlc/src/hdlc/hdlc_crc.cpp:8-41 | The check octets, as they are transmitted, are the complemented remainder of the message times x^16, its sixteen highest coefficients complemented, divided by x^16 + x^12 + x^5 + 1 |
| `HdlcPolynomial.RegisterIsRemainder` | lib/dlms-hdlc/src/hdlc/hdlc_crc.cpp:11-40 | Started from any value, the register after a message is the remainder of the message with that value added to its highest coefficients |
| `HdlcCrc.RegisterInjective` | lib/dlms-hdlc/src/hdlc/hdlc_crc.cpp:26-40 | A common tail never makes different registers equal |
| `HdlcAddressCodec.ParseInvertsEncode` | lib/dlms-hdlc/src/hdlc/hdlc_address.cpp:26-110 | An encoded address is parsed back, with its size, whatever follows |
| `HdlcAddressCodec.EncodeInvertsParse` | lib/dlms-hdlc/src/hdlc/hdlc_address.cpp:26-110 | What was parsed as an address is exactly the encoding of that address |
| `HdlcAddressCodec.FromBytes` | lib/dlms-hdlc/src/hdlc/hdlc_address.cpp:26-62 | The loop returns the address, the consumed size or the error of the parsing function |
| `HdlcAddressCodec.EncodeAddress` | lib/dlms-hdlc/src/hdlc/hdlc_address.cpp:82-110 | The loop writes exactly the address octets |
| `HdlcAddressCodec.ServerAddressInjective` | lib/dlms-hdlc/src/hdlc/hdlc_address.cpp:133-157 | Different logical and physical devices have different addresses |
| `HdlcWire.AddressOnTheLine` | lib/dlms-hdlc/src/hdlc/hdlc_address.cpp:82-110 | Addresses of one, two and four octets, written out: seven bits an octet, the highest first, the low bit set in the last octet alone |
| `HdlcWire.ServerOnTheLine` | lib/dlms-hdlc/src/hdlc/hdlc_address.cpp:133-157 | The octets of a server address in its three forms, and exactly which device numbers have one |
| `HdlcWire.ClientOnTheLine` | lib/dlms-hdlc/src/hdlc/hdlc_address.cpp:122-131 | The octet of a client address, and exactly which numbers have one |
| `Llc.LpduRoundTrip` | lib/dlms-llc/src/llc/llc_codec.cpp:65-130 | Decoding an encoded LPDU gives the payload back in both directions |
| `Llc.LpduExact` | lib/dlms-llc/src/llc/llc_codec.cpp:65-130 | The octets of the header for each direction, exactly which headers are accepted, and the order of the reasons to refuse one |
| `Llc.EncodeLpduToBuffer` | lib/dlms-llc/src/llc/llc_codec.cpp:22-63 | Writes exactly header and payload, or reports the size needed and touches nothing |
| `DlmsData.Trichotomy` | lib/dlms-apdu/src/apdu/data.cpp:97-293 | For every well-formed value: its exact encoding decodes to it (or gives InvalidData when it is too deep), every strict prefix gives NeedMoreData and every proper extension InvalidLength |
| `DlmsData.DecodeEncoded` | lib/dlms-apdu/src/apdu/data.cpp:97-270 | Decoding an encoding with anything behind it gives the value and leaves the rest exactly when the height is within the depth limit, and InvalidData otherwise |
| `DlmsData.CanonicalExact` | lib/dlms-apdu/src/apdu/data.cpp:32-40 | A value survives the round trip unchanged exactly when its integers are within their widths and unused fields are blank |
| `DlmsData.DecodedIsCanonical` | lib/dlms-apdu/src/apdu/data.cpp:97-199 | Whatever is decoded has no more nodes than octets consumed, is within the depth limit, well-formed and canonical |
| `DlmsData.DecodeStays` | lib/dlms-apdu/src/apdu/data.cpp:97-199 | More input changes neither a decoded value nor an error other than NeedMoreData |
| `DlmsDataTypes.SignedLaw` | lib/dlms-apdu/src/apdu/data.cpp:141-182 | Tags 0Fh, 10h, 05h and 14h: every value in the range of the type is its tag and 1, 2, 4 or 8 octets of two's complement, which decode to that signed value |
| `DlmsDataTypes.UnsignedLaw` | lib/dlms-apdu/src/apdu/data.cpp:146-185 | Tags 11h and 16h, 12h, 06h and 15h: every value in range is its tag and 1, 2, 4 or 8 octets, which decode to that unsigned value |
| `DlmsDataTypes.BooleanLaw` | lib/dlms-apdu/src/apdu/data.cpp:138-139 | Tag 03h: written as 0 or 1; any octet but 0 is read as true |
| `DlmsDataTypes.StringLaw` | lib/dlms-apdu/src/apdu/data.cpp:150-157 | Tag 09h: a length and the octets, which come back |
| `DlmsDataTypes.FixedLaw` | lib/dlms-apdu/src/apdu/data.cpp:187-194 | Tags 19h, 1Ah and 1Bh: twelve, five and four octets, which come back; other sizes are refused with InvalidLength |
| `DlmsDataTypes.NullLaw` | lib/dlms-apdu/src/apdu/data.cpp:118-119 | Tag 00h: the tag alone |
| `DlmsDataTypes.ListLaw` | lib/dlms-apdu/src/apdu/data.cpp:121-136 | Tags 01h and 02h: the number of elements and their encodings; encodes exactly when all elements do, and comes back element by element exactly when each is within one level less |
| `DlmsDataTypes.KnownExact` | lib/dlms-apdu/src/apdu/data.cpp:196-270 | No other tag is known, in either direction: UnsupportedDataType |
| `DlmsDataCodec.DecodeValue` | lib/dlms-apdu/src/apdu/data.cpp:97-199 | The recursive decoder moves the cursor and returns what the decoding function says, or its status |
| `DlmsDataCodec.DecodeElements` | lib/dlms-apdu/src/apdu/data.cpp:121-136 | The element loop reads exactly the list, stopping at the first error |
| `DlmsDataCodec.DecodeDlmsData` | lib/dlms-apdu/src/apdu/data.cpp:274-293 | Status and value of decoding a complete input |
| `DlmsDataCodec.EncodeValue` | lib/dlms-apdu/src/apdu/data.cpp:201-270 | The encoder reports OutputBufferTooSmall exactly when what it emits does not fit, otherwise the value's own fault or Ok; on success exactly the encoding was appended |
| `DlmsDataCodec.EncodeElements` | lib/dlms-apdu/src/apdu/data.cpp:219-225 | The element loop appends exactly the encodings of the elements, or reports the first obstacle |
| `DlmsDataCodec.EncodeData` | lib/dlms-client/src/client/client_data.cpp:48-67 | The doubling loop ends for every value and returns its encoding, or InvalidArgument for a malformed one, independently of any buffer size |
| `Axdr.LengthRoundTrip` | lib/dlms-apdu/src/apdu/axdr.cpp:64-127 | Every 64-bit length is read back from its octets, whatever follows |
| `Axdr.LengthOnTheLine` | lib/dlms-apdu/src/apdu/axdr.cpp:100-127 | The octets of a length: one below 128, otherwise their number with the high bit set and the octets without a leading zero |
| `Axdr.LengthExact` | lib/dlms-apdu/src/apdu/axdr.cpp:64-98 | Exactly which octets are read as a length, and as which |
| `Axdr.StringRoundTrip` | lib/dlms-apdu/src/apdu/axdr.cpp:129-166 | Every octet string is read back |
| `Axdr.FlagRoundTrip` | lib/dlms-apdu/src/apdu/axdr.cpp:43-62 | Every flag is read back |
| `ApduCursor.ApduReader.Next` | lib/dlms-apdu/src/apdu/apdu_reader.cpp:28-40 | Reads one octet and advances, or reports the lack and stays |
| `ApduCursor.ApduReader.Take` | lib/dlms-apdu/src/apdu/apdu_reader.cpp:106-120 | Reads a block and advances, or reports the lack and stays |
| `ApduCursor.ApduWriter.Put` | lib/dlms-apdu/src/apdu/apdu_writer.cpp:23-35 | Appends one octet, or reports the lack of room; what was written stays |
| `ApduCursor.ApduWriter.PutBytes` | lib/dlms-apdu/src/apdu/apdu_writer.cpp:88-107 | Appends a block, or reports the lack of room; what was written stays |
| `ApduCursor.ReadUnsigned` | lib/dlms-apdu/src/apdu/data.cpp:42-54 | The loop reads the big-endian number |
| `ApduCursor.WriteUnsigned` | lib/dlms-apdu/src/apdu/data.cpp:56-66 | The loop appends the low octets of the number, most significant first, or reports the lack of room |
| `ApduCursor.ReadAxdrLength` | lib/dlms-apdu/src/apdu/axdr.cpp:64-98 | Reads exactly what the length function reads, with its errors |
| `ApduCursor.WriteAxdrLength` | lib/dlms-apdu/src/apdu/axdr.cpp:100-127 | Appends exactly the length octets, or reports the lack of room |
| `ApduCursor.ReadAxdrOctetString` | lib/dlms-apdu/src/apdu/axdr.cpp:129-146 | Reads exactly the octet string |
| `ApduCursor.WriteAxdrOctetString` | lib/dlms-apdu/src/apdu/axdr.cpp:148-166 | Appends exactly the octet string, or reports the lack of room |
| `ApduCursor.ReadAxdrOptionalFlag` | lib/dlms-apdu/src/apdu/axdr.cpp:43-57 | Reads a flag and rejects anything but 0 and 1 |
| `ServiceRequests.RequestRoundTrip` | lib/dlms-apdu/src/apdu/set.cpp:309-486 | Every GET, SET and ACTION request of every choice, with lists of any length, that encodes decodes to the same choice and the same fields of that choice exactly when its data is within the depth limit, and gives InvalidData otherwise |
| `ServiceChoices.GetLaw` | lib/dlms-apdu/src/apdu/get.cpp:322-427 | The octets of each of the three GET choices, written out, and the record they decode to, field by field: the attribute with its selection, the block number, or the list |
| `ServiceChoices.SetLaw` | lib/dlms-apdu/src/apdu/set.cpp:309-486 | The same for the five SET choices: the attribute and its value, the attribute and its block, the block, the list and as many values, or the list and the block |
| `ServiceChoices.ActionLaw` | lib/dlms-apdu/src/apdu/action.cpp:388-549 | The same for the six ACTION choices: the method with its parameter, the block number, the list with parameters, a method or list and the block, or the block |
| `ServiceChoices.EncodesExact` | lib/dlms-apdu/src/apdu/set.cpp:411-486 | A request of any service encodes exactly when its choice is known and the data of that choice can be encoded, with as many values as list items |
| `ServiceChoices.ChoicesExact` | lib/dlms-apdu/src/apdu/action.cpp:470-486 | Every other choice is InvalidChoice when encoding and UnsupportedXdlmsService when decoding |
| `ServiceRequests.PartsRoundTrip` | lib/dlms-apdu/src/apdu/action.cpp:388-549 | The same for every sequence of parts a choice may consist of |
| `ServiceRequests.ItemsRoundTrip` | lib/dlms-apdu/src/apdu/get.cpp:362-425 | Lists of descriptors with their optional data survive the round trip exactly when all data is within the depth limit |
| `ServiceRequests.DescriptorRoundTrip` | lib/dlms-apdu/src/apdu/cosem_descriptor.cpp:6-72 | Descriptors are read back |
| `ServiceRequests.OptionalRoundTrip` | lib/dlms-apdu/src/apdu/get.cpp:39-78 | A selection or parameter is read back, present or absent |
| `ServiceRequests.BlockRoundTrip` | lib/dlms-apdu/src/apdu/set.cpp:105-129 | Data blocks are read back |
| `ServiceRequestCodec.DecodeGetRequest` | lib/dlms-apdu/src/apdu/get.cpp:322-388 | Status and record of the decoding function for GET requests |
| `ServiceRequestCodec.DecodeSetRequest` | lib/dlms-apdu/src/apdu/set.cpp:309-409 | Status and record of the decoding function for SET requests |
| `ServiceRequestCodec.DecodeActionRequest` | lib/dlms-apdu/src/apdu/action.cpp:388-486 | Status and record of the decoding function for ACTION requests |
| `ServiceRequestCodec.EncodeRequest` | lib/dlms-apdu/src/apdu/set.cpp:411-486 | The encoder of all three services reports the lack of room, the first fault or Ok, and on success appended exactly the encoding |
| `ServiceRequestCodec.DecodeDescriptor` | lib/dlms-apdu/src/apdu/cosem_descriptor.cpp:6-21 | Reads exactly a descriptor |
| `ServiceRequestCodec.EncodeDescriptor` | lib/dlms-apdu/src/apdu/cosem_descriptor.cpp:23-38 | Appends exactly a descriptor, or reports the lack of room |
| `ServiceRequestCodec.DecodeItems` | lib/dlms-apdu/src/apdu/get.cpp:364-377 | The list loop reads exactly the items, stopping at the first error |
| `ServiceRequestCodec.EncodeItems` | lib/dlms-apdu/src/apdu/get.cpp:418-423 | The list loop appends exactly the items, or reports the first obstacle |
| `KeyWrap.KeyWrapExact` | lib/dlms-security/src/security/suite0_key_wrap.cpp:116-207 | For every block permutation with its inverse: a wrapped key yields a key exactly when it is the wrapping of that key, and AuthenticationFailed exactly when it is the wrapping of none |
| `KeyWrapRegister.WrapIsShiftRegister` | lib/dlms-security/src/security/suite0_key_wrap.cpp:116-159 | A wrapped key is what twelve steps of the shift register of section 2.2.1 of RFC 3394 make of eight octets A6 and the key |
| `KeyWrapRegister.UnwrapIsShiftRegister` | lib/dlms-security/src/security/suite0_key_wrap.cpp:161-207 | Unwrapping is twelve steps of that register back; the key is accepted exactly when eight octets A6 come out |
| `KeyWrap.RoundsInvert` | lib/dlms-security/src/security/suite0_key_wrap.cpp:135-197 | Any number of steps back undoes as many steps forth, and the other way round |
| `KeyWrap.Wrap` | lib/dlms-security/src/security/suite0_key_wrap.cpp:116-159 | The nested loops compute the wrapping, or report the invalid key or input |
| `KeyWrap.Unwrap` | lib/dlms-security/src/security/suite0_key_wrap.cpp:161-207 | The nested loops compute the unwrapping, or report the invalid key or input |
| `KeyWrap.XorAWithT` | lib/dlms-security/src/security/suite0_key_wrap.cpp:106-112 | The loop, in place, adds the counter from the last octet on |
| `KeyWrap.XorCounterTwice` | lib/dlms-security/src/security/suite0_key_wrap.cpp:106-112 | Adding a counter twice changes nothing |
| `Ciphering.CipheredRun` | lib/dlms-security/src/security/ciphered_apdu_processor.cpp:144-311 | Whatever the order in which protected APDUs arrive, with gaps and repetitions, each is recovered octet for octet exactly when everything that arrived before it was sent before it, and is refused as a replay otherwise |
| `Ciphering.RecoveryExact` | lib/dlms-security/src/security/ciphered_apdu_processor.cpp:220-311 | A protected APDU is recovered exactly when its counter is not zero and above all counters accepted from that sender; zero gives InvalidInvocationCounter and the rest ReplayDetected, both without any change |
| `Ciphering.CountersNeverRepeat` | lib/dlms-security/src/security/in_memory_invocation_counter_store.cpp:26-36 | The counters in the APDUs a sender protects follow each other without repetition or wrap-around; once they are used up nothing is protected any more |
| `Ciphering.AcceptedIsSealed` | lib/dlms-security/src/security/ciphered_apdu_processor.cpp:271-311 | Whatever is accepted is the sealing of what is returned under a new counter; a refusal returns nothing and changes nothing |
| `Ciphering.ProtectedOnTheLine` | lib/dlms-security/src/security/ciphered_apdu_processor.cpp:144-218 | A protected APDU octet by octet; its nonce is the sender's title and the APDU's own octets 1 to 4, and the security control and the authentication key are authenticated with it |
| `Ciphering.NoncesDistinct` | lib/dlms-security/src/security/ciphered_apdu_processor.cpp:190-205 | No two APDUs of a run are sealed under the same nonce |
| `Ciphering.NonceOfApdu` | lib/dlms-security/src/security/ciphered_apdu_processor.cpp:262-290 | A receiver opens an APDU under the title of its sender followed by its octets 1 to 4 |
| `Ciphering.ProtectExact` | lib/dlms-security/src/security/ciphered_apdu_processor.cpp:144-218 | Exactly which contexts, keys and counters let a sender protect; without security APDUs pass unchanged in both directions; a refusal changes nothing |
| `Ciphering.CipheredApduProcessor.ProtectApdu` | lib/dlms-security/src/security/ciphered_apdu_processor.cpp:144-218 | Status, octets and counters of the protecting function |
| `Ciphering.CipheredApduProcessor.UnprotectApdu` | lib/dlms-security/src/security/ciphered_apdu_processor.cpp:220-311 | Status, octets and counters of the recovering function |
| `Ciphering.InMemoryInvocationCounterStore.Next` | lib/dlms-security/src/security/in_memory_invocation_counter_store.cpp:26-36 | Issues the next counter, or reports exhaustion and stays |
| `Ciphering.InMemoryInvocationCounterStore.Validate` | lib/dlms-security/src/security/in_memory_invocation_counter_store.cpp:38-51 | Accepts only a counter above the highest, and then only that one moves |
| `Ciphering.InMemoryInvocationCounterStore.ValidateRemoteForSystemTitle` | lib/dlms-security/src/security/in_memory_invocation_counter_store.cpp:53-81 | Accepts only a counter above the highest of that title, and then only that entry moves |
| `Ciphering.InMemoryInvocationCounterStore.ResetAfterKeyRotation` | lib/dlms-security/src/security/in_memory_invocation_counter_store.cpp:83-91 | Back to the initial counters |
| `Acse.AarqRoundTripExact` | lib/dlms-apdu/src/apdu/acse.cpp:369-432 | An AARQ that encodes decodes to the same fields in the same order and the same initiate request exactly when each of its fields is one complete element other than user information |
| `Acse.AarqRoundTrip` | lib/dlms-apdu/src/apdu/acse.cpp:188-231 | The same as an equation, for complete fields |
| `Acse.DecodedFieldsComplete` | lib/dlms-apdu/src/apdu/acse.cpp:384-411 | Every field the decoder returns is a complete element with its own tag |
| `Acse.AareRoundTrip` | lib/dlms-apdu/src/apdu/acse.cpp:434-511 | An AARE that encodes decodes to its fields, to the result and diagnostic noted in them, and to its initiate response |
| `Ber.TlvRoundTrip` | lib/dlms-apdu/src/apdu/ber.cpp:131-191 | Every element with a short tag is read back, whatever follows |
| `Ber.TlvFront` | lib/dlms-apdu/src/apdu/ber.cpp:131-162 | What an element took from the input is, on its own, just that element |
| `Ber.TlvStays` | lib/dlms-apdu/src/apdu/ber.cpp:58-162 | More input changes neither an element that was read nor an error other than NeedMoreData |
| `Initiate.RequestRoundTrip` | lib/dlms-apdu/src/apdu/initiate.cpp:63-190 | Every initiate request is read back, with its absent optionals absent |
| `Initiate.ResponseRoundTrip` | lib/dlms-apdu/src/apdu/initiate.cpp:192-272 | Every initiate response is read back |
| `Initiate.ConformanceRoundTrip` | lib/dlms-apdu/src/apdu/axdr.cpp:168-232 | Every conformance block is read back |
| `AcseCodec.ReadBerTlv` | lib/dlms-apdu/src/apdu/ber.cpp:131-162 | Reads exactly an element, with the errors of the reading function |
| `AcseCodec.WriteBerTlv` | lib/dlms-apdu/src/apdu/ber.cpp:164-191 | Appends exactly an element, or reports the unsupported tag or the lack of room |
| `AcseCodec.DecodeInitiateRequest` | lib/dlms-apdu/src/apdu/initiate.cpp:63-134 | Status and record of the reading function |
| `AcseCodec.EncodeInitiateRequest` | lib/dlms-apdu/src/apdu/initiate.cpp:136-190 | Appends exactly the request, or reports the lack of room |
| `AcseCodec.DecodeInitiateResponse` | lib/dlms-apdu/src/apdu/initiate.cpp:192-237 | Status and record of the reading function |
| `AcseCodec.EncodeInitiateResponse` | lib/dlms-apdu/src/apdu/initiate.cpp:239-272 | Appends exactly the response, or reports the lack of room |
| `AcseCodec.DecodeAarqApdu` | lib/dlms-apdu/src/apdu/acse.cpp:369-414 | The loop over the elements computes the decoded AARQ, or the first error in order |
| `AcseCodec.DecodeAareApdu` | lib/dlms-apdu/src/apdu/acse.cpp:434-493 | The loop over the elements computes the decoded AARE, or the first error in order |
| `AcseCodec.DecodeNestedInteger` | lib/dlms-apdu/src/apdu/acse.cpp:146-178 | Reads the integer, directly or one level deeper, or reports the error |
| `AcseCodec.EncodeFields` | lib/dlms-apdu/src/apdu/acse.cpp:214-224 | Copies the fields in order, stopping at user information or for lack of room |
| `AcseCodec.EncodeAarqApdu` | lib/dlms-apdu/src/apdu/acse.cpp:416-432 | Status and octets of the encoding function, through buffers of 256, 512 and 1024 octets |
| `AcseCodec.EncodeAareApdu` | lib/dlms-apdu/src/apdu/acse.cpp:495-511 | Status and octets of the encoding function, through the same buffers |
| `Association.AssociationAgreement` | lib/dlms-association/src/association/association_server.cpp:460-518 | Client and server both end up associated exactly when their modes and, with low-level security, their credentials agree; then they hold the same version, conformance, PDU size, VAA name and titles, otherwise neither is associated |
| `Association.LowLevelExact` | lib/dlms-association/src/association/association_server.cpp:285-317 | The security check accepts the fields of a client exactly when it uses low-level security with the expected credential |
| `Association.ServerDecides` | lib/dlms-association/src/association/association_server.cpp:627-691 | The server accepts a valid client's request exactly when modes and credentials agree, and learns its calling title |
| `Association.RequestArrives` | lib/dlms-association/src/association/association_client.cpp:460-515 | A valid client's AARQ always encodes and decodes to its fields and to its own version, conformance, PDU size and quality of service |
| `AssociationWire.AarqOnTheLine` | lib/dlms-association/src/association/association_client.cpp:460-515 | The octets of the AARQ of every client that can be understood, written out |
| `AssociationWire.AareOnTheLine` | lib/dlms-association/src/association/association_server.cpp:693-742 | The octets of the AARE of every valid server, written out |
| `AssociationWire.InitiateOnTheLine` | lib/dlms-apdu/src/apdu/initiate.cpp:136-190 | The octets of every initiate request and response, written out |
| `Association.OptionsExact` | lib/dlms-association/src/association/association_client.cpp:615-648 | Exactly which client and server options are accepted |
| `AssociationDecisions.AcceptExact` | lib/dlms-association/src/association/association_server.cpp:460-518 | Exactly which requests a server accepts, whoever sent them, told from the octets of their fields, and what it then holds: its own terms and the title the request names |
| `AssociationDecisions.EstablishExact` | lib/dlms-association/src/association/association_client.cpp:517-584 | Exactly which replies make a client associated, and on which terms; a rejection is reported with its result and diagnostic |
| `AssociationDecisions.ReplyTitleExact` | lib/dlms-association/src/association/association_client.cpp:550-570 | The title a client takes from a reply is that of the first responding or calling title field that holds one |
| `AssociationDecisions.NotedInteger` | lib/dlms-apdu/src/apdu/acse.cpp:434-493 | A result stands in its field as a signed integer, a diagnostic in one element more, and other fields note nothing |
| `AssociationDecisions.CheckExact` | lib/dlms-association/src/association/association_server.cpp:285-317 | The low-level security check accepts exactly the fields that hold requirement, mechanism and credential once each |
| `Association.ReplyArrives` | lib/dlms-association/src/association/association_server.cpp:693-742 | A valid server's AARE always encodes, and the client reads from it the server's terms and title |
| `Association.CallingTitleExact` | lib/dlms-association/src/association/association_client.cpp:615-648 | For valid and compatible options: both ends become associated and the server holds the client's calling title exactly when the title has at most 125 octets |
| `Association.LongTitleFails` | lib/dlms-association/src/association/association_client.cpp:615-648 | A calling title of 126 to 253 octets makes a request the server cannot decode: neither end is associated |
| `Association.WrappedTitle` | lib/dlms-association/src/association/association_client.cpp:615-648 | With a certain calling title of 256 octets and no authentication both ends become associated although the server holds an empty title |
| `AssociationObjects.AssociationClient.Establish` | lib/dlms-association/src/association/association_client.cpp:348-409 | State, result, status and the APDU sent are those of the two halves of the call, with the channel's next APDU as the answer |
| `AssociationObjects.AssociationClient.DecodeAareReply` | lib/dlms-association/src/association/association_client.cpp:517-584 | Status and result of the decoding function |
| `AssociationObjects.AssociationServer.AcceptRequest` | lib/dlms-association/src/association/association_server.cpp:460-518 | State, result, status and the APDU sent are those of the accepting function |
| `AssociationObjects.AssociationServer.DecodeAarqRequest` | lib/dlms-association/src/association/association_server.cpp:627-691 | Status and result of the deciding function |
| `AssociationObjects.ValidateLowLevelSecurityAarq` | lib/dlms-association/src/association/association_server.cpp:285-317 | The status of the low-level security check |
| `AssociationObjects.FindSingleField` | lib/dlms-association/src/association/association_server.cpp:164-180 | Finds a field exactly when it is the only one with its tag |
| `Wrapper.WpduExact` | lib/dlms-wrapper/src/wrapper/wrapper_codec.cpp:117-286 | Decoding gives a frame exactly for the encoding of that frame, and only for frames that fit the limits and name two stations |
| `Wrapper.WpduOnTheLine` | lib/dlms-wrapper/src/wrapper/wrapper_codec.cpp:117-176 | The octets of a WPDU: version 1, source, destination and length, two octets each, and the data |
| `Wrapper.AcceptedWpdu` | lib/dlms-wrapper/src/wrapper/wrapper_codec.cpp:178-286 | Exactly which octets are accepted as a WPDU: version 1, two stations, and as much data as announced, within the limits |
| `Wrapper.EncodeWpduToBuffer` | lib/dlms-wrapper/src/wrapper/wrapper_codec.cpp:117-176 | Writes exactly the frame's octets, or reports the first reason and touches nothing |
| `Wrapper.StepStable` | lib/dlms-wrapper/src/wrapper/wrapper_stream_decoder.cpp:34-79 | More input never undoes what the wrapper decoder has decided |
| `Wrapper.WrapperStreamDecoder.Push` | lib/dlms-wrapper/src/wrapper/wrapper_stream_decoder.cpp:14-82 | Frames, retained buffer and status are those of scanning the buffered octets followed by the chunk |
| `Wrapper.PushUntilError` | lib/dlms-wrapper/src/wrapper/wrapper_stream_decoder.cpp:14-82 | A caller that pushes until an error gets frames and error that depend on the concatenated input only |
| `Wrapper.StreamDeliversFrames` | lib/dlms-wrapper/src/wrapper/wrapper_stream_decoder.cpp:14-82 | Encoded frames come out as they went in, for every chunking |

## Left out

- Sockets, serial ports, TLS and timers (lib/dlms-transport): replaced by a stream of octets.
- Writes that the transport refuses: the byte stream takes whatever is written; reads may fail.
- Retries after a failed receive in the profile channel, and its trace events: they repeat or observe what is modelled.
- Profile channels without a session, whose single frame is covered by the frame codec.
- C interfaces and the Go port of the HDLC layer: marshalling, and a simpler variant of the same session.
- OpenSSL calls: abstract functions with inverse laws stand for them.
- GET, SET and ACTION responses, block transfer above the APDU layer, release APDUs: the parts they consist of are modelled, and their decoding adds easy members or is deliberately lenient.
- High-level security in the association handshake: its challenges come from strategy objects outside the stack.
- Date and time packing of the client, status-name and status-mapping tables, option defaults, COSEM registry, access tables, certificate store, endpoint and server dispatch: per-branch facts or simple lookups.
- The nesting check of BER values (lib/dlms-apdu/src/apdu/ber.cpp, lines 26-49), which no modelled decoder calls.
- After a failing read the position of the cursor is not specified, because every caller gives up there.
