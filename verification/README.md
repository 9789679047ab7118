# tlscensus, modelled and proved

tlscensus watches packets and reports every TLS handshake it can read, over TCP and over QUIC. This project models how
bytes become a report: record and frame parsing, QUIC Initial decryption, stream reassembly, the per-connection state
machines, the admission counters, the inventory, and the goroutines between capture and output. It proves that what is
reported is what was sent, whatever the network did to it on the way.

`dafny verify dfyconfig.toml` checks everything.

## Layout

| module | what it models |
|---|---|
| `Bytes`, `Reader`, `Grease` | big-endian numbers, cryptobyte reads and builders, GREASE codepoints |
| `Varint`, `Frames`, `Packet` | QUIC varints, frames and protected Initials: the decoder against the independent generator |
| `Records`, `ClientHello`, `ServerHello`, `Find` | the TLS parser: records, messages, hellos, and finding a hello in a stream |
| `HelloWire`, `ReplyWire` | hellos laid out as RFC 8446 has them, broken and unknown extensions included, and what the parser makes of each field |
| `EveryHello`, `EveryReply` | that every accepted hello is laid out so, and what else is refused with which error |
| `Synth`, `ServerSynth` | the independent builders of internal/tlssynth, and the print-then-parse theorems |
| `CryptoStream`, `QuicFlow`, `QuicTable`, `QuicRuns` | CRYPTO reassembly, one QUIC flow, the flow table as a class, and what a flow records over every run |
| `TcpStream`, `TcpRuns`, `TcpOutcome`, `Settling` | one TCP connection as a class, what holds after every sequence of deliveries, exactly when it is rejected and what it records, and when the server's answer depends on them |
| `Assembler`, `AssemblerRuns`, `AssemblerLimits`, `AssemblerReports` | the whole assembler as a state machine: its invariant, safety over every run, the extremes of its counters, and what becomes of reports |
| `Isolation` | that connections do not interfere |
| `EndToEnd` | from a hello's specification through every layer to the report |
| `Inventory`, `Ranking` | the accumulator against a group-by over the log; when the ranked output is reproducible |
| `Pipeline` | capture, sweep and finish as interleaved steps over two locks |
| `Ja4`, `Bpf` | the fingerprint's pre-hash strings; splitting a BPF read buffer |

Code that updates state in place is a class or a looping method, proved equal to a function on values; the theorems are
about those functions, so they hold of the methods.

## Main results

- **A TLS 1.3 handshake over TCP** (`EndToEnd.HandshakeInRuns`): both hellos printed from any specification, any record
  sizes, any segmentation and interleaving of the two directions, any other traffic in between. The handler is called
  exactly once about it, with both hellos as specified and the endpoints the right way round. The stream must have been
  admitted, the client's retained bytes must not end in `ErrNotTLS`, and nothing of the handshake may follow the
  ServerHello in the clear.
- **A handshake over QUIC** (`EndToEnd.QuicEndToEnd`): both hellos cut into CRYPTO frames, sealed into Initials that
  arrive in any order and any number of times, among any other traffic. The ClientHello is latched as specified, and once
  the ServerHello is in too the connection has been reported once, with both.
- **Connections do not interfere** (`Isolation.StreamsDoNotInterfere`, `FlowsDoNotInterfere`): in every run each is what
  its own bytes made of it.
- **Rejection is sound and exact**: a stream without a latched ClientHello is rejected if and only if some delivery left
  both directions past the prefix, or both with sixteen bytes that are no TLS (`TcpOutcome.RejectedIff`). The bytes of a
  rejected stream read, as a whole, as no ClientHello, and no continuation will unless both directions overran the cap
  (`Isolation.RejectionSoundInRuns`). What it can lose is a ClientHello that only a shorter part reads as, in front of a
  header that is refused.
- **What is recorded** (`TcpOutcome.OutcomeInRuns`, `QuicRuns.FlowRecordsInRuns`): over every run the endpoints, the
  first and the latest time, and the truncation mark are those of what the connection heard; so a live QUIC flow heard
  after `t` survives a sweep at `t` (`QuicRuns.ActiveFlowSurvives`).
- **The hello parsers on all bytes**: a message is accepted if and only if it is laid out in one of the ways of an
  independent grammar, broken extensions included (`EveryHello.AcceptedIff`, `EveryReply.AcceptedIff`), and then every
  field is what the last well-formed extension of its own type says (`HelloWire.ParsesMessage`,
  `ReplyWire.ParsesMessage`).
- **Opening undoes protection** (`Packet.OpenUndoesProtected`) for packet numbers of one to four bytes, any version and
  any token.
- **Segmentation does not matter** to the client if and only if there is no such ClientHello
  (`Settling.ClientIndependentIff`, `RefusedClientIndependentIff`), and to the server's answer if and only if nothing
  after its first hello changes it (`Settling.AnswerIndependentIffSteady`).
- **Accounting over every run** (`AssemblerRuns.Admission`, `EmissionOnce`, `Conservation`, `Drains`, `ReportsAreFinal`;
  `AssemblerReports.QuicFlowIsReported`).
- **The pipeline** (`Pipeline.DeliveredExactlyOnce`, `DeliveredInOrder`, `FinishReports`, `NeverStuck`,
  `NoLockUnderLock`) over every interleaving of any number of goroutines.
- **The accumulator is a group-by** (`Inventory.AccumulatorIsGroupBy`), caps included, over handshakes that are the same
  finding (`Inventory.SameKeyIff`).

## Where the code and its words differ

The model follows the code in each case.

- `FindServerHello` is documented to return the first real ServerHello, enriched from the messages after it; it returns
  the last (`Find.ServerHelloLastReal`, `ServerSynth.SecondHelloWins`). Even hellos that agree in everything but the
  group, or one that is repeated after the certificates, make a difference (`ServerSynth.SecondGroupWins`,
  `RepeatedHelloLosesChain`). Exactly when the documentation holds is `Find.FirstRealIsReturnedIff`.
- The server's answer is latched at its first reading, so a HelloRetryRequest, or a TLS 1.2 flight cut after its hello,
  is kept as it was then (`Settling.CutAfterRetryKeepsRetry`, `CutFlightLosesChain`); exactly when that matters is
  `Settling.AnswerIndependentIffSteady`.
- A stream already readable becomes `ErrNotTLS` when an oversized header follows (`Records.ReadableThenRefused`). In one
  segment with that header its ClientHello is lost; cut in front of it, it is latched
  (`EndToEnd.OversizedHeaderLosesClient`).
- A longer CRYPTO frame at an offset already held is ignored (`CryptoStream.LongerFrameIgnored`); what is reassembled all
  the same is `CryptoStream.ReassemblesIffFirstsCover`.
- `MaxStreams` bounds TCP streams and QUIC flows separately: `LiveStreams` reaches twice the cap
  (`AssemblerLimits.CapReachedTwice`), and passes it exactly as `AssemblerLimits.PassesCapIff` says.
- `StreamsDropped` is documented to count connections; QUIC drops count packets. The two agree exactly when no connection
  had an Initial refused twice (`AssemblerRuns.DropsAreConnectionsIff`, `AssemblerLimits.DropsAreNotConnections`).
  `TLSFlows + RejectedTCP + StreamsDropped <= Streams` holds exactly when the Initials refused at a full map fit
  (`AssemblerRuns.ConservationIff`), and for every cap some run breaks it (`AssemblerLimits.ConservationFails`).
- `aggDropped` is documented as distinct findings discarded; it counts handshakes. The two agree exactly when no finding
  that came too late came twice (`Inventory.DropsAreDistinctIff`, `DropsAreNotDistinct`).
- A row whose findings are at most "info" has no severity at all rather than "info" (`Inventory.MergeDescribes`), since
  its severity starts out empty and only a higher rank replaces it.
- The order of `Aggregates` is meant to make runs diffable; it does exactly when no two rows tie
  (`Ranking.ReproducibleIffNoTies`).
- `Records` truncates the length of a record of 65536 bytes or more (`Records.RecordsRoundTrip`).
- The packet generator's padding falls one byte short when the length field takes a single byte
  (`Packet.PaddingReaches`).

## Model

| member | source | states |
|---|---|---|
| `Varint.Decode` | internal/quic/varint.go:34-47 | the byte-accumulating loop computes the number spelled by the encoding without its two length bits, and fails exactly when the bytes run out |
| `Varint.Untag` | internal/quic/varint.go:34-47 | masking the two tag bits off an encoding of any length leaves the value |
| `Varint.RoundTrip` | internal/tlssynth/quic.go:75-86 | every value below 2^62 survives encoding and decoding, whatever follows it |
| `Varint.ShortestForm` | internal/quic/varint.go:34-47 | no read exceeds 62 bits, and the encoder's form is never longer than the one read |
| `Frames.Skip` | internal/quic/frames.go:32-121 | skipping a declared count of varints, up to 2^62, makes no more reads than there are bytes |
| `Frames.ReadAck` | internal/quic/frames.go:32-121 | an ACK or ACK_ECN frame is skipped field by field, work bounded by the bytes consumed |
| `Frames.ReadCryptoFrame` | internal/quic/frames.go:32-121 | a CRYPTO frame is read or refused, work bounded by the bytes consumed |
| `Frames.CryptoFrames` | internal/quic/frames.go:32-121 | the cursor loop computes the frame extraction and makes at most one read more than there are bytes |
| `Frames.FramesAreDisjointSlices` | internal/quic/frames.go:32-121 | on arbitrary bytes the frames returned are in-bounds slices of the payload, in order and disjoint |
| `Frames.ExtractItem` | internal/quic/frames.go:32-121 | one encoded PADDING, PING, ACK or CRYPTO frame in front of anything is consumed exactly |
| `Frames.ExtractAfter` | internal/quic/frames.go:32-121 | a list of permitted frames yields its CRYPTO frames, then the search goes on with what follows |
| `Frames.ExtractInvertsEncode` | internal/tlssynth/quic.go:88-94 | for every list of CRYPTO frames mixed with PADDING, PING and ACK the decoder returns exactly those frames in order |
| `Frames.ExtractIgnoresPadding` | internal/tlssynth/quic.go:100-112 | zero padding after the frames changes nothing |
| `Frames.OtherFramesStop` | internal/quic/frames.go:97-119 | any other frame type, CONNECTION_CLOSE included, ends the extraction |
| `Frames.CutCryptoStops` | internal/quic/frames.go:79-95 | so does a CRYPTO frame cut short in its offset, length or data |
| `Frames.CutAckStops` | internal/quic/frames.go:46-77 | and an ACK frame cut short |
| `Packet.ParseLongHeader` | internal/quic/packet.go:52-125 | an accepted header ends inside the datagram, with its packet number inside the packet |
| `Packet.ParsesInitial` | internal/quic/packet.go:52-125 | an Initial of any version with any connection IDs and any token in front of any bytes parses to exactly its fields |
| `Packet.ParsesOther` | internal/quic/packet.go:100-125 | a 0-RTT or Handshake packet has no token and parses to its fields |
| `Packet.ParsesRetry` | internal/quic/packet.go:91-98 | a Retry takes the whole datagram and has neither length nor packet number |
| `Packet.Refuses` | internal/quic/packet.go:52-67 | no long header, too short for one, or Version Negotiation: refused with its own error |
| `Packet.AcceptedIff` | internal/quic/packet.go:69-125 | any other long header is accepted if and only if its connection IDs fit, then a counted token for an Initial and a counted rest for all but Retry, its token and end being those; otherwise it is truncated |
| `Packet.NonceIsXor` | internal/quic/keys.go:137-144 | the nonce is the IV with its last eight bytes exclusive-ored, byte by byte, with the packet number |
| `Packet.Unmask` | internal/quic/packet.go:142-174 | the loop removes header protection and accumulates the packet number it uncovers |
| `Packet.Open` | internal/quic/packet.go:142-174 | opening is unmasking the number of the length the first byte gives, then decrypting with its nonce and the header as associated data, or the error of the first failing check |
| `Packet.OpenRefuses` | internal/quic/packet.go:142-174 | a packet without room for the sample or for its number is truncated; any other failure is the AEAD refusing it |
| `Packet.Protect` | internal/tlssynth/quic.go:133-138 | the in-place loop masks the first byte's low nibble and the two packet number bytes, and nothing else |
| `Packet.MaskTwice` | internal/quic/packet.go:142-174 | header protection is its own inverse |
| `Packet.SampleOfRfc9001` | internal/quic/packet.go:147-164 | the sample header of section A.2 of RFC 9001 is masked to the bytes printed there |
| `Packet.ProtectedParses` | internal/quic/packet.go:52-125 | a protected packet in front of any bytes parses to its own fields and its exact end |
| `Packet.OpenSees` | internal/quic/packet.go:142-174 | for packet number lengths of one to four bytes, the opener recovers the sealed header and ciphertext exactly and the number modulo its width, because the sample overlaps no masked byte |
| `Packet.OpenUndoesProtected` | internal/quic/packet.go:142-174 | parse and open recover number and payload of every packet sealed with a number of one to four bytes, any version and token, in front of any tail |
| `Packet.OpenUndoesInitial` | internal/tlssynth/quic.go:100-140 | so parse and open recover header, number and payload of every generated Initial with a two-byte number |
| `Packet.PaddingReaches` | internal/tlssynth/quic.go:103-112 | exactly when padding reaches its target; never more than one byte short; 1200 is always reached |
| `Reader.CollectUint16` | internal/tlsparse/extensions.go:133-147 | the loop collects every pair of bytes, and refuses an odd length |
| `Reader.ReadsU16List` | internal/tlsparse/extensions.go:115-122 | a printed 16-bit-prefixed list is read back, leaving what follows |
| `Reader.ReadsU8PrefixedU16List` | internal/tlsparse/extensions.go:125-130 | the same for an 8-bit prefix |
| `Grease.GreaseIsReserved` | internal/tlsparse/grease.go:15-17 | the bit test accepts exactly the sixteen values of section 2 of RFC 8701 |
| `Grease.StripGrease` | internal/tlsparse/grease.go:21-36 | the loop with its early return removes GREASE and reports whether there was any |
| `Grease.StripIsGreaseFree` | internal/tlsparse/grease.go:21-36 | nothing reserved is left, and a list without GREASE is unchanged |
| `ClientHello.ParseServerName` | internal/tlsparse/extensions.go:151-167 | the loop finds the first host_name entry, or none, or refuses the list |
| `ClientHello.ParseAlpn` | internal/tlsparse/extensions.go:170-184 | the loop collects every protocol name or refuses the list |
| `ClientHello.ParseKeyShare` | internal/tlsparse/clienthello.go:213-232 | the loop keeps the groups without GREASE, and sets none of them when an entry is cut short |
| `ClientHello.ParseExtensions` | internal/tlsparse/clienthello.go:123-206 | the extension loop is a fold of the per-extension decoders, marked truncated at the first broken entry |
| `ClientHello.NegotiatedVersion` | internal/tlsparse/clienthello.go:66-77 | the maximum of the offered versions, or the legacy version when none is offered |
| `ClientHello.ExtensionsGreaseFree` | internal/tlsparse/clienthello.go:123-206 | no extension block, however malformed, puts a GREASE value into any list |
| `ClientHello.ParsedIsGreaseFree` | internal/tlsparse/clienthello.go:81-121 | for arbitrary bytes every list of a parsed ClientHello is free of GREASE |
| `HelloWire.Applies` | internal/tlsparse/clienthello.go:137-206 | one extension of any kind, broken ones included, changes its own field as it says and no other |
| `HelloWire.AddAllSays` | internal/tlsparse/clienthello.go:123-206 | of any list of extensions each field is what the last well-formed one of its own type says, each flag is raised by its own type, and GREASE is noticed but not kept |
| `HelloWire.ParsesMessage` | internal/tlsparse/clienthello.go:81-206 | the same of whole messages with any fixed fields, with the block missing, cut short or whole; truncated exactly when it is cut short |
| `EveryHello.FindExt` | internal/tlsparse/clienthello.go:123-206 | every extension type and body is one that `HelloWire.Applies` speaks of |
| `EveryHello.AcceptedIff` | internal/tlsparse/clienthello.go:81-121 | a message is accepted if and only if it is laid out as `HelloWire.ParsesMessage` has it, so that says every field of every accepted message |
| `EveryHello.RefusedAs` | internal/tlsparse/clienthello.go:81-107 | on any bytes: malformed exactly when session ID and all before it are there and the suites are not a whole list, truncated exactly when anything else of the fixed fields is missing |
| `Synth.ExtensionsOfBlock` | internal/tlssynth/synth.go:93-96 | the parser's loop over a printed block is a fold over the extensions printed |
| `Synth.ReadsShares` | internal/tlssynth/synth.go:108-227 | printed key shares read back as their groups in order, GREASE removed and noticed |
| `Synth.AllStages` | internal/tlssynth/synth.go:108-227 | every extension of a spec sets its own field and disturbs no other |
| `Synth.RoundTrip` | internal/tlssynth/synth.go:108-227 | for every spec whose lengths fit, parsing the printed ClientHello returns the spec in wire order with GREASE filtered out and noticed |
| `Synth.ListedInOrder` | internal/tlssynth/synth.go:136-225 | the extensions of a built ClientHello are listed by codepoint in the order the builder adds them |
| `Records.SplitMessages` | internal/tlsparse/record.go:121-132 | the loop splits a stream into its complete messages |
| `Records.ReadHandshakeMessages` | internal/tlsparse/record.go:72-116 | the record loop computes coalescing followed by splitting, and refuses where a header is bad |
| `Records.CoalesceExtends` | internal/tlsparse/record.go:72-116 | coalescing more bytes extends the result or refuses; a refusal is final |
| `Records.SplitExtends` | internal/tlsparse/record.go:121-132 | the messages of a prefix are a prefix of the messages |
| `Records.EveryPrefixIsRead` | internal/tlsparse/record.go:72-132 | every prefix of a stream's messages is what some prefix of its bytes reads as, since a byte completes at most one message |
| `Records.Incremental` | internal/tlsparse/record.go:72-132 | for all b and c: `ErrNotTLS` on b stays on b+c, and otherwise the messages of b are a prefix of those of b+c |
| `Records.NotTlsIff` | internal/tlsparse/record.go:77-91 | `ErrNotTLS` said of headers: a stream is refused exactly when it is whole records, walked over, up to a header that is refused |
| `Records.Constants` | internal/tlsparse/record.go:18-43 | content types, header length and limit are those of RFC 8446 |
| `Records.ReadableThenRefused` | internal/tlsparse/record.go:89-91 | a readable stream is refused with what follows exactly when that is whole records up to an oversized header |
| `Records.WrapRecords` | internal/tlssynth/synth.go:327-342 | the loop cuts a payload into records of the requested size |
| `Records.CoalesceRecords` | internal/tlsparse/record.go:72-116 | walking printed records collects exactly the handshake payloads and goes on with what follows |
| `Records.FramingIrrelevant` | internal/tlsparse/record.go:62-116 | any fragmentation with ChangeCipherSpec and alert records in between reads as the bare stream |
| `Records.RecordsRoundTrip` | internal/tlssynth/synth.go:327-342 | for every payload and every chunk size: read back as the bare stream while no record exceeds the limit, and otherwise exactly what the truncated length makes of the first record |
| `Records.SplitMessage` | internal/tlssynth/synth.go:316-323 | a printed message in front of anything splits off exactly |
| `Records.SplitInvertsPrint` | internal/tlssynth/synth.go:316-323 | a concatenation of printed messages splits into those messages |
| `ServerHello.ParseExtensions` | internal/tlsparse/serverhello.go:126-156 | the server's extension loop is a fold of its decoders |
| `ServerHello.ParseCertificateChain` | internal/tlsparse/serverhello.go:206-221 | the loop reads the chain up to the first certificate cut short, and fails only when nothing was read |
| `ServerHello.ParsedReply` | internal/tlsparse/serverhello.go:91-124 | on arbitrary bytes: no GREASE, no chain, no end of flight, and a HelloRetryRequest exactly for the reserved Random |
| `ReplyWire.ParsesMessage` | internal/tlsparse/serverhello.go:91-174 | every field of a ServerHello or HelloRetryRequest with any extensions is what the last well-formed one of its type says; truncated exactly when it is cut short |
| `EveryReply.FindExt` | internal/tlsparse/serverhello.go:126-174 | every extension type and body is one that `ReplyWire.Applies` speaks of |
| `EveryReply.AcceptedIff` | internal/tlsparse/serverhello.go:91-124 | a message is accepted if and only if it is laid out as `ReplyWire.ParsesMessage` has it |
| `EveryReply.RefusedAs` | internal/tlsparse/serverhello.go:91-118 | on any bytes: accepted exactly when the fixed fields are there, and truncated otherwise |
| `ReplyWire.KeyExchangeIff` | internal/tlsparse/serverhello.go:187-201 | a curve is read exactly from three bytes or more that begin with the named-curve type |
| `ReplyWire.ReadsChain` | internal/tlsparse/serverhello.go:206-221 | a certificate list, whole or cut short, gives its certificates up to the cut, and fails only when it is cut before the first |
| `ReplyWire.CutMessage` | internal/tlsparse/serverhello.go:206-210 | a certificate message cut short in its own list fails |
| `EveryReply.EveryChain` | internal/tlsparse/serverhello.go:206-221 | every other message is such a list |
| `ServerSynth.RoundTrip` | internal/tlssynth/synth.go:241-284 | parsing a ServerHello or HelloRetryRequest printed from any spec returns the spec |
| `ServerSynth.ListedInOrder` | internal/tlssynth/synth.go:241-284 | the extensions of a built ServerHello are listed in the builder's order |
| `ServerSynth.KeyExchangeRoundTrip` | internal/tlssynth/synth.go:288-300 | the curve of a printed ServerKeyExchange is read back |
| `ServerSynth.CertificateRoundTrip` | internal/tlssynth/synth.go:303-313 | every printable certificate list, the empty one included, is read back whole |
| `ServerSynth.SecondHelloWins` | internal/tlsparse/record.go:216 | of two built ServerHellos with different cipher suites the second is returned |
| `ServerSynth.SecondGroupWins` | internal/tlsparse/record.go:216 | of two hellos that differ in nothing but a nonzero group the second's group is returned |
| `ServerSynth.RepeatedHelloLosesChain` | internal/tlsparse/record.go:216 | a hello repeated after the certificates loses the chain that the first would have had |
| `ServerSynth.FlightRoundTrip` | internal/tlsparse/record.go:171-251 | a TLS 1.2 flight in records of any size reads as its hello, with curve and chain from the later messages, complete |
| `ServerSynth.FlightCutShort` | internal/tlsparse/record.go:218-247 | the same flight up to its hello reads without curve and chain, and incomplete |
| `Find.FindClientHelloIn` | internal/tlsparse/record.go:162-169 | the loop returns the first ClientHello message, parsed |
| `Find.FirstClientHelloDecides` | internal/tlsparse/record.go:162-169 | the first message of type 1 decides: its ClientHello or its error, whatever surrounds it; without one there is nothing |
| `Find.Constants` | internal/tlsparse/record.go:26-36 | the message types are those of RFC 8446 |
| `Find.FirstClientHelloStable` | internal/tlsparse/record.go:162-169 | a result other than "nothing yet" is not changed by later messages |
| `Find.FindClientHelloGrows` | internal/tlsparse/record.go:148-154 | on a growing buffer `ErrNotTLS` is final and any other result stays unless the stream becomes `ErrNotTLS` |
| `Find.FindServerHelloIn` | internal/tlsparse/record.go:197-251 | the scan loop computes the step-by-step scan |
| `Find.ScanEnriches` | internal/tlsparse/record.go:218-239 | after the last real ServerHello the scan adds the first later curve and chain and the end of the flight |
| `Find.ServerHelloError` | internal/tlsparse/record.go:202-209 | the search fails with the error of the first ServerHello message when that one does not parse |
| `Find.ServerHelloRetry` | internal/tlsparse/record.go:210-215 | a HelloRetryRequest is returned only without a real ServerHello, and then it is the first |
| `Find.ServerHelloLastReal` | internal/tlsparse/record.go:216-251 | otherwise the last real ServerHello, enriched, and complete exactly for TLS 1.3 or when a ServerHelloDone occurs |
| `Find.FirstRealIsReturnedIff` | internal/tlsparse/record.go:171-182 | the documented answer, the first real ServerHello enriched from the messages after it, is returned if and only if the first and last real ones agree in what later messages cannot add to and end up with the same chain, group and source |
| `Find.FirstRealIsLost` | internal/tlsparse/record.go:216 | for every list whose first and last real ServerHello chose different suites, the first is not what is returned |
| `Find.ServerAnswerChanges` | internal/tlsparse/record.go:178-182 | the answer to a HelloRetryRequest alone differs from the answer once a ServerHello follows |
| `CryptoStream.Stream.constructor` | internal/assemble/quic.go:52-55 | a new stream holds nothing |
| `CryptoStream.Stream.Add` | internal/assemble/quic.go:57-75 | retains exactly what the caps allow, and keeps the structure valid |
| `CryptoStream.Stream.SortedOffsets` | internal/assemble/quic.go:83-87 | the offsets held, each once, ascending |
| `CryptoStream.Stream.Prefix` | internal/assemble/quic.go:79-103 | the loop over sorted offsets computes the contiguous run from zero |
| `CryptoStream.AddKeepsValid` | internal/assemble/quic.go:57-75 | total is the sum of the segment lengths, at most 16384, with at most 64 segments |
| `CryptoStream.AddFillsUp` | internal/assemble/quic.go:57-75 | a retained frame is cut to the room left and fills it exactly if it was longer |
| `CryptoStream.PrefixIsLongestRun` | internal/assemble/quic.go:79-103 | every byte of the prefix comes from the lowest segment covering it, and no segment covers the next position |
| `CryptoStream.PrefixOfStream` | internal/assemble/quic.go:79-103 | when all segments are slices of one stream the prefix is a prefix of it |
| `CryptoStream.AddExtendsPrefix` | internal/assemble/quic.go:57-103 | a further slice only extends the prefix |
| `CryptoStream.AnyFramesOfStream` | internal/assemble/quic.go:57-103 | after any sequence of slices the prefix is a prefix of the stream and of every later prefix |
| `CryptoStream.AnyOrderReassembles` | internal/assemble/quic.go:57-103 | up to 16384 bytes cut into up to 64 frames, in any order with any repeats, reassemble whole |
| `CryptoStream.WholeIffCovered` | internal/assemble/quic.go:79-103 | pieces of one stream make up all of it exactly when they cover every position |
| `CryptoStream.RetainsFirsts` | internal/assemble/quic.go:57-75 | within the caps exactly the first non-empty frame at each offset is retained, and whole |
| `CryptoStream.ReassemblesIffFirstsCover` | internal/assemble/quic.go:57-103 | for any frames of a stream, overlapping, re-cut and empty in any way, whose firsts fit the caps: reassembled whole if and only if every position is covered by a frame that was the first to carry something at its offset |
| `CryptoStream.LongerFrameIgnored` | internal/assemble/quic.go:67-69 | any longer frame at any held offset is ignored, and if nothing else covers its first extra byte the stream is not whole |
| `TcpStream.Counters.constructor` | internal/assemble/assembler.go:172-188 | a new assembler has counted and reported nothing |
| `TcpStream.Counters.New` | internal/assemble/assembler.go:279-324 | declines a bare packet, counts every other, and tracks it unless the cap is reached |
| `TcpStream.Stream.constructor` | internal/assemble/assembler.go:310-341 | a stream over the cap starts rejected and uncounted |
| `TcpStream.Stream.FindClient` | internal/assemble/assembler.go:399-413 | the loop over the two buffers latches the first ClientHello and orients the endpoints |
| `TcpStream.Stream.ParseBuffers` | internal/assemble/assembler.go:398-462 | one parse: client, then server, then rejection, with the exact effect on stream and counters |
| `TcpStream.Stream.ReassembledSG` | internal/assemble/assembler.go:364-393 | a segment is appended up to the prefix, marks truncation, and is parsed; nothing once understood or ruled out |
| `TcpStream.Stream.RejectStream` | internal/assemble/assembler.go:464-468 | buffers dropped, rejection counted |
| `TcpStream.Stream.ReassemblyComplete` | internal/assemble/assembler.go:470-477 | reports if anything is due and gives the slot back once |
| `TcpStream.Stream.EmitFlow` | internal/assemble/assembler.go:479-486 | the handler is called only with a ClientHello and only the first time |
| `TcpRuns.RunSound` | internal/assemble/assembler.go:364-462 | over every run: buffers exact while retaining, no ClientHello in the retained bytes as a whole while none is latched, rejection only when hopeless, the latched hello really sent, the endpoints oriented |
| `TcpRuns.NothingReadIsMissed` | internal/assemble/assembler.go:395-413 | over every run without a latched ClientHello none could be read at any point where bytes were delivered |
| `TcpRuns.BuffersArePrefixes` | internal/assemble/assembler.go:378-390 | until the stream stops retaining each buffer is the first MaxStreamPrefix bytes delivered, full exactly when there were more |
| `TcpRuns.RejectionSound` | internal/assemble/assembler.go:442-468 | a rejected stream has no ClientHello in either prefix as a whole; unless both overran the cap no continuation of either brings one; and a direction of which a shorter part reads as one ended in `ErrNotTLS` |
| `TcpOutcome.RejectedIff` | internal/assemble/assembler.go:442-468 | over every run without a latched ClientHello: rejected if and only if some delivery left both directions past the prefix, or both with at least 16 bytes that are no TLS; the buffers are dropped then |
| `TcpOutcome.RunRecords` | internal/assemble/assembler.go:364-393 | over every run LastSeen is the greatest of the creation time and the times of the non-empty segments heard while retaining, FirstSeen is the creation time, and the truncation mark is set exactly when a direction overran the prefix |
| `TcpOutcome.OutcomeInRuns` | internal/assemble/assembler.go:326-468 | both of every admitted stream in any run of the assembler |
| `TcpRuns.SegmentationIrrelevant` | internal/assemble/assembler.go:395-413 | unless a client's bytes end in `ErrNotTLS`, however they are cut and interleaved the latched ClientHello is that of one-shot parsing, and its sender is the client |
| `TcpRuns.AnswerWasSent` | internal/assemble/assembler.go:415-436 | over every run a latched answer was sent by the side facing the client |
| `TcpRuns.RunTells` | internal/assemble/assembler.go:415-436 | over every run no readable answer is missed, and the handler was called once exactly when a complete answer was latched |
| `TcpRuns.BothSidesSettle` | internal/assemble/assembler.go:364-436 | where the server's bytes settle on one answer, the whole observation is independent of segmentation and interleaving |
| `Settling.ClientIndependentIff` | internal/assemble/assembler.go:395-413 | over every segmentation and interleaving what is latched is what one-shot parsing finds, if and only if bytes that end in `ErrNotTLS` read as a ClientHello at no point before |
| `Settling.RefusedClientIndependentIff` | internal/assemble/assembler.go:395-413 | for bytes that end in `ErrNotTLS`, said of their records: exactly when those before the refused header hold no readable ClientHello |
| `Settling.CutDecidesRejection` | internal/assemble/assembler.go:450-461 | the same bytes lose their ClientHello to rejection in one segment and have it latched in two |
| `Settling.NeverChangesIff` | internal/tlsparse/record.go:202-239 | from a real ServerHello on, no reading changes the answer exactly when no message disturbs it |
| `Settling.SteadyIff` | internal/tlsparse/record.go:197-251 | every early answer of a list is the final one exactly when nothing after its first hello disturbs it |
| `Settling.AnswerHasHello` | internal/tlsparse/record.go:197-251 | every list with an answer has a first ServerHello message, which parses |
| `Settling.SettlesIffSteady` | internal/tlsparse/record.go:183-251 | a server's bytes settle if and only if after the first hello come no differing real ServerHello, no curve it lacks, no chain and no end of an open flight; after a HelloRetryRequest, no real ServerHello |
| `Settling.AnswerIndependentIffSteady` | internal/assemble/assembler.go:364-436 | over every segmentation and interleaving of given bytes the answer is the same if and only if that condition on the server's messages holds |
| `Settling.CutFlightLosesChain` | internal/assemble/assembler.go:415-418 | any TLS 1.2 flight cut after its hello leaves the stream without curve and chain; uncut it has both |
| `Settling.CutAfterRetryKeepsRetry` | internal/assemble/assembler.go:415-418 | a HelloRetryRequest read before the ServerHello that follows it is what the stream keeps |
| `QuicFlow.KeyIsUnorderedPair` | internal/assemble/quic.go:42-47 | two datagrams share a key exactly when they join the same two endpoints, in either direction |
| `QuicFlow.TrackedIff` | internal/assemble/quic.go:125-131 | a datagram is taken exactly when it opens with an Initial of version 1 or 2 |
| `QuicTable.Table.constructor` | internal/assemble/assembler.go:172-174 | a new table has no flows and shares the counters it is given |
| `QuicTable.Table.CollectFrames` | internal/assemble/quic.go:183-189 | the loop adds every CRYPTO frame to the stream of the side that sent it |
| `QuicTable.Table.ParseFlow` | internal/assemble/quic.go:193-211 | client first, then server, reported when the flight is complete |
| `QuicTable.Table.EmitFlow` | internal/assemble/quic.go:213-220 | reported only with a ClientHello and only once |
| `QuicTable.Table.Deliver` | internal/assemble/quic.go:161-191 | derive keys by direction, open, collect, parse; an unopenable packet changes only the time last seen |
| `QuicTable.Table.QuicPacket` | internal/assemble/quic.go:121-191 | a datagram is one receive step of the state machine |
| `QuicTable.Table.FlushQuic` | internal/assemble/quic.go:225-234 | the sweep, in whatever order the map is walked, removes exactly the idle flows and reports those with a ClientHello |
| `QuicRuns.FlowRecords` | internal/assemble/quic.go:140-211 | a flow has the endpoints, version, connection ID and first time of its first Initial; LastSeen is the greatest time heard, and each side's stream holds exactly that side's frames, up to its report or rejection |
| `QuicRuns.FlowRecordsInRuns` | internal/assemble/quic.go:121-234 | the same of every tracked flow in every run |
| `QuicRuns.ActiveFlowSurvives` | internal/assemble/quic.go:225-234 | in every run a flow still listening and heard after t is untouched by a sweep at t |
| `Assembler.ParseEffect` | internal/assemble/assembler.go:398-462 | a parse reports at most this stream, moves each counter only with its flag, and never rejects a stream with a ClientHello |
| `Assembler.ReassembledEffect` | internal/assemble/assembler.go:364-393 | the same for a whole callback |
| `Assembler.CompleteEffect` | internal/assemble/assembler.go:470-477 | the same for a close, which leaves nothing unreported and no slot held |
| `Assembler.SegmentKeepsInv` | internal/assemble/assembler.go:364-393 | a segment keeps the assembler's invariant |
| `Assembler.CloseKeepsInv` | internal/assemble/assembler.go:470-477 | a close keeps it |
| `Assembler.NewTcpKeepsInv` | internal/assemble/assembler.go:279-324 | admission of a TCP stream keeps it |
| `Assembler.ReceiveKeepsInv` | internal/assemble/quic.go:121-191 | any datagram keeps it |
| `Assembler.FlushKeepsInv` | internal/assemble/quic.go:225-234 | a sweep in any order keeps it |
| `Assembler.RunKeepsInv` | internal/assemble/assembler.go:279-486 | accounting, identity, logging, settlement and rejection counts hold after every run |
| `AssemblerRuns.Admission` | internal/assemble/assembler.go:300-308 | LiveStreams is the tracked TCP streams plus the QUIC flows, each at most MaxStreams, so between 0 and twice the cap |
| `AssemblerRuns.Drains` | internal/assemble/quic.go:225-234 | it returns to 0 once every TCP stream is closed and every QUIC flow is swept |
| `AssemblerRuns.EmissionOnce` | internal/assemble/assembler.go:113-114 | the handler is called at most once per flow, only with a ClientHello, TLSFlows counts the calls, and every closed stream with a ClientHello was reported |
| `AssemblerRuns.FlushReports` | internal/assemble/quic.go:222-234 | every swept QUIC flow with a ClientHello was reported |
| `AssemblerRuns.OutcomesDisjoint` | internal/assemble/assembler.go:398-486 | reported, rejected and over-cap flows are different flows, all counted in Streams |
| `AssemblerRuns.Conservation` | internal/assemble/assembler.go:137-152 | over every run TLSFlows, RejectedTCP and the over-cap TCP streams together never exceed Streams |
| `AssemblerRuns.StreamsExact` | internal/assemble/assembler.go:279-308 | over every run Streams is the number of TCP packets that open a connection or carry something, plus the first Initials that found room |
| `AssemblerRuns.StepBegins` | internal/assemble/assembler.go:279-324 | each of those TCP packets is tracked under its number, ruled out at once exactly when the cap is reached; no other event adds a stream |
| `AssemblerRuns.DropsExact` | internal/assemble/quic.go:136-139 | over every run StreamsDropped is the over-cap TCP streams plus the Initials refused, packet by packet |
| `AssemblerRuns.DropsAreConnectionsIff` | internal/assemble/assembler.go:145-149 | StreamsDropped is the connections refused, as documented, if and only if none had an Initial refused twice; otherwise it is larger |
| `AssemblerRuns.ConservationIff` | internal/assemble/assembler.go:137-152 | TLSFlows + RejectedTCP + StreamsDropped keep to Streams exactly when the refusals fit in what is left of it; without a refusal they always do |
| `AssemblerRuns.TcpConservation` | internal/assemble/assembler.go:137-152 | a run without QUIC has no refusal |
| `AssemblerLimits.BareInitialRead` | internal/quic/packet.go:52-125 | nine bytes are recognised as an Initial of version 1 |
| `AssemblerLimits.ConservationFails` | internal/assemble/quic.go:136-139 | for every cap a run from the start on which those three counters exceed Streams |
| `AssemblerLimits.DropsAreNotConnections` | internal/assemble/quic.go:136-139 | for every cap a run with two drops and one connection refused |
| `AssemblerLimits.PassesCapIff` | internal/assemble/quic.go:136-136 | a step takes LiveStreams past MaxStreams exactly when it is an Initial of an untracked connection at the cap while the QUIC map alone has room |
| `AssemblerLimits.CapReachedTwice` | internal/assemble/assembler.go:300-308 | for every cap a run with LiveStreams at twice MaxStreams |
| `AssemblerRuns.ReportsAreFinal` | internal/assemble/assembler.go:364-371 | what the handler was given about a TCP stream is never changed afterwards |
| `AssemblerReports.LogOnlyGrows` | internal/assemble/assembler.go:113-114 | whatever happens next, reports made stay |
| `AssemblerReports.QuicFlowIsReported` | internal/assemble/quic.go:222-234 | a QUIC flow with a ClientHello is at every later point reported or still tracked, so no sweep loses it |
| `AssemblerReports.QuicReportsAreFinal` | internal/assemble/quic.go:161-163 | what the handler was given about a QUIC flow is never changed while the flow is tracked |
| `Isolation.StreamsDoNotInterfere` | internal/assemble/assembler.go:326-393 | in every run a TCP stream is what its own segments and its own close made of it |
| `Isolation.RejectionSoundInRuns` | internal/assemble/assembler.go:442-468 | what rejection means, of what a stream heard in any run, whatever else is captured |
| `Isolation.FlowsDoNotInterfere` | internal/assemble/quic.go:133-191 | in every run a tracked QUIC flow is what the Initials of its own key made of it since it was opened |
| `EndToEnd.TcpEndToEnd` | internal/assemble/assembler.go:364-413 | a printed ClientHello, in records and segments of any size, is latched as its spec says, its sender the client |
| `EndToEnd.OversizedHeaderLosesClient` | internal/assemble/assembler.go:450-461 | any printed ClientHello in one segment with an oversized header is lost; cut in front of the header it is latched |
| `EndToEnd.HandshakeEndToEnd` | internal/assemble/assembler.go:364-486 | a whole TLS 1.3 handshake on one stream, however cut and interleaved, is reported exactly once and correctly |
| `EndToEnd.HandshakeOccurs` | internal/tlssynth/synth.go:316-342 | any two specs can meet those hypotheses, the server's side arriving first |
| `EndToEnd.TcpInRuns` | internal/assemble/assembler.go:364-486 | the same for a ClientHello in any run of the assembler; once the stream is closed it has been reported once |
| `EndToEnd.HandshakeInRuns` | internal/assemble/assembler.go:364-486 | a TLS 1.3 handshake among any other traffic is reported exactly once, with both hellos and the right endpoints |
| `EndToEnd.PaddedDatagramOpens` | internal/tlssynth/quic.go:96-140 | a padded Initial opens to its number and exactly its CRYPTO frames |
| `EndToEnd.DatagramOpens` | internal/assemble/quic.go:121-191 | a generated datagram is recognised, opened, and yields the frames put into it |
| `EndToEnd.ServerPiecesRead` | internal/assemble/quic.go:199-210 | any piece of a TLS 1.3 ServerHello reads as nothing yet or as the whole visible reply |
| `EndToEnd.RunTracks` | internal/assemble/quic.go:161-211 | after any packets of a connection its flow holds exactly their frames, or has been reported with both hellos |
| `EndToEnd.QuicEndToEnd` | internal/assemble/quic.go:121-220 | in any run, both hellos in any Initials of their sides, in any order with repeats: the client's is latched once it is in, and once the server's is in too the connection has been reported once, with both and the right endpoints |
| `EndToEnd.QuicIsReported` | internal/assemble/quic.go:222-234 | even if its server was never seen, that connection is reported before it is gone |
| `EndToEnd.ExchangeOccurs` | internal/tlssynth/quic.go:88-94 | any two hellos that fit can be exchanged so |
| `EndToEnd.ExchangeIsHeard` | internal/assemble/quic.go:121-191 | a run of a connection's packets alone is heard in full |
| `Inventory.MaxSeverity` | internal/inventory/inventory.go:147-156 | the loop returns a severity of a finding that no other outranks, and "info" exactly when nothing ranks above it |
| `Inventory.RankOrder` | internal/inventory/inventory.go:57-59 | critical over high over medium over low over everything else |
| `Inventory.MergeRecord` | internal/inventory/aggregate.go:144-167 | the updates of one entry, caps included |
| `Inventory.Accumulator.constructor` | internal/inventory/summary.go:79-93 | a new accumulator holds nothing |
| `Inventory.Accumulator.AddAggregate` | internal/inventory/aggregate.go:119-168 | a known key is merged, a new one opened below the cap, otherwise a handshake dropped |
| `Inventory.Accumulator.AddRecord` | internal/inventory/summary.go:96-98 | one more flow, and its aggregate |
| `Inventory.SameKeyIff` | internal/inventory/aggregate.go:107-117 | two records share a key if and only if they agree in transport, port, version, suite, group, protocol, post-quantum status, ECH, and in the server name or, when that is empty, the address |
| `Inventory.MergeDescribes` | internal/inventory/aggregate.go:144-167 | if an entry describes some records, merging one more describes them all: count, time range, findings, the worst finding's severity, distinct clients up to 256 with an exact capped flag, fingerprints, config ids |
| `Inventory.AccumulatorIsGroupBy` | internal/inventory/aggregate.go:119-168 | after any log the keys held are the first 20000 distinct keys by arrival, and every entry describes exactly that key's records |
| `Inventory.EntryCountsAlike` | internal/inventory/aggregate.go:107-168 | after any log an entry's count is the number of records that are the same finding |
| `Inventory.CountsAndDropsAreFlows` | internal/inventory/aggregate.go:119-168 | the counts of the entries and the drops add up to the flows |
| `Inventory.DropsAreOccurrences` | internal/inventory/aggregate.go:123-126 | the drops are all handshakes of the keys that came too late |
| `Inventory.DropsAreDistinctIff` | internal/inventory/aggregate.go:213-215 | the drops are the distinct findings left out if and only if each of those occurs once; otherwise they are more |
| `Inventory.DropsAreNotDistinct` | internal/inventory/aggregate.go:123-126 | the log of 20001 findings with the last one repeated: one finding left out, two drops |
| `Inventory.GreaseInference` | internal/inventory/aggregate.go:176-181 | an entry is inferred to be GREASE exactly when its records show two distinct config ids |
| `Ranking.BeforeOrTied` | internal/inventory/aggregate.go:194-206 | of any two rows exactly one precedes the other unless they tie on severity, count, name and cipher |
| `Ranking.LessMeans` | internal/inventory/aggregate.go:201-205 | names and suites are compared at the first character where they differ, a proper prefix first |
| `Ranking.OutputReads` | internal/inventory/aggregate.go:194-206 | in any output a worse row precedes, then a more frequent one, then the lesser name, then the lesser suite |
| `Ranking.OutputUnique` | internal/inventory/aggregate.go:194-206 | without ties only one output is possible |
| `Ranking.ExchangeTied` | internal/inventory/aggregate.go:194-206 | exchanging tied rows gives another possible output |
| `Ranking.OutputExists` | internal/inventory/aggregate.go:194-206 | the comparator is a strict weak order, so every list of rows has an output |
| `Ranking.ReproducibleIffNoTies` | internal/inventory/aggregate.go:194-206 | the output is determined by the rows if and only if no two tie |
| `Pipeline.RunKeepsInv` | cmd/tlscensus/pipeline.go:51-99 | over every interleaving the locks are held where the code holds them and each record is in exactly one place |
| `Pipeline.PendingEmptyWhenFree` | cmd/tlscensus/pipeline.go:67-99 | pending is empty whenever the assembler lock is free |
| `Pipeline.NoLockUnderLock` | cmd/tlscensus/pipeline.go:75-81 | no goroutine waits for or writes under a lock while holding the assembler lock, or holds both |
| `Pipeline.NeverStuck` | cmd/tlscensus/watch.go:65-119 | while any goroutine is in an entry point some step other than new work is enabled, so no deadlock is reachable |
| `Pipeline.StepsRunOut` | cmd/tlscensus/pipeline.go:83-99 | every such step reduces the work left, so entry points finish once no new work arrives |
| `Pipeline.DeliveredExactlyOnce` | cmd/tlscensus/pipeline.go:51-99 | at quiescence every record folded into the accumulator has been delivered exactly once |
| `Pipeline.DeliveredInOrder` | cmd/tlscensus/pipeline.go:67-99 | over every interleaving each goroutine delivers in the order in which records were folded |
| `Pipeline.SingleInOrder` | cmd/tlscensus/pipeline.go:101-115 | with one goroutine the output is always a prefix of the records in order, and all of them between calls |
| `Pipeline.SummaryAfterDelivery` | cmd/tlscensus/pipeline.go:137-163 | the final summary is built after everything it counts was delivered, if no other goroutine is under way |
| `Pipeline.FinishIsLast` | cmd/tlscensus/pipeline.go:137-163 | a goroutine that entered `finish` does nothing else, and is done exactly when it has built its summary |
| `Pipeline.FinishReports` | cmd/tlscensus/pipeline.go:137-163 | once at rest, a goroutine has built a summary exactly when it called `finish` |
| `Ja4.WriteHex` | internal/tlsparse/ja4.go:151-157 | the loop writes four hexadecimal digits per value, separated by commas |
| `Ja4.Hex4Spells` | internal/tlsparse/ja4.go:151-157 | four lower-case digits, most significant first, that spell the codepoint |
| `Ja4.JoinHexAt` | internal/tlsparse/ja4.go:151-157 | the i-th value stands at position 5i with a comma after every one but the last |
| `Ja4.PartAReads` | internal/tlsparse/ja4.go:37-60 | the readable part position by position: transport, version, name, both counts up to 99, first and last byte of the first protocol |
| `Ja4.VersionCodeReads` | internal/tlsparse/ja4.go:106-122 | two characters per version, zeroes for an unknown one |
| `Ja4.UnderscoreIff` | internal/tlsparse/ja4.go:72-85 | signature algorithms follow an underscore exactly when there are any |
| `Ja4.Ja4Reads` | internal/tlsparse/ja4.go:33-35 | three parts joined by underscores, ten characters and two hashes, zeroes for nothing |
| `Ja4.FilterExtensions` | internal/tlsparse/ja4.go:73-79 | the loop drops server_name and ALPN and keeps the rest in order |
| `Ja4.JoinHexInjective` | internal/tlsparse/ja4.go:151-157 | different lists are written differently |
| `Ja4.SortedIffPermutation` | internal/tlsparse/ja4.go:159-164 | two lists sort to the same list exactly when they are permutations |
| `Ja4.CipherTextInjective` | internal/tlsparse/ja4.go:65-67 | equal ja4b inputs exactly for equal cipher multisets |
| `Ja4.ExtensionTextInjective` | internal/tlsparse/ja4.go:72-85 | equal ja4c inputs exactly for equal extension multisets without SNI and ALPN and equal signature algorithm lists |
| `Ja4.OrderIrrelevant` | internal/tlsparse/ja4.go:33-85 | JA4 is unchanged by any permutation of suites and of extensions |
| `Ja4.HashedPartsFaithful` | internal/tlsparse/ja4.go:62-85 | unless the hash collides on the two clients compared, equal hashed parts mean equal offers |
| `Bpf.Align` | internal/capture/live_darwin.go:48-50 | the least multiple of four not below x |
| `Bpf.Next` | internal/capture/live_darwin.go:267-302 | on arbitrary bytes a packet is a slice of the buffer behind its header, and the remainder a strictly shorter end of it |
| `Bpf.ReadBuffer` | internal/capture/live_darwin.go:209-242 | the loop hands out the packets of a buffer in order and terminates |
| `Bpf.SplitInvertsLayout` | internal/capture/live_darwin.go:257-302 | packets laid out with any header length from 18 and padding to four bytes, the last optional, are read back exactly |

## Left out

- gopacket's TCP reassembly and packet decoding: an environment that opens, feeds and closes streams in any order with
  any bytes; the counters of packets and the schedule of idle sweeps (`trackTime`, `lastFlush`) go with it.
- AES-GCM, the header-protection cipher, HKDF and SHA-256: parameters. The theorems assume of the cipher only that
  opening undoes sealing and that tags, masks and IVs have their lengths.
- QUIC connection migration. The type codes of a version 2 header are read as the decoder reads them, which is not as
  section 3.2 of RFC 9369 assigns them.
- The message builders of internal/tlssynth are functions on values, not appends to a shared `cryptobyte.Builder`; the
  builder's panic is `None`.
- The fixed fields of a ClientHello or ServerHello are read as expressions over a cursor value; the loops are methods.
- QUIC flows live in the table as values, so aliasing between the map and a flow pointer is not captured.
- In the pipeline a record is its arrival number; `snapshot`, the retained `records` and the report's contents are out.
- The distributions and histograms of `Summary`, `rank`, and the limit `topN`: independent counters, easy members.
- `sort.Slice` and map iteration are taken by what they guarantee: any ordered arrangement, any order of visits.
- JA4S, the server's fingerprint: no sorting and the same pre-hash text.
- The codepoint registry, the finding rules, certificate analysis, rendering, the kernel filter, and live capture other
  than the BPF read buffer: tables, formatting and I/O.
- Addresses are numbers or texts, times are integers, and Go's machine integers are unbounded except where a width is
  written out (packet numbers, 24-bit lengths, 32-bit BPF fields).
