# Verified model of the rule-splitting proxy

A Dafny model of the proxy's stateful core, with proofs. It covers the resumable Vision padding codec, the VMess key
derivation and its chunk and WebSocket framing, the socket waiter queue below them, Shadowsocks framing, the two
checksums, the routing tables and the rule engine, the manager's queued life cycle with the environment it borrows, the
latency pool, the QUIC varints and the hysteria2 response, the header-block readers and the SOCKS5 addresses.

Code that changes state is modelled as classes and methods with loops. Each is proved against a function on values
(`Step`, `Drain`, `Emit`, `ReadCall`, `Nested`, `Next` and so on), and the properties over whole runs are lemmas about
those functions. SHA-256, the AEAD ciphers, UTF-8, random bytes, the readers of numbers, and the memory that lies behind
a Go slice up to its capacity are parameters, so that the results hold for every choice of them. The AEAD law used is that
opening undoes sealing and that a seal adds 16 bytes (`AeadFraming.Lawful`).

`dafny verify dfyconfig.toml` checks everything.

## Files

| file | what it holds |
|---|---|
| `Bytes.dfy`, `Bits.dfy`, `JsInt.dfy`, `Strings.dfy`, `Records.dfy` | bytes, digits, JavaScript's 32-bit operators, strings, streams of self-delimiting records |
| `VisionWire.dfy`, `VisionDecode.dfy` | padded frames; the decoder, and when a split of the stream is harmless |
| `VisionFilter.dfy`, `VisionWriter.dfy`, `VisionReader.dfy` | the TLS sniffer; runs of writes; what a read delivers |
| `VisionSwitch.dfy`, `VisionHears.dfy` | when a stream ends its padding, and how, and what a read makes of a block, on the bytes alone |
| `VisionTurns.dfy` | reads and writes of one connection in any order, and both ends together |
| `VisionPieces.dfy` | decoded bytes that are still slices of the caller's buffer |
| `VisionConnection.dfy` | the connection object, proved against the functions above |
| `VmessKdf.dfy` | the key derivation, RFC 2104, and the tower of aliased hash objects |
| `Checksums.dfy` | CRC-32 and FNV-1a |
| `SocketBuffers.dfy` | the waiter queue under all events |
| `AeadFraming.dfy`, `VmessChunks.dfy`, `SsFraming.dfy`, `WsFrames.dfy` | the framings |
| `ByteStack.dfy` | chunk reader over byte source over frames over waiter queue, end to end |
| `Cidr.dfy`, `CidrTables.dfy`, `Suffixes.dfy`, `Rules.dfy` | the embedded tables, how they are built, and the rule engine |
| `RuleLines.dfy` | what a rule line decides, read off its text |
| `AddressText.dfy`, `LiteralHosts.dfy` | reading address literals, and how such hosts are routed |
| `Environments.dfy`, `Lifecycle.dfy`, `Managers.dfy` | the proxy variables, the life cycle, the manager object |
| `LatencyPools.dfy`, `Varint.dfy`, `HeaderBlock.dfy`, `Addr.dfy` | the smaller protocols |

## Where the code does less than one might expect

These are proved, with the exact condition or a concrete run:

- The Vision decoder drops a header that is cut between two chunks. A chunk can be decoded on its own, whatever follows,
  if and only if it does not stop inside a header (`VisionDecode.SegmentationIff`).
- A padded piece comes back whole if and only if it has at most 65535 bytes, or it is the End piece and either no padding
  is drawn for it or the bytes its length field cannot say are all zero (`VisionWire.FrameRoundTripIff`). Over a run: the
  peer has what was written after every frame if and only if all frames are of this kind (`VisionWriter.RunRoundTripIff`);
  at the end only, it may also be so by coincidence (`VisionWriter.WholeMayCoincide`).
- A read with a buffer of at most 8192 bytes reports a count but copies nothing once decoding is over
  (`VisionReader.PassThroughIff`).
- While packets are still filtered, a late segment that looks like the first one is decoded again
  (`VisionReader.OutsidePassesIff`).
- A Direct write replaces the connection for reading, too, whether or not the peer has switched: from then on nothing that
  arrives on the vision connection is ever read (`VisionTurns.CrossedTurns`), and a byte the peer has sent there is lost
  (`VisionTurns.CrossedLoses`). A read is still the one it should be if and only if the peer has switched, something is
  pending, or nothing arrives on either connection (`VisionReader.CrossedCallIff`).
- The Vision filter panics if and only if a long ServerHello names a session id that reaches past the capacity of its
  slice (`VisionFilter.PanicIff`). If it reaches past the length only, the cipher is taken from the bytes behind: then
  direct switching may be enabled although no record announced an allowed cipher (`VisionFilter.CipherFromBehind`). For one
  hello, no memory can do so if and only if the hello keeps its cipher or does not show the TLS 1.3 bytes
  (`VisionFilter.AnnouncementIff`); over a run, if and only if the worst memory does not
  (`VisionFilter.RunAnnouncementIff`), so never where every hello keeps its cipher (`VisionFilter.XtlsNeedsAnnouncement`).
- The varint reader crashes if and only if a whole number in the eight-byte form stands in front: it converts seven bytes
  where eight are wanted (`Varint.ReaderIsStandardIff`). So what is written is read back if and only if it is below 2^30
  (`Varint.VarintRoundTripIff`, `Varint.FirstCrash`), although it is written rightly below 2^62
  (`Varint.StandardRoundTripIff`); and a response crashes the client if and only if one of its two lengths is there in that
  form (`Varint.PanicIff`), which a server with canonical lengths needs from 2^30 bytes on (`Varint.ResponseIsAnsweredIff`).
- Keys of more than 64 bytes are cut instead of hashed. The derivation is that of RFC 2104 for every hash and message if
  and only if no key is that long (`VmessKdf.RfcIff`).
- The 65537th VMess chunk of a connection throws (`VmessChunks.VmessChunkWriter.Write`, `VmessChunks.NonceIff`).
- A pong for a ping of 126 bytes or more is malformed (`WsFrames.PongWellFormedIff`).
- Bytes that are buffered when a socket closes are abandoned: everything received is delivered if and only if nothing is
  buffered then, whatever is read later (`SocketBuffers.DeliveredAcrossCloseIff`, `SocketBuffers.CloseAbandonsBuffer`).
- The embedded IPv6 table matches listed network addresses only, not the addresses inside them, although the comment
  above the lookup says so (`Cidr.InCnCidr6`, `Cidr.TableMissesInside`). A sorted table is looked up rightly if and only if it
  lists every address of its networks, a single row if and only if its prefix is at least 128 (`Cidr.Lookup6RightIff`,
  `Cidr.HostRowIff`).
- The early exit of the sorted IPv4 table is right for all addresses if and only if whatever part of a row's block lies
  below the row's base is covered by rows that start early enough (`Cidr.EarlyExitRightIff`); normalised rows have no such
  part (`Cidr.EarlyExitIsHarmless`), but the build script does not normalise rows.
- A restart that begins while the proxy is switched off awaits a stop that is queued behind it: that operation and every
  later one never end (`Lifecycle.StuckIff`, `Lifecycle.StuckForever`, `Lifecycle.SwitchedOffThenReconfigured`).
- While it is kept switched off at run time, the proxy stays down if and only if no update of an enabled section begins;
  an update does bring it up (`Lifecycle.StaysDownIff`, `Lifecycle.UpdateRunsWhileOff`).
- A `MATCH` line decides nothing about address literals (`Rules.ForeignUserLine`).
- The growing-buffer header reader has no size limit, the byte-wise readers have one (`HeaderBlock.ReadersAgreeIff`).

## Model

| member | source | states |
|---|---|---|
| VisionWire.DrainFrame | native/vless.go:393-443 | decoding one frame at a boundary yields its content, whatever follows, and goes on right behind its padding |
| VisionWire.FrameRoundTripIff | native/vless.go:387 | a padded piece of any command decodes to its content exactly when its length fits the 16-bit field, or it is an End piece whose overflow is not touched by the padding or is all zeros |
| VisionWire.OversizeEnd | native/vless.go:387-415 | the same for an End piece above 65535 bytes with any raw tail behind it |
| VisionWire.SpareIsBehind | native/vless.go:406-442 | in memory, every decoded buffer is followed by exactly the rest of the chunk and what lies behind the chunk |
| VisionWire.DrainShrinks | native/vless.go:407-441 | decoding never yields more than it was given, and less behind a header |
| VisionDecode.NoCutSplits | native/vless.go:406-442 | decoding a prefix that cuts no header and then the rest gives the bytes, registers and well-formedness of one decoding |
| VisionDecode.SegmentationIff | native/vless.go:412-415 | a chunk may be decoded apart from every possible continuation exactly when it does not stop inside a header |
| VisionDecode.CutWitness | native/vless.go:413-415 | a chunk that cuts a header has a continuation that shows it: different registers from one decoding |
| VisionDecode.SegmentationIndependent | native/vless.go:393-443 | any list of chunks that never cuts a header decodes to the bytes and final registers of the single chunk |
| VisionDecode.DrainFrames | native/vless.go:393-443 | a chain of frames with its raw tail decodes to all contents and the tail, and leaves the last command in the register |
| VisionFilter.XtlsNeedsEvidence | native/vless.go:332-366 | over every run, with any memory behind the slices: direct switching is enabled only after a ServerHello record, the TLS 1.3 bytes at or after it, and an allowed cipher taken from behind a session id; the remaining ServerHello stays in -1..65540 |
| VisionFilter.TakenIsAnnouncedIff | native/vless.go:340-346 | for one hello: every memory behind it leaves the filter with an announced allowed cipher or none exactly if the cipher lies inside the buffer, or only its first byte does and is not 0x13 |
| VisionFilter.AnnouncementIff | native/vless.go:332-366 | for one hello: whatever lies behind it, switching is enabled only after an announcement exactly if it keeps its cipher so or does not show the TLS 1.3 bytes |
| VisionFilter.RunAnnouncementIff | native/vless.go:332-366 | for any run of buffers: the same exactly if it holds with the worst memory behind each hello |
| VisionFilter.XtlsNeedsAnnouncement | native/vless.go:340-366 | over every run in which each hello keeps its cipher, switching is enabled only after an announcement within a ServerHello record |
| VisionFilter.CipherFromBehind | native/vless.go:340-346 | a 79-byte ServerHello for which the cipher is taken from behind the buffer, so that switching is enabled without any such announcement |
| VisionFilter.PanicIff | native/vless.go:340-344 | the cipher slice is out of range exactly when a ServerHello of at least 79 bytes names a session id reaching past the slice's capacity |
| VisionFilter.LegalSessionIdsNeverPanic | native/vless.go:340-344 | session ids of at most 32 bytes never make any run panic |
| VisionWriter.LastIndex | native/vless.go:450 | the last position of the record header, and no later one |
| VisionWriter.Reshape | native/vless.go:445-455 | one or two pieces that concatenate to the buffer |
| VisionWriter.EmitShape | native/vless.go:284-325 | one padding loop emits Continue frames and at most one End or Direct frame, and loses no byte of its pieces |
| VisionWriter.RunInv | native/vless.go:280-330 | after every run of writes and peer data: UUID once and first, a legal chain of frames, contents plus tail plus raw bytes equal the inputs, and the filter is the run over what it was fed |
| VisionWriter.SwitchSafety | native/vless.go:284-317 | at most one End or Direct frame; raw bytes only behind Direct, unpadded bytes only behind End; Direct implies the TLS 1.3 bytes and an allowed cipher taken, and an announced one where every hello keeps its cipher |
| VisionWriter.RunRoundTrip | native/vless.go:280-330 | decoding everything given to the vision layer and appending what went raw gives exactly the inputs, for every run whose frames survive their length fields |
| VisionWriter.ChainRoundTripIff | native/vless.go:368-391 | a chain of frames decodes to its contents after each of its frames exactly when every frame survives |
| VisionWriter.RunRoundTripIff | native/vless.go:280-330 | so the peer has what was written after every frame of a run exactly when all its frames survive |
| VisionWriter.WholeMayCoincide | native/vless.go:406-415 | a chain with a frame that does not survive may still decode right as a whole, so the condition on every prefix is the exact one |
| VisionWriter.FittingChain | native/vless.go:368-391 | every chain of surviving frames is, on the wire, a chain of fitting ones with the overflow of the last frame in the raw tail |
| VisionWriter.ShortPiecesRoundTrip | native/vless.go:280-330 | the same from what a caller can check: no piece longer than 65535 bytes |
| VisionSwitch.OneBlock | native/vless.go:280-391 | a write of at most 8170 bytes while padding is one block: the UUID once, a command byte, both lengths, the bytes and the zeros; the command is 2 exactly for application data of a stream that may go raw, 1 exactly for that of other TLS streams or with the last filtered packet of a stream without a ServerHello, else 0; and the padding ends exactly then |
| VisionSwitch.PaddedTo | native/vless.go:368-377 | short pieces of TLS streams are padded to 900 up to 1399 bytes, all others by at most 255 |
| VisionSwitch.EnabledStreamSwitches | native/vless.go:289-329 | once a stream may go raw, its next application data goes out as a Direct block and everything after it raw |
| VisionSwitch.SwitchIff | native/vless.go:280-330 | over every run: writing is raw exactly if application data was written while the stream could go raw and no write before had ended the padding otherwise; the padding goes on exactly if no write has ended it |
| VisionSwitch.EnablesIff | native/vless.go:332-366 | one call of the filter enables the switch exactly for a ServerHello that names TLS 1.3 and one of the ciphers 0x1301 to 0x1304 at the place its session id says |
| VisionSwitch.HelloProgress | native/vless.go:332-366 | what one call leaves of the record to come, when the filter stops, the cipher it remembers, and when it enables the switch |
| VisionSwitch.SeesTlsIff | native/vless.go:335-349 | TLS is seen exactly in a handshake record of version 3.3 or a ClientHello of any version 3 |
| VisionSwitch.Tls13Switches | native/vless.go:280-366 | a TLS 1.3 connection from its first byte: the ClientHello goes padded, the peer's ServerHello enables the switch, and the first application data goes Direct |
| VisionSwitch.PlainStreamEnds | native/vless.go:299-303 | a stream without a handshake record, however long: six Continue blocks, the seventh write as End, and the rest unpadded behind it |
| VisionSwitch.SplitsAt | native/vless.go:445-455 | writes from 8171 bytes on are split before their last record header of application data, or behind 4096 bytes |
| VisionReader.Serve | native/vless.go:267-271 | reading from the decoded buffers takes their bytes in order, and nothing only when they are exhausted |
| VisionReader.ReadConserves | native/vless.go:207-278 | one read with a large enough buffer delivers the next bytes to come; end of file and errors leave nothing undelivered |
| VisionReader.PassThroughIff | native/vless.go:229-234 | once decoding is over a read delivers what arrived exactly when its buffer is larger than 8192 bytes |
| VisionReader.OutsidePassesIff | native/vless.go:395-405 | outside the padding a filtered segment passes unchanged exactly when it does not look like an opening segment |
| VisionReader.FutureInside | native/vless.go:236-272 | in any segmentation without a cut header and quiet behind End, the reads to come deliver what one decoding of the rest gives, and behind Direct the buffered input, the raw input and the raw connection |
| VisionReader.ReadDelivers | native/vless.go:207-278 | a fresh reader delivers the contents of any chain of frames, its tail, or the bytes of the switch |
| VisionHears.FirstBlockRead | native/vless.go:207-278 | a read delivers the content of the first block and shows it to the filter with what lies behind it in memory; by its command it goes on decoding (0), stops (1), or turns to the raw connection and hands on what uTLS had buffered (2); any other command is an error |
| VisionHears.HelloIsHeard | native/vless.go:207-366 | a peer's TLS 1.3 ServerHello in a padded block enables the switch for the writing half, whose next application data goes Direct |
| VisionTurns.GoodFuture | native/vless.go:207-278 | before, inside or behind the padding, what the reads to come deliver does not depend on the filter |
| VisionTurns.GoodRead | native/vless.go:207-278 | a read from such a state leads to such a state with less to come, is never an unknown command, and with legal session ids never a panic |
| VisionTurns.TurnsDeliver | native/vless.go:207-330 | over every order of reads and writes of one connection: the delivered bytes are a prefix of what is owed and all of it at end of file, and with legal session ids enough reads reach the end of file |
| VisionTurns.CrossedTurns | native/vless.go:306-315 | once an end has written Direct itself, no turn takes anything from the vision connection, and what is still to arrive there has no influence on what is delivered |
| VisionTurns.CrossedLoses | native/vless.go:306-315 | a fresh reader that is owed one padded byte behind an own Direct write reports the end of file without it |
| VisionReader.CrossedCallIff | native/vless.go:218-234 | a read behind the own Direct write does what it should exactly if the peer has switched, something is pending, or nothing arrives on either connection |
| VisionTurns.EndToEnd | native/vless.go:207-330 | while the peer takes turns reading and writing, its reads deliver what the application wrote, in order: a prefix at any time, all of it at end of file, which enough reads reach when session ids are legal; whether the run ends padded, by End, with an oversize End frame that survives, or by Direct |
| VisionConnection.VisionConn.FilterTLS | native/vless.go:332-366 | the fields after a call are the filter step of the fields before it, on the slice and the memory behind it |
| VisionConnection.VisionConn.Padding | native/vless.go:368-391 | emits the UUID once and then the encoded frame with the padding length drawn |
| VisionConnection.VisionConn.UnPadding | native/vless.go:393-443 | the decoding loop yields the buffers and registers of the specified decoder, and what lies behind each buffer |
| VisionConnection.VisionConn.ChooseCommand | native/vless.go:289-304 | the command of a piece, and when padding ends or direct writing begins |
| VisionConnection.VisionConn.PadPieces | native/vless.go:286-305 | the padding loop over the pieces: frames, what stays unpadded, and the index of the Direct piece |
| VisionConnection.VisionConn.WritePadded | native/vless.go:306-324 | what a padded write adds to the vision connection and, behind a Direct piece, to the raw one, as far as they take it; it fails exactly when one of them does not take its part |
| VisionConnection.VisionConn.Write | native/vless.go:280-330 | one write adds exactly the specified bytes to each connection as far as it takes them, leaves the specified registers, and reports count and failure as the source does |
| VisionConnection.VisionConn.Absorb | native/vless.go:237-261 | decoding a chunk and obeying its command, including the hand-over of the bytes uTLS had buffered |
| VisionPieces.UnPadLies | native/vless.go:406-442 | the decoded buffers of a chunk are slices of it, one behind the other and in order |
| VisionPieces.PlacedTexts | native/vless.go:227-270 | so slices of the array the chunk was read into hold the decoded bytes |
| VisionPieces.OverlapIsHarmless | native/vless.go:207-217 | copying the first bytes of such a slice to the front of the same array spoils no byte still to be delivered |
| VisionConnection.VisionConn.ReadPending | native/vless.go:208-217 | what the previous chunk left is delivered first, also when it lies in the buffer it is copied into |
| VisionConnection.VisionConn.Read | native/vless.go:207-278 | one read changes the object and answers as the specification of a read does, with what is pending as the caller's buffer holds it now, also when an own Direct write has replaced the connection under it |
| VisionConnection.VisionConn.ReadOn | native/vless.go:207-278 | reading again and again into one buffer that is left alone in between collects exactly the bytes the turns deliver |
| VisionTurns.ReadsAreTurns | native/vless.go:207-278 | collecting the bytes of repeated reads is a run of read turns |
| VmessKdf.Pad64 | lib/core/vmess.js:44-48 | the buffer is the zero-padded (or cut) key block exclusive-ored with the pad byte |
| VmessKdf.KdfMachine.SumLevel | lib/core/vmess.js:72-80 | with the pads of its levels and a message in the shared state, a level yields the nested HMAC of the message in 2^(level+1) hash computations |
| VmessKdf.VmessKdf | lib/core/vmess.js:59-83 | the derivation is the tower of HMACs keyed by the base label and the paths, with exactly 2^(n+1) hash computations |
| VmessKdf.ShortKeysAreRfc | lib/core/vmess.js:43-58 | for keys of at most 64 bytes the tower is that of section 2 of RFC 2104 |
| VmessKdf.RfcIff | lib/core/vmess.js:43-58 | the derivation gives the digest of RFC 2104 for every hash and message exactly when no key has more than 64 bytes |
| VmessKdf.NestedInjective | lib/core/vmess.js:59-83 | over an injective hash, equal digests mean equal keys and equal messages |
| VmessKdf.GoHmac.Sum | test/kdf-compare.mjs:38-44 | the digest is the nested HMAC although inner and outer hash above the lowest level are one object |
| VmessKdf.GoHmac.Reset | test/kdf-compare.mjs:45-48 | resetting puts the pads of this level and all below back into the one hash object at the bottom |
| VmessKdf.RefKdf | test/kdf-compare.mjs:52-69 | the reference with aliased objects is the same tower of HMACs |
| VmessKdf.KdfCompare | test/kdf-compare.mjs:71-75 | derivation and reference agree for every hash, key and path list, and with RFC 2104 for short paths |
| VmessKdf.BaseDigest | lib/core/vmess.js:59-83 | without paths the digest is one HMAC under the text "VMess AEAD KDF", with the pad bytes 0x36 inside and 0x5c outside |
| VmessKdf.OnePathMore | lib/core/vmess.js:59-83 | one more path is one more HMAC with these pad bytes over the derivation below it |
| VmessKdf.OneRfcLevelMore | lib/core/vmess.js:43-58 | the tower of RFC 2104 grows by the same HMAC, with long keys hashed first |
| VmessChunks.NonceIff | lib/core/vmess.js:199-205 | two counts make the same nonce exactly when they agree modulo 65536 |
| VmessChunks.NonceBytes | lib/core/vmess.js:199-205 | the nonce is the count in two bytes, most significant first, and then bytes 2 to 11 of the IV |
| VmessChunks.ChunkBytes | lib/core/vmess.js:221-232 | a chunk on the wire is the sealed length, most significant byte first, and the slice sealed under that nonce without additional data |
| VmessChunks.VmessChunkWriter.SendChunk | lib/core/vmess.js:227-230 | seals under the nonce of the running count, and throws exactly from count 65536 on |
| VmessChunks.VmessChunkWriter.Write | lib/core/vmess.js:221-232 | sends the slices of its input as long as nonces last, and throws exactly when they do not |
| VmessChunks.VmessChunkWriter.NoncesDistinct | lib/core/vmess.js:208-239 | no nonce is used twice, whatever was written |
| VmessChunks.BodyRoundTrip | lib/core/vmess.js:221-262 | everything written and the end marker read back as the written bytes and then the end |
| AeadFraming.Cut | lib/core/vmess.js:225-226 | the slicing loop yields slices of 1 to 16383 bytes that concatenate to the input |
| AeadFraming.SlicesAre | lib/core/vmess.js:225-226 | slice number i is the i-th 16383 bytes of the input, the last one what remains |
| AeadFraming.SizeField | lib/core/vmess.js:228-229 | a size field lies in 17..16399, so it neither overflows nor equals the end marker |
| AeadFraming.OpensSealed | lib/core/vmess.js:101-107 | what was sealed is opened under the same count, an empty text, too; what is shorter than a tag is not |
| AeadFraming.StreamRoundTrip | lib/core/vmess.js:254-262 | a reader in step with the writer's counter gets the slices back and then what follows |
| AeadFraming.ReadChunksPrefix | lib/core/vmess.js:254-262 | a cut stream reads as the beginning of the whole one, and as all of it if it holds the end marker |
| SsFraming.SsNoncesDistinct | lib/core/transports.js:249-258 | different counters below 2^64 make different nonces |
| SsFraming.NonceBytes | lib/core/transports.js:249-258 | the nonce is the counter in eight bytes, least significant first, and four zeros |
| SsFraming.ChunkBytes | lib/core/transports.js:260-265 | a chunk on the wire is the sealed length and the slice sealed with its own length as additional data, both most significant byte first |
| SsFraming.SsWriter.Write | lib/core/transports.js:299-305 | sends the slices of its input, each under the next counter |
| SsFraming.SendAll | lib/core/transports.js:286-305 | a connection is the salt, the sealed address under counter 0, and the slices of all writes under the counters from 1 |
| SsFraming.SsRoundTrip | lib/core/transports.js:286-305 | a peer behind the salt reads the address first and then exactly the bytes written |
| WsFrames.MaskTwice | lib/core/ws.js:52-56 | masking twice is the identity (section 5.3 of RFC 6455) |
| WsFrames.MaskPayload | lib/core/ws.js:52-56 | the filled buffer is the masked payload |
| WsFrames.WriteFrame | lib/core/ws.js:74-91 | one write is one masked binary frame in the length form its size asks for |
| WsFrames.ClientFrameOnWire | lib/core/ws.js:74-91 | the bytes of one write: 0x82, mask bit and length in the shortest form with its bytes, the key, and every payload byte exclusive-ored with the key byte of its turn |
| WsFrames.FirstByteDecides | lib/core/ws.js:99-121 | by the low four bits of the first byte the reader ends (8), answers and skips (9), skips (10), or passes the payload on |
| WsFrames.FrameRoundTrip | lib/core/ws.js:74-108 | parsing undoes encoding in all three length forms, masked or not, whatever follows |
| WsFrames.PongWellFormedIff | lib/core/ws.js:111-117 | the answer to a ping is a well-formed pong exactly for payloads below 126 bytes |
| WsFrames.ContentOfFrames | lib/core/ws.js:94-122 | any frames, with pings and pongs anywhere in between, yield exactly their payload bytes |
| WsFrames.ContentPrefix | lib/core/ws.js:97-121 | what a cut stream yields is the beginning of what the whole one does |
| WsFrames.EveryPingAnswered | lib/core/ws.js:110-119 | between two payloads every ping is answered once, in order, under a mask key of its own, and nothing else is written |
| SocketBuffers.EveryRun | lib/core/transports.js:36-97 | under any interleaving of events and calls: delivered bytes and buffer are the bytes received before the close, promises settle in call order, a fixed read gets its count and another at least one byte, and the head waiter cannot be served |
| SocketBuffers.InterleavingIndependent | lib/core/transports.js:63-87 | what fixed reads deliver depends on the bytes and the counts only |
| SocketBuffers.DeliveredAcrossCloseIff | lib/core/transports.js:50-96 | for any run before a close and any events and calls after it: what is delivered in all is what was delivered before, and everything received exactly when nothing was buffered at the close |
| SocketBuffers.CloseAbandonsBuffer | lib/core/transports.js:50-56 | a read served from the buffer before the close is rejected after it |
| SocketBuffers.EndSettles | lib/core/transports.js:50-96 | a close gives null to open reads and rejects fixed ones, a failure rejects all, each in the order of the calls, and after the close reads end so at once |
| SocketBuffers.SocketBuffer.FlushWaiters | lib/core/transports.js:63-78 | the flush loop serves waiters from the head as the specification does |
| SocketBuffers.SocketBuffer.OnData | lib/core/transports.js:45-49 | a data event is the specified step |
| SocketBuffers.SocketBuffer.OnClose | lib/core/transports.js:50-56 | a close settles all waiters in order, with null or a rejection |
| SocketBuffers.SocketBuffer.OnError | lib/core/transports.js:57-60 | an error rejects all waiters in order and keeps the buffer |
| SocketBuffers.SocketBuffer.Read | lib/core/transports.js:81-87 | a fixed read queues behind the others or is rejected after the close |
| SocketBuffers.SocketBuffer.ReadAny | lib/core/transports.js:90-96 | an open read queues behind the others or gets null after the close |
| ByteStack.Link.Await | lib/core/transports.js:81-87 | an awaited read yields the next bytes of the stream however events interleave with it, and fails only when they never come or the socket closes or fails |
| ByteStack.WsStream.ReadFrame | lib/core/ws.js:99-108 | the awaits of one turn read exactly one frame off the stream |
| ByteStack.WsStream.Next | lib/core/ws.js:97-121 | the loop yields the next non-empty payload, leaves the stream behind it, and has written exactly one pong for every ping on the way; a socket that closes or fails can only make it fail |
| ByteStack.IterableSource.Read | lib/core/transports.js:317-326 | a read of n bytes yields the next n payload bytes across frames, and fails only when they never come or the socket closes or fails |
| ByteStack.VmessChunkReader.ReadChunk | lib/core/vmess.js:255-261 | one chunk, the end at size zero, or a failure, as the framing says; from the 65537th chunk on it throws |
| ByteStack.SendBody | lib/core/vmess.js:221-238 | a body goes out as its sealed slices and the end marker, one masked frame each, and throws exactly beyond 65536 slices |
| ByteStack.BodyFramesCarry | lib/core/vmess.js:221-238 | those frames carry exactly the body bytes |
| ByteStack.EndToEnd | lib/core/transports.js:313-326 | for any writes of at most 65536 slices, any frames carrying them with control frames in between, any masks, segmentation and interleaving: the receiver yields exactly the bytes written and then the end; if the socket closes or fails at any point it yields a prefix and fails, unless the end was already read |
| Checksums.Crc32Js | lib/core/vmess.js:111-120 | the computation in signed JavaScript numbers is the unsigned CRC-32 of section 8 of RFC 1952 |
| Checksums.Fnv1aJs | lib/core/vmess.js:31-38 | the computation in signed JavaScript numbers is the unsigned FNV-1a |
| Checksums.CrcBitInjective | lib/core/vmess.js:115-117 | one bit step is injective because the polynomial's top bit is set |
| Checksums.CrcDetectsBursts | lib/core/vmess.js:111-120 | messages that differ within four consecutive bytes, so in any single byte, have different checksums |
| Checksums.PrimeCancels | lib/core/vmess.js:35 | multiplying by the odd prime modulo 2^32 is injective |
| Checksums.FnvDetectsBursts | lib/core/vmess.js:31-38 | messages that differ within two consecutive bytes, so in any single byte, have different hashes |
| Checksums.CrcKnownAnswers | lib/core/vmess.js:111-120 | no byte has the checksum 0, one byte of ones 0xff000000 |
| Checksums.CrcBitOf | lib/core/vmess.js:115-117 | a shift of the register by the reflected polynomial 0xedb88320 |
| Checksums.CrcByteMore | lib/core/vmess.js:113-118 | one byte more goes into the low end of the register, and eight shifts follow |
| Checksums.FnvByteMore | lib/core/vmess.js:31-38 | the hash starts from 0x811c9dc5, and every byte is exclusive-ored in and multiplied by 0x01000193 |
| Checksums.FnvKnownAnswer | lib/core/vmess.js:31-38 | the hash of the byte 0xc5 |
| Cidr.MaskTestIff | lib/core/rules.js:146-147 | the mask test decides "same leading bits", for every integer prefix with the shift count taken modulo 32 |
| Cidr.InCnCidr4 | lib/core/rules.js:82-89 | the loop finds a row before the first larger base; on sorted normalised tables it decides containment |
| Cidr.EarlyExitIsHarmless | lib/core/rules.js:84 | on sorted normalised tables the early exit loses nothing |
| Cidr.SortedLookupIff | lib/core/rules.js:82-89 | on a sorted table an address is found exactly when a row that starts at or below it contains it |
| Cidr.EarlyExitRightIff | lib/core/rules.js:82-89 | a sorted table is looked up rightly for all addresses exactly when every row's part below its base is covered by rows that start early enough |
| Cidr.NormalisedIff | scripts/build-cn-data.mjs:73-90 | for a single row the early exit is right for all addresses exactly when the row has no bits behind its prefix |
| CidrTables.PackCidrs | scripts/build-cn-data.mjs:73-90 | the rows of the accepted lines, sorted by base and then prefix |
| CidrTables.DottedLineIsRow | scripts/build-cn-data.mjs:75-86 | a dotted quad with a readable prefix is the row of its number and that prefix |
| CidrTables.SortIsDetermined | scripts/build-cn-data.mjs:88 | two sorted orders of the same rows are the same list, however the library sorts |
| CidrTables.BuildThenLookup | lib/core/rules.js:82-89 | in the table built from any list, an address is found exactly when the block of an accepted line that starts at or below it holds it |
| CidrTables.LookupInList | lib/core/rules.js:82-89 | from the list's text to the answer; if all lines are normalised, an address is found exactly when some accepted line's block holds it |
| Cidr.BitLoop | lib/core/rules.js:155-161 | the bit loop decides "same leading bits" of the two 128-bit numbers made of the groups' low 16 bits, with the prefix cut to 0..128 |
| Cidr.LeadingBits | lib/core/rules.js:156-160 | agreeing in the first p bits is agreeing in the number they make |
| Cidr.InCnCidr6 | lib/core/rules.js:92-117 | the table lookup finds an address exactly when it is a listed network itself, on sorted tables |
| Cidr.TableMissesInside | lib/core/rules.js:103 | an address inside a listed network is missed |
| Cidr.Lookup6RightIff | lib/core/rules.js:92-117 | a sorted table is looked up rightly for every address exactly when it lists every address of its networks |
| Cidr.HostRowIff | lib/core/rules.js:92-117 | a single row is looked up rightly for every address exactly when its prefix is at least 128 |
| Suffixes.Prune | scripts/build-cn-data.mjs:63-68 | pruning in length order keeps an antichain that covers every entry |
| Suffixes.PruneIsCanonical | scripts/build-cn-data.mjs:63-68 | exactly the entries no other entry covers are kept, whatever the order among equal lengths |
| Suffixes.PruneKeepsMeaning | scripts/build-cn-data.mjs:63-68 | the pruned table matches the same hosts |
| Suffixes.KeptCovers | scripts/build-cn-data.mjs:58-61 | an accepted domain is covered by the two or three labels it is cut to |
| Suffixes.EntryOfLabels | scripts/build-cn-data.mjs:55-61 | a listed name becomes its last two labels, or three where the last two are one of the listed endings |
| Suffixes.ExtractSuffixes | scripts/build-cn-data.mjs:49-70 | the table matches exactly the hosts below some accepted domain's entry, without a redundant entry |
| Suffixes.Lookup | lib/core/rules.js:231-235 | the probes at the whole name and behind every dot find an entry exactly when one covers the host, or the host ends in .cn |
| Suffixes.BuildThenLookup | lib/core/rules.js:231-235 | every accepted listed domain and every name below it is found in the built table |
| Rules.ScanIff | lib/core/rules.js:193-200 | the reference scan answers with the first line that speaks about the target, and only then |
| Rules.PartitionKeepsMeaning | lib/core/rules.js:193-200 | asking only the list of the target's kind is asking all rules in their common order |
| Rules.CompiledScan | lib/core/rules.js:189-200 | asking the compiled rules is scanning the lines |
| Rules.ForeignUserLine | lib/core/rules.js:185-201 | a user line that is no rule, or a rule of another kind, can be taken out anywhere without changing the decision |
| Rules.ForeignOrExcludedLine | lib/core/rules.js:189-200 | the same for a subscription line that is foreign or excluded |
| Rules.UserLinesDecide | lib/core/rules.js:185-200 | where a user line speaks, the decision is that of the first such line, whatever the subscription, the exclusions and the tables say |
| RuleLines.HostLineIff | lib/core/rules.js:124-171 | a DOMAIN, DOMAIN-SUFFIX, DOMAIN-KEYWORD or MATCH line answers, with the action it names, for exactly the hosts that are, end in, or hold its text in lower case, or for all |
| RuleLines.HostLineDecides | lib/core/rules.js:185-237 | a first user line that covers a host decides for it as its text says, whatever lines, subscription and tables come behind |
| RuleLines.Ip4LineIff | lib/core/rules.js:141-148 | an IP-CIDR line is a rule exactly if address and prefix can be read, and answers for exactly the addresses with its leading bits |
| RuleLines.Ip6LineIff | lib/core/rules.js:149-165 | the same for an IP-CIDR6 line |
| RuleLines.RuleIsKnown | lib/core/rules.js:124-134 | only lines of a known kind with a known action are rules, and comments are not |
| RuleLines.ExcludedIff | lib/core/rules.js:188-191 | a line of the subscription is left out exactly if it holds an excluded text |
| RuleLines.SubscriptionDecides | lib/core/rules.js:185-237 | where no user line speaks, the first line of the subscription that is left in and speaks decides |
| RuleLines.DefaultIff | lib/core/rules.js:223-237 | where no line speaks: direct exactly for what the embedded tables hold, the proxy for all else |
| RuleLines.EmbeddedHostIff | lib/core/rules.js:231-235 | the tables hold a host exactly if it ends in .cn, is an entry, or has an entry behind one of its dots |
| Rules.RuleEngine.constructor | lib/core/rules.js:185-201 | the three lists are the parts of the rules of user lines and unexcluded subscription lines |
| Rules.RuleEngine.MatchIp | lib/core/rules.js:209-213 | first IPv4 rule, then the embedded table |
| Rules.RuleEngine.MatchIp6 | lib/core/rules.js:216-220 | first IPv6 rule, then the embedded table |
| Rules.RuleEngine.Decide | lib/core/rules.js:223-237 | the decision is that of one scan over user lines, then unexcluded subscription lines, then the embedded tables, then the proxy |
| AddressText.DottedIsNumber | lib/core/rules.js:60-64 | a dotted quad is read as the big-endian number of its bytes |
| AddressText.FullTextIsRead | lib/core/rules.js:76-78 | eight hexadecimal groups are read as their numbers |
| AddressText.ShortTextIsRead | lib/core/rules.js:68-75 | a double colon stands for the missing zero groups, wherever it is put |
| AddressText.FullTextWithDouble | lib/core/rules.js:72 | a double colon where no group is missing makes the text unreadable |
| AddressText.SecondDouble | lib/core/rules.js:69 | what stands behind a second double colon is not looked at |
| AddressText.ShorteningKeepsAddress | lib/core/rules.js:67-79 | a double colon in place of a run of zero groups spells the same address |
| AddressText.ShortenedText | lib/core/rules.js:67-79 | any full text in which a double colon replaces the parts of a zero run is read like the full text |
| AddressText.PrintedGroupsAreRead | lib/core/proxy-server.js:172-173 | the host text made of an IPv6 request is read by the routing as that address |
| LiteralHosts.DottedHost | lib/core/rules.js:223-227 | a dotted quad is decided as the IPv4 address it spells |
| LiteralHosts.PrintedIpv6Host | lib/core/rules.js:223-229 | the host text of an IPv6 request is decided as that IPv6 address |
| LiteralHosts.LiteralRequestIsRouted | lib/core/rules.js:223-237 | a SOCKS5 request for an address literal is routed by the bytes of the request |
| Environments.Process.SnapshotEnv | lib/core/inject.js:25-29 | the snapshot holds every proxy variable as it is, absent ones included |
| Environments.Process.Inject | lib/core/inject.js:53-63 | points the proxy variables at the port, leaves all others, and returns the snapshot |
| Environments.InjectedVariables | lib/core/inject.js:53-63 | the six traffic variables hold "http://127.0.0.1:" and the port, the other two the exceptions, and every other variable what it held |
| Environments.Process.Restore | lib/core/inject.js:64-69 | puts every proxy variable back, absent ones included, and leaves all others |
| Environments.RestoreUndoesInject | lib/core/inject.js:53-70 | restoring undoes an injection, whatever was written to other variables in between |
| Lifecycle.RunKeeps | lib/core/manager.js:159-201 | over every run: no pending undo means the original variables, a pending undo holds them, and other variables hold what others wrote |
| Lifecycle.StopRestores | lib/core/manager.js:176-190 | a stop that completes leaves the environment as if the proxy had never run, with no server and port 0 |
| Lifecycle.AtRest | lib/core/manager.js:286-327 | between operations: running means a server and a pending undo; a pending undo means the environment names the current port; none means the environment is untouched |
| Lifecycle.Settles | lib/core/manager.js:286-327 | an operation under way can always go on, and is over after at most nine awaits, whatever happens meanwhile |
| Lifecycle.StuckIff | lib/core/manager.js:192-198 | an operation gets stuck exactly when it is a restart beginning while disabled or switched off |
| Lifecycle.StuckForever | lib/core/manager.js:159-163 | from then on no queued operation runs and the environment stays as it is |
| Lifecycle.SwitchedOffThenReconfigured | lib/core/manager.js:203-233 | switching off at run time and then reconfiguring leads there |
| Lifecycle.BeginIff | lib/core/manager.js:165-228 | which operations bring the proxy up, take it down, load, get stuck, or end at once with which status, each if and only if |
| Lifecycle.StartEndsIff | lib/core/manager.js:286-327 | a start that is over left the proxy running, listening and in the environment exactly if every call ended well; otherwise it ended without a subscription, failed without a server, or could not undo the old dispatcher |
| Lifecycle.StartBringsUp | lib/core/manager.js:165-173 | from a fresh manager a queued start with an enabled section ends running, with a server on the port and the environment pointed at it |
| Lifecycle.FailureEnds | lib/core/manager.js:317-327 | the catch block of a start puts the environment back, unless the dispatcher cannot be undone |
| Lifecycle.StopEnds | lib/core/manager.js:176-190 | a stop ends without server and port, with the environment put back, and stopped unless disabled or without a subscription; where the dispatcher cannot be undone, nothing is stopped |
| Lifecycle.UpdateGoesOn | lib/core/manager.js:213-218 | an update goes on as a start when its load comes back, and is over when it throws |
| Lifecycle.StopOfFresh | lib/core/manager.js:176-190 | stopping a fresh manager changes nothing |
| Lifecycle.StaysDownIff | lib/core/manager.js:192-233 | over every run in which the switch stays off: nothing that could bring the proxy up is ever under way and no server appears exactly when no update of an enabled section begins |
| Lifecycle.UpdateRunsWhileOff | lib/core/manager.js:213-228 | a run that ends running, with a server, although it was switched off all the time |
| Managers.ClashManager.BeginNext | lib/core/manager.js:165-228 | an operation up to its first await is the specified step |
| Managers.ClashManager.AfterStopDispatcher | lib/core/manager.js:180-188 | the rest of a stop |
| Managers.ClashManager.AfterListen | lib/core/manager.js:308-310 | the environment is saved and pointed at the listening port |
| Managers.ClashManager.AfterLoadState | lib/core/manager.js:299-307 | building the engine and the server object may throw into the catch block; otherwise the server is to listen |
| Managers.ClashManager.Return | lib/core/manager.js:286-327 | every stretch between two awaits is the specified step |
| Managers.ClashManager.Drive | lib/core/manager.js:159-228 | any schedule of calls, awaited results and outside writes takes the object through exactly the run of the state machine |
| Managers.ClashManager.DriveToStop | lib/core/manager.js:176-190 | a stop that completes behind any such schedule leaves the environment as if the proxy had never run |
| LatencyPools.NextKeeps | lib/core/manager.js:417-427 | claims stay disjoint, complete up to the cursor, and results are those of the latest finished tests |
| LatencyPools.EveryScheduleTestsAll | lib/core/manager.js:412-429 | for every interleaving: the pool is done exactly when as many tests ended as names are listed, each index was tested once, and the result keys are the listed names |
| LatencyPools.SomeScheduleFinishes | lib/core/manager.js:412-429 | with a worker, every pool can finish, whatever the delays, after as many ends of tests as names are listed |
| LatencyPools.AllNamesIff | lib/core/manager.js:428 | a finished pool has exactly the listed names as keys if and only if a worker is allowed or nothing is listed |
| LatencyPools.Call.Return | lib/core/manager.js:419-425 | a worker stores its delay in both maps and claims the next index or returns |
| Varint.AppendReadsBack | native/frame.go:24-35 | what is written stands, by section 16 of RFC 9000, for the value modulo 2^62, whatever follows |
| Varint.StandardRoundTripIff | native/frame.go:24-35 | it stands for the value itself exactly below 2^62 |
| Varint.VarintLenIsShortest | native/frame.go:11-22 | the length is the one written, and no encoding is shorter |
| Varint.ReaderIsStandardIff | native/frame.go:37-64 | the reader does what the standard says exactly where no whole number in the eight-byte form stands in front, and crashes there |
| Varint.AppendedOutcome | native/frame.go:24-64 | every number below 2^30 is read back and leaves what follows, every other one crashes the reader |
| Varint.VarintRoundTripIff | native/frame.go:24-64 | the round trip holds exactly below 2^30 |
| Varint.FirstCrash | native/frame.go:56-62 | the number 2^30, its eight bytes, and the crash |
| Varint.Reader.ReadVarint | native/frame.go:37-64 | consumes one varint, or the whole stream when it is short, or crashes on the eight-byte form |
| Varint.Reader.ReadResponse | native/frame.go:85-112 | consumes what the specified response decoder consumes, with its status, its error or its crash |
| Varint.FrameOutcome | native/frame.go:85-112 | a whole response, whatever follows and however its lengths are encoded, is consumed exactly and answered, or crashes the reader when a length is in the eight-byte form |
| Varint.FrameIsConsumed | native/frame.go:85-112 | a whole response whose lengths are in shorter forms is consumed exactly, whatever follows |
| Varint.AnsweredIsFrame | native/frame.go:85-112 | what is answered was such a response, and the rest is left |
| Varint.AnsweredIff | native/frame.go:85-112 | a stream is answered exactly when it begins with such a response |
| Varint.StatusDecides | native/frame.go:107-111 | an answered response is accepted exactly if its first byte is 0, and any other byte is reported as the remote's status |
| Varint.PanicIff | native/frame.go:85-112 | the reader crashes exactly when the first length, or the second behind a whole message, is there in the eight-byte form |
| Varint.CutFrameOutcome | native/frame.go:85-105 | a cut response is never answered: it crashes the reader if a length in the eight-byte form is there, and is an error otherwise |
| Varint.CutFrameIsEof | native/frame.go:85-105 | a cut response with shorter lengths is an error at the end of the stream |
| Varint.ResponseIsAnsweredIff | native/frame.go:84-112 | a response with canonical lengths is answered exactly when message and padding have less than 2^30 bytes |
| HeaderBlock.BlockIsFirst | lib/core/proxy-server.js:215-220 | a head and a rest are returned exactly when they surround the first terminator |
| HeaderBlock.Client.ReadHttpHead | lib/core/proxy-server.js:212-239 | for every chunking: the head before the first terminator, and exactly the bytes behind it put back; without one it waits for ever, or throws if the socket fails |
| HeaderBlock.ReadUntilCrlfCrlf | lib/core/transports.js:160-168 | for every arrival of the bytes: the same head and rest if the block ends within 65537 bytes, an error if the stream goes on, else it waits; a socket that closes or fails can only make it fail |
| HeaderBlock.ReadHandshake | lib/core/ws.js:37-48 | succeeds only for a block within the limit whose status is accepted, always if the socket neither closes nor fails, and leaves what follows |
| HeaderBlock.ReadersAgreeIff | lib/core/transports.js:160-168 | both forms agree exactly for streams or first blocks within the limit |
| Addr.NeverCompressed | lib/core/proxy-server.js:173 | the compression never applies to groups of four digits |
| Addr.KnownCompression | lib/core/proxy-server.js:173 | of any other groups, a first run of two or more zeros is replaced, single ones are not |
| Addr.OctetIff | lib/core/transports.js:142 | an octet of the dotted-quad test is one to three digits that make at most 255 |
| Addr.KnownDigits | lib/core/transports.js:150 | the edges of the hexadecimal digits |
| Addr.ReadSocks5Request | lib/core/proxy-server.js:163-185 | host, port and rest of the three address types, and an error for short or other requests |
| Addr.ReencodeIff | lib/core/transports.js:141-157 | encoding what was parsed gives the same bytes for every IPv4 and IPv6 request, and for a name exactly when its text encodes back and is neither a dotted quad nor holds a colon |
| Addr.ParsedAgain | test/fixtures.mjs:31-52 | the next hop then parses the same host and port |
| Addr.EncodedParses | test/fixtures.mjs:31-52 | parsing undoes encoding for every dotted quad, eight-group text and encodable name, up to the text of literals |

## Left out

- VisionConnection.VisionConn.FilterTLS: a panic is a flag that stops everything after it; the process it takes down is not modelled.
- VisionConnection.VisionConn.Read: what is pending is read from the caller's buffer as it is, so a caller that overwrites it between reads gets what it wrote; buffers that overlap another one in part, zero-length buffers, errors that come together with data, and network errors other than end of file are not modelled; the memory behind a buffer is an arbitrary parameter.
- VisionConnection.VisionConn.Write: the pause of five milliseconds behind a Direct frame is not modelled; a connection fails by taking a prefix of what is written to it.
- VisionTurns.EndToEnd: a first segment of at least 21 bytes, no segment boundary inside a header, and behind the segment that completes an End frame none that looks like an opening one are assumed, since the decoder does not cope with others; reads are larger than 8192 bytes and than every segment; and between an own Direct write and the peer's, reads are served from what is pending (`Orderly`), because of `VisionTurns.CrossedLoses`.
- WsFrames.FrameRoundTrip: payload lengths above 2^53 - 1, which a JavaScript number does not hold, are excluded.
- SsFraming.SsRoundTrip: the framing is proved against itself; it does not follow SIP004, and the first chunk is taken to have 1 to 16383 bytes.
- Checksums.FnvDetectsBursts: longer changes are not covered; the source promises nothing about them.
- Cidr.InCnCidr6: containment in the embedded IPv6 networks is not claimed, because the code does not give it.
- Cidr.BitLoop: groups above 2^53 - 1 are taken exactly, where a JavaScript number would be rounded.
- Suffixes.ExtractSuffixes: matching the list's lines and the final alphabetical sort, which a set forgets, are not modelled; letters are lower-cased in ASCII only.
- Rules.RuleEngine.Decide: white space and case mapping are those of ASCII; the readers of numbers and literals are parameters, and `LiteralHosts` puts those of literals in.
- AddressText.DottedIsNumber: empty, signed, hexadecimal or exponent parts, which `Number` also accepts, are outside the decimal reader.
- AddressText.ShortTextIsRead: white space, signs and a leading 0x, which `parseInt` also accepts, are outside the hexadecimal reader.
- Lifecycle.AtRest: a single live listener is not claimed, because a start replaces the server without stopping the old one; the error text, timers and logging are not modelled, and the fetch dispatcher's disposer is an opaque step that may throw.
- Lifecycle.StopRestores: variables are told apart by case, as on POSIX systems, and nobody else writes the proxy variables.
- Environments.Process.Inject: the composition of the NO_PROXY list is an input.
- ByteStack.EndToEnd: the bytes sent are taken as a whole; errors of writing to the socket are not modelled.
- LatencyPools.EveryScheduleTestsAll: a test is taken to end with a delay or null, never with an exception.
- Cryptography itself, Reality and uTLS, QUIC dialling, the HTTP API, subscription fetching and parsing, packing the CIDR lines, file caching and the browser page are not part of this model.
- The VMess request header and response header sealing use the parts above without adding state, and are left out.
