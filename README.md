# sACN packet codecs and universe discovery receiver, in Dafny

This project models the core of a TypeScript implementation of E1.31
(streaming ACN, "sACN"), the protocol that carries DMX512 lighting data over
UDP multicast:

- `Packet` (src/packet.ts) is the E1.31 data packet: 512 channel slots for
  one universe. A packet is built either from a received buffer, checking
  every fixed protocol field, or from caller options with defaults filled
  in. It serialises back to a 638-byte buffer when the source name fits its
  64-byte field; `padEnd` keeps a longer name whole, and the buffer grows with it.
- `DiscoveryPacket` (src/packet.ts) is the universe discovery packet: a
  120-byte header, then up to 512 two-byte universe numbers per page.
- `DiscoveryReceiver` (src/discovery.receiver.ts) keeps a table of the
  sources it hears, keyed by CID text plus sender address. It stores their
  universe lists by page (page 0 starts a new cycle). It re-arms a timeout
  per source on every packet whose list it read, and forgets a source whose
  timeout fires.

The files:

- `bytes.dfy`: Node `Buffer` bytes, `bit(width, value)`, `empty(n)` and big-endian reads.
- `constants.dfy`: the protocol constants, declared by width.
- `packet_layout.dfy`: the root layer and the source name field, shared by both packets.
- `data_packet.dfy`: the data packet (module `DataPackets`) and its properties (`DataPacketProperties`).
- `discovery_packet.dfy` and `discovery_properties.dfy`: the discovery packet and its properties.
- `source_table.dfy`: the `Source` record, the emitted events and the page update.
- `queues.dfy`: the pending timeouts as a queue in firing order, and the table invariant.
- `discovery_receiver.dfy`: the receiver class.
- `fixtures.dfy`: the test expectations of test/discovery.packet.test.ts, proved about the model.
- `findings.dfy`: the two discrepancies in the discovery serialiser below, and the corrected serialiser.

A constructor that throws is a function returning `Result`.
`assert.strictEqual` failing (an `AssertionError`) is `Corrupt(check)`. A read
past the end of the buffer (a `RangeError`) is `OutOfRange(offset)`. A payload
or list is either the raw bytes of a received packet (`Raw`) or the mapping
given to the options constructor (`Sparse`), as `privatePayload` /
`privateList` are. The receiver is a class whose fields are
`privateSources` (a map plus the insertion order of its keys), `#sourcesID`
(the pending timeouts, in the order they fire), the clock, and the log of
emitted events.

In the message handler the `list` getter runs before `setSourceTimeout`,
and it throws a `RangeError` on a list of odd length. A known source is then
marked heard but neither stores the page nor re-arms its timeout, and an
unknown source is not added at all
(`DiscoveryReceivers.DiscoveryReceiver.OnMessage`).

## Model

| member | source | states |
|---|---|---|
| PacketLayout.NameField | src/packet.ts:149 | `padEnd(64, '\0')`: the name is kept as a prefix, padded with NULs to 64 bytes; a longer name is kept whole |
| Bytes.Bit | src/packet.ts:304-322 | `bit(width, value)` writes exactly width/8 bytes |
| Bytes.BitReadsBack | src/packet.ts:304-322 | the bytes `bit(width, value)` writes read back, big-endian, as the value modulo 256^(width/8) |
| Bytes.ReadBigEndian | src/packet.ts:84-88 | reading back a k-byte big-endian encoding gives the value modulo 256^k |
| Bytes.BigEndianOfRead | src/packet.ts:233-237 | encoding a big-endian read again reproduces the bytes read |
| Bytes.ReadBE | src/packet.ts:233-249 | `readUInt8/16/32BE`: the unsigned value held in the bytes, below 256 to the number of bytes |
| Bytes.Zeros | src/packet.ts:177 | `empty(n)`: n bytes, all zero |
| Bytes.LowByte | src/packet.ts:330 | `Buffer.from` keeps a byte congruent to the value modulo 256 |
| PacketLayout.NameOrDefault | src/packet.ts:125 | a falsy name becomes 'sACN nodejs': a given non-empty name is kept; an unset or empty name gives the default name |
| PacketLayout.AsciiName | src/packet.ts:97 | `toString('ascii', 44, 107)` then NUL removal: never longer than the region, every byte 7-bit and non-zero |
| PacketLayout.NameFieldRoundTrip | src/packet.ts:97 | an ASCII name shorter than 64 bytes, padded and then read back from bytes 44..106, is the same name |
| PacketLayout.NameFieldOfParsed | src/packet.ts:243 | a well-formed name field (7-bit bytes, NULs only as trailing padding), read and padded again, gives the same 64 bytes |
| PacketLayout.RootLayerFields | src/packet.ts:150-156 | the serialised root layer holds preamble size, postamble size, ACN PID, root flags/length, root vector and CID at bytes 0..37 |
| PacketLayout.RootLayerError | src/packet.ts:84-88 | the root checks pass exactly when every root field holds; a buffer shorter than 22 bytes is a RangeError at 18, before any comparison; a mismatch is reported as the corrupt check, and every check made before it holds (root vector, ACN PID, preamble, postamble, in that order) |
| PacketLayout.RootLayerOfParsed | src/packet.ts:232-237 | a root layer that passes the checks re-serialises to the 38 bytes it was read from |
| PacketLayout.ParsedOfRootLayer | src/packet.ts:303-309 | a serialised root layer passes the checks and reads back its flags/length (mod 2^16) and CID |
| DataPackets.FrameLayerError | src/packet.ts:92-100 | the frame-layer reads succeed exactly when the frame vector matches and the buffer reaches byte 114; a buffer shorter than 44 is a RangeError at 40; otherwise a wrong frame vector is reported as corrupt before any later read; a RangeError at 112 or 113 comes only after the vector matched, for the buffer lengths that read fails at |
| DataPackets.DmpLayerError | src/packet.ts:103-109 | the DMP checks pass exactly when the DMP vector, type, first address, address increment and start code all hold; a reported mismatch or RangeError comes after every check made before it held, and a RangeError names the read at 117, 118, 119, 121, 123 or 125 that the buffer length stops |
| DataPackets.ParseData | src/packet.ts:76-110 | a buffer is accepted exactly when every check passes; then each field is the big-endian read at its offset and the payload is the bytes from 126 on; a rejection names a check that fails or a read past the end |
| DataPackets.PriorityOrDefault | src/packet.ts:126 | a falsy priority becomes 100: a non-zero priority is kept; an unset or zero priority gives 100 |
| DataPackets.ConstructData | src/packet.ts:111-135 | the options constructor: name and priority are `NameOrDefault` and `PriorityOrDefault` of the options (the default exactly when unset or falsy), the CID is the given one or the default; sequence and universe are passed through as given; the flags/length words are ROOT_FL, FRAME_FL and DMP_FL; sync universe and options 0; property value count 513; the payload kept as given |
| DataPackets.WriteChannels | src/packet.ts:180-184 | the channel loop writes the scaled value of every payload channel 1..512 at 125 + channel and leaves every other byte alone |
| DataPackets.DataWire | src/packet.ts:148-187 | the serialisation is the header followed by the 512 channel slots (contents in DataPacketProperties.DataWireLayout) |
| DataPackets.PayloadOf | src/packet.ts:138-142 | the `payload` getter: `objectify` of the raw bytes for a parsed packet, the given mapping for a built one |
| DataPackets.PayloadAsBuffer | src/packet.ts:144-146 | `payloadAsBuffer` exists exactly for a packet holding raw bytes, and is those bytes |
| DataPackets.DataBuffer | src/packet.ts:148-187 | the `buffer` getter computes the serialisation `DataWire` |
| DataPacketProperties.DataHeaderFields | src/packet.ts:150-177 | the serialised 126-byte header holds every field at its documented offset, each truncated to its width |
| DataPacketProperties.DataFrameLayerFields | src/packet.ts:159-167 | the framing layer holds flags/length, vector, padded name, priority, sync universe, sequence, options and universe |
| DataPacketProperties.DmpLayerFields | src/packet.ts:169-176 | the DMP layer holds flags/length, vector, type, first address, increment, property value count and start code |
| DataPacketProperties.DataWireLayout | src/packet.ts:177-186 | the serialisation is 638 bytes: the header, then slot ch holds the scaled payload value of channel ch, or 0 |
| DataPacketProperties.DataWireFields | src/packet.ts:148-186 | a serialised packet passes every check of the buffer constructor and each field reads back modulo its width |
| DataPacketProperties.ConstructedDataLengths | src/packet.ts:116-132 | a packet built from options serialises to 638 bytes whose three flags/length words are 0x7000 plus the length from their own offset, and whose property value count is 513 |
| DataPacketProperties.ConstructedDataRoundTrip | src/packet.ts:111-186 | building from options, serialising and parsing gives the constants, the defaults, the given fields truncated to width and the scaled channel bytes |
| DataPacketProperties.ConstructedWidths | src/packet.ts:116-132 | the constants the options constructor sets fit their fields, and the `payload` getter returns the given payload |
| DataPacketProperties.DataRoundTrip | src/packet.ts:76-186 | any packet with an ASCII name under 64 bytes survives serialise-then-parse, field by field modulo width, with the channels as scaled bytes |
| DataPacketProperties.ChannelsOfWire | src/packet.ts:177-184 | bytes 126.. of the serialisation are exactly the 512 scaled channel slots |
| DataPacketProperties.ParsedDataHeaderRoundTrip | src/packet.ts:84-110 | parsing an accepted buffer whose name field is well formed and serialising again reproduces its first 126 bytes |
| DataPacketProperties.ParsedDataFrameLayer | src/packet.ts:92-100 | the framing layer of a parsed packet re-serialises to bytes 38..114 |
| DataPacketProperties.ParsedDmpLayer | src/packet.ts:103-109 | the DMP layer of a parsed packet re-serialises to bytes 115..125 |
| DataPacketProperties.PayloadBuffers | src/packet.ts:144-146 | `payloadAsBuffer` is the bytes from 126 on for a parsed packet and null for a built one |
| DiscoveryPackets.DiscoveryLayerError | src/packet.ts:240-249 | the frame and discovery reads succeed exactly when both vectors match and the buffer reaches byte 119; a buffer shorter than 44 is a RangeError at 40; a wrong frame vector is reported before any later failure; a wrong discovery vector or a later RangeError comes only once the earlier checks held |
| DiscoveryPackets.ParseDiscovery | src/packet.ts:227-250 | a buffer is accepted exactly when every check passes; then each field is the read at its offset, page and last page are bytes 118 and 119, and the list is the bytes from 120 on |
| DiscoveryPackets.ConstructDiscovery | src/packet.ts:252-275 | the options constructor fails exactly when more than 512 universes are given; otherwise a given name, page, last page and CID are kept and each takes its default when unset; the list is kept as given; the flags/length words are 0x7000 + 8 + 2n (discovery), 0x7000 + 82 + 2n (framing) and 0x7000 + 104 + 2n (root) for n universes |
| DiscoveryPackets.List | src/packet.ts:278-292 | the `list` getter loop computes `ListOf`: raw entries under keys page*512+1 on, a RangeError for a trailing odd byte, or the given mapping |
| DiscoveryPackets.ListOf | src/packet.ts:278-292 | a built list is returned as given; a raw list fails exactly when its length is odd, with a RangeError at its last byte; otherwise it is the entries keyed from page*512+1 |
| DiscoveryPackets.Entries | src/packet.ts:282-288 | the keys are exactly first .. first+n-1 for n complete pairs, and key k holds the 16-bit big-endian pair 2(k-first) |
| DiscoveryPackets.ListAsBuffer | src/packet.ts:294-296 | `listAsBuffer` exists exactly for a packet holding a raw list, and is that list |
| DiscoveryPackets.ShiftLeft8 | src/packet.ts:326 | JavaScript's `v << 8`: a signed 32-bit value with a zero low byte, equal to v * 256 for v below 2^23 |
| DiscoveryPackets.EntriesUpToStep | src/packet.ts:282-288 | one more iteration of the list loop adds exactly one key with the next 16-bit entry |
| DiscoveryPackets.DiscoveryWire | src/packet.ts:298-331 | the serialisation exists exactly when the list can be read, and its length is the header plus two bytes per universe |
| DiscoveryPackets.DiscoveryBuffer | src/packet.ts:298-331 | the `buffer` getter, header then the loop over the list, computes `DiscoveryWire` |
| DiscoveryPackets.WithEntriesStep | src/packet.ts:325-328 | one iteration of the serialiser loop writes bytes 120+2i and 121+2i from the entry under key i+1 |
| DiscoveryPacketProperties.ShiftedByteIsZero | src/packet.ts:326 | `v << 8` kept to 8 bits by `Buffer.from` is always 0 |
| DiscoveryPacketProperties.EntriesKeys | src/packet.ts:282-288 | a raw list of n complete entries has exactly the n keys first .. first+n-1 |
| DiscoveryPacketProperties.ParsedList | src/packet.ts:278-296 | of a parsed packet: `listAsBuffer` is the raw list; `list` fails exactly when its length is odd, at offset length-1; otherwise it has length/2 keys from page*512+1, each the big-endian entry |
| DiscoveryPacketProperties.ConstructedList | src/packet.ts:262 | a built packet's `list` is the given universes and its `listAsBuffer` is null |
| DiscoveryPacketProperties.DiscoveryHeaderFields | src/packet.ts:302-322 | the 120-byte header holds root layer, frame flags/length and vector, padded name, reserved zeros, discovery flags/length and vector, page and last page |
| DiscoveryPacketProperties.DiscoveryFrameLayerFields | src/packet.ts:312-315 | the framing layer holds flags/length, vector, padded name and four reserved zero bytes |
| DiscoveryPacketProperties.DiscoveryLayerFields | src/packet.ts:318-321 | the discovery layer holds flags/length, vector, page and last page, each truncated to its width |
| DiscoveryPacketProperties.DiscoveryWireLayout | src/packet.ts:322-330 | after the header, entry i is written as a zero byte and then the low byte of the universe under key i+1 |
| DiscoveryPacketProperties.ConstructedDiscoveryLengths | src/packet.ts:269-274 | a built packet serialises to 120 + 2n bytes whose root, frame and discovery flags/length words are 0x7000 plus the length from their own offset |
| DiscoveryPacketProperties.FlagWords | src/packet.ts:269-274 | the three flags/length words computed from n universes agree with the length of the serialisation |
| DiscoveryPacketProperties.ConstructedFlagWords | src/packet.ts:269-274 | the flags/length words of a built packet fit in 16 bits |
| DiscoveryPacketProperties.HeaderFieldsRead | src/packet.ts:231-250 | a buffer starting with a serialised header is accepted and every header field reads back modulo its width |
| DiscoveryPacketProperties.FrameFieldsRead | src/packet.ts:240-243 | the framing fields of a serialised header read back |
| DiscoveryPacketProperties.DiscoveryFieldsRead | src/packet.ts:246-249 | the discovery-layer fields of a serialised header read back |
| DiscoveryPacketProperties.DiscoveryWireFields | src/packet.ts:298-331 | a serialised packet is accepted by the buffer constructor and its header fields read back |
| DiscoveryPacketProperties.WireEntries | src/packet.ts:325-328 | the list bytes of a serialisation are two per universe: 0, then the low byte of the universe under key i+1 |
| DiscoveryPacketProperties.WireListRoundTrip | src/packet.ts:278-331 | the list read back from a serialisation has, under key page*512+1+i, the low byte of the universe under key i+1, and nothing else |
| DiscoveryPacketProperties.DiscoveryRoundTrip | src/packet.ts:228-331 | serialise-then-parse keeps every header field modulo its width, the ASCII name, and the low bytes of the list |
| DiscoveryPacketProperties.ConstructedDiscoveryRoundTrip | src/packet.ts:252-331 | build from options, serialise, parse: the flags, CID, name, page and last page come back as built, and the list's low bytes |
| DiscoveryPacketProperties.ParsedDiscoveryHeader | src/packet.ts:231-250 | the header of a parsed packet whose name field (bytes 44..107) is well-formed and whose reserved bytes 108..111 are zero re-serialises to its first 120 bytes; the parser checks neither, so other accepted buffers do not |
| DiscoveryPacketProperties.ParsedDiscoveryFrameLayer | src/packet.ts:240-243 | the framing layer of a parsed packet re-serialises to bytes 38..111 |
| DiscoveryPacketProperties.ParsedDiscoveryLayer | src/packet.ts:246-249 | the discovery layer of a parsed packet re-serialises to bytes 112..119 |
| DiscoveryPacketProperties.ParsedDiscoveryRoundTrip | src/packet.ts:228-331 | "returns the same buffer as supplied": an accepted page-0 buffer of even length, with a well-formed name field (bytes 44..107), zero reserved bytes 108..111 and every universe below 256, serialises back to itself |
| SourceTables.Rejected | src/discovery.receiver.ts:96-100 | an `AssertionError` is emitted as 'PacketCorruption' with its check, any other error as 'error' with the error |
| SourceTables.NewPages | src/discovery.receiver.ts:72-79 | page 0 leaves only page 0; another page is added to (or replaces) the pages heard, keeping all others |
| SourceTables.KeyOf | src/discovery.receiver.ts:67 | a source has a key exactly when it has an address; the key is CID text then address |
| SourceTables.SourceKeyInjective | src/discovery.receiver.ts:67 | for CID texts of equal length, equal keys mean equal CID and address |
| TimerQueues.RearmValid | src/discovery.receiver.ts:126-137 | `setSourceTimeout` keeps the queue valid, leaves key pending once, due last at now + timeout |
| TimerQueues.Rearm | src/discovery.receiver.ts:126-137 | after re-arming, the last pending timeout is key's, due a timeout from now, and every other one is an old timeout of another key |
| TimerQueues.KeepTimers | src/discovery.receiver.ts:128 | clearing timeouts keeps only old timeouts of keys not cleared |
| TimerQueues.RearmKeys | src/discovery.receiver.ts:127-131 | re-arming clears the key's pending timeout wherever it was and appends it at the back |
| TimerQueues.RearmSorted | src/discovery.receiver.ts:130-131 | timeouts stay in firing order, none due after now + timeout |
| TimerQueues.RearmedSurvives | src/discovery.receiver.ts:126-137 | a source re-armed at time t is not among the timeouts due before t + timeout |
| TimerQueues.KeepFront | src/discovery.receiver.ts:131-136 | deleting the firing key's timeout removes exactly the front of the queue |
| TimerQueues.UpdateValid | src/discovery.receiver.ts:69-79 | updating a known source (re-armed or not) keeps the table invariant |
| TimerQueues.InsertValid | src/discovery.receiver.ts:80-93 | adding an unknown source, at the end of the order with a new timeout, keeps the table invariant |
| TimerQueues.RemoveValid | src/discovery.receiver.ts:131-136 | deleting a source from the table, the order and the timeouts keeps the table invariant |
| TimerQueues.TableCount | src/discovery.receiver.ts:111-119 | the table has exactly as many sources as the order has keys |
| TimerQueues.NumberedOnce | src/discovery.receiver.ts:111-119 | every source appears in the order, at exactly one position |
| TimerQueues.DueCount | src/discovery.receiver.ts:131 | the timeouts due by now are a prefix of the queue: every timeout before the count is due, and in a queue in firing order none after it is |
| DiscoveryReceivers.DiscoveryReceiver.constructor | src/discovery.receiver.ts:58-59 | a new receiver has no sources, no timeouts and no events |
| DiscoveryReceivers.DiscoveryReceiver.OnMessage | src/discovery.receiver.ts:61-101 | the 'message' handler: rejection emitted with the table unchanged; a known source marked heard, then its page stored, timeout re-armed and packet emitted when the list reads; an unknown source added and announced, then the packet emitted, only when the list reads |
| DiscoveryReceivers.DiscoveryReceiver.Reject | src/discovery.receiver.ts:96-100 | the `catch`: the rejection event is appended and nothing else changes |
| DiscoveryReceivers.DiscoveryReceiver.Refresh | src/discovery.receiver.ts:69-79 | a known source: heard now; its pages updated, its timeout re-armed and the packet emitted when the list reads, otherwise the error emitted |
| DiscoveryReceivers.DiscoveryReceiver.MarkHeard | src/discovery.receiver.ts:71 | only the source's last-heard time changes |
| DiscoveryReceivers.DiscoveryReceiver.StorePage | src/discovery.receiver.ts:72-79 | the page is stored, the timeout re-armed and the packet emitted |
| DiscoveryReceivers.DiscoveryReceiver.Detect | src/discovery.receiver.ts:80-95 | an unknown source is created from the packet and announced before the packet is emitted, or the list error is emitted |
| DiscoveryReceivers.DiscoveryReceiver.AddSource | src/discovery.receiver.ts:90-93 | the source is filed last in order, announced, and its timeout armed |
| DiscoveryReceivers.DiscoveryReceiver.SetSourceTimeout | src/discovery.receiver.ts:126-137 | the key's timeout is replaced by one due a timeout from now; nothing else changes |
| DiscoveryReceivers.DiscoveryReceiver.Timeout | src/discovery.receiver.ts:131-136 | 'sourceTimeout' is emitted with the source as last known, then it leaves the table, the order and the timeouts |
| DiscoveryReceivers.DiscoveryReceiver.FireDue | src/discovery.receiver.ts:131-136 | the front timeout, once due, belongs to a known source, which is reported and forgotten; the queue loses its front |
| DiscoveryReceivers.DiscoveryReceiver.SourceList | src/discovery.receiver.ts:111-119 | the `sources` getter numbers every source 1..n in insertion order |
| DiscoveryReceivers.Number | src/discovery.receiver.ts:113-117 | the getter's loop maps i to the source of the i-th key, for exactly 1..n |
| DiscoveryFixtures.TestListFixture | test/discovery.packet.test.ts:34-45 | a page-0 packet listing {1: 1, 2: 100} serialises its list as 0, 1, 0, 100, which reads back as the same list |
| DiscoveryFixtures.TestListBytes | test/discovery.packet.test.ts:16-18 | the list {1: 1, 2: 100} is written big-endian as 0, 1, 0, 100 |
| DiscoveryFixtures.EmptyListFixture | test/discovery.packet.test.ts:49-65 | an empty list serialises to the 120-byte header alone and reads back empty |
| DiscoveryFixtures.TooManyUniverses | test/discovery.packet.test.ts:68-71 | the test's list of universes 1..513 has 513 entries |
| DiscoveryFixtures.TooManyUniversesRejected | test/discovery.packet.test.ts:67-80 | building a discovery packet from 513 universes fails |
| DiscoveryFindings.HighByteLost | src/packet.ts:325-327 | a universe of 256 or more under key 1 does not come back from serialise-then-parse |
| DiscoveryFindings.HighByteLostExample | src/packet.ts:326 | universe 256 on page 0 is read back as universe 0 |
| DiscoveryFindings.PageEntriesLost | src/packet.ts:283-287 | a received packet of page 1 or later whose first entry has a non-zero low byte does not serialise back to its own buffer |
| DiscoveryFindings.DiscoveryWireIntended | src/packet.ts:298-331 | the corrected serialiser exists exactly when the list reads, with two bytes per universe |
| DiscoveryFindings.IntendedListRoundTrip | src/packet.ts:278-331 | with the corrected serialiser, a list of 16-bit universes filed from page*512+1 reads back unchanged |
| DiscoveryFindings.IntendedParsedRoundTrip | src/packet.ts:228-331 | with the corrected serialiser, an accepted buffer of even length with a well-formed name field (bytes 44..107) and zero reserved bytes 108..111 serialises back to itself, on every page |

## Left out

- The UDP socket (`createSocket`, `bind`, `addMembership`, `close`) and `multicastGroup`: I/O. A datagram is a call of `OnMessage`.
- `EventEmitter`: emitted events are appended to an event log. The model does not capture that an 'error' with no listener throws.
- `objectify` and `inRange(v * 2.55)` from src/util.ts: they are parameters `objectify` and `scale`. src/util.ts is not part of this model.
- `bit`, `empty` and the protocol constants, from src/util.ts and src/constants.ts: `bit` is modelled by its big-endian meaning; the constants are declared by width, so every property holds for any values they have.
- `Buffer.toString('utf8')` on the CID: a parameter of the receiver (`cidText`), since UTF-8 decoding is Node's.
- SourceTables.SourceKeyInjective: stated only for CID texts of equal length. Two different CID texts of different lengths can produce the same key.
- The CID is exactly 16 bytes (`Cid`). A received buffer always slices 16; an options `cid` of another length cannot be given.
- The `Error` thrown when a constructor gets no input (src/packet.ts:76 and 227): a total function has no missing argument.
- Aliasing: the `Source` objects handed to listeners are values here. A listener that later sees the source mutate is not modelled.
- Text: names are byte sequences; `padEnd` is taken to count bytes, as it does for ASCII names. A non-ASCII name, whose UTF-8 form is longer than its UTF-16 length, is not modelled.
- `for ... in` order over `privateSources`: taken to be insertion order. JavaScript visits integer-like keys first, which a CID text plus address does not produce in practice.
- `Date`: a time in milliseconds whose calls never go backwards.
- `setTimeout`/`clearTimeout`: a queue of pending timeouts in firing order. Node's event loop becomes calls of `FireDue`.
- Options `page || 0` and `lastPage || 0`: a supplied 0 and an absent value both give 0, which the model treats as one.
- DataPackets.PayloadOf: the `payload` getter of a parsed packet hands off to `objectify`, a parameter, so the model says only that the raw bytes from 126 on are what it is given.

## Findings

| source | as written | input that shows it | evidently intended | confidence | as-written member | corrected member |
|---|---|---|---|---|---|---|
| src/packet.ts:326 | `n[120 + i * 2] = list[i + 1] << 8` puts `v << 8` in the high-byte slot, and `Buffer.from` keeps only its low 8 bits, which are always 0 | a page-0 packet built with universes {1: 256} serialises that entry as 0, 0 and is read back as universe 0 | the high byte `v >> 8` in slot 120 + 2i | not executed; high | DiscoveryFindings.HighByteLost, DiscoveryFindings.HighByteLostExample | DiscoveryFindings.IntendedListRoundTrip |
| src/packet.ts:325-327 | the serialiser looks entries up under keys 1..n whatever the page, but the `list` getter (line 283) files a received page under keys page*512+1 on | a received page-1 packet listing universe 1 (list bytes 0, 1) finds no key 1 and serialises that entry as 0, 0 | look entries up from page*512+1, as the getter files them | not executed; medium (an options caller may key a later page from 1) | DiscoveryFindings.PageEntriesLost | DiscoveryFindings.IntendedParsedRoundTrip |

The corrected serialiser is `DiscoveryFindings.DiscoveryWireIntended`. It writes entry i as the high byte and
then the low byte of the universe under key page*512+1+i.
`DiscoveryPackets.DiscoveryWire` stays the model of the code as written.
