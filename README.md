# MRT record decoder of libparsebgp, modelled in Dafny

This project models the MRT (RFC 6396) record decoder of libparsebgp:
the class `parseMRT` in `MRTlib/bgp/parseMRT.cpp`. Each call of `parseMsg`
does the following:

- It reads one common header through `extractFromBuffer`.
- It dispatches on the record type.
- For TABLE_DUMP and TABLE_DUMP_V2 records, it copies the body into the
  fixed buffer `mrt_data` (`bufferMRTMessage`). It then decodes the body from
  there: a legacy TABLE_DUMP entry, a Peer Index Table, or a unicast RIB
  record.
- For BGP4MP records, it reads the fixed fields of the record straight from
  the caller's buffer into one of five member structs. It then hands message
  sub-types to the external BGP decoder.

The model has four layers:

- `wire.dfy` and `text.dfy` define the byte-level vocabulary:
  - the `memcpy` into a field (`Overwrite`);
  - a host-order integer read from copied bytes (`HostValue`; the host byte
    order is a parameter);
  - 32-bit and `char` narrowing;
  - the pointer/length pair as a `Cursor`;
  - one read plus the caller's `!= n` test (`Take`);
  - the `%d.%d.%d.%d` text of an address, and its inverse.
- `records.dfy` holds the records the decoder fills, as values, byte-exact.
  `decode.dfy` gives a reference definition of every operation: which
  field is read, in which order, and which throw each short read reaches.
- `parser.dfy` is the class `MrtParser`. Its fields are the members of
  `parseMRT` and its methods are the member functions, written
  imperatively: field reads, early returns for throws, and `while` loops for
  the entry loops. Each method is proved to produce exactly what its
  reference definition says.
- `properties.dfy`, `peer_table.dfy`, `rib.dfy`, `bgp4mp.dfy` and
  `divergences.dfy` prove what the reference definitions imply:
  - how many bytes each record consumes and where each field comes from;
  - the error cases;
  - round trips of the entry loops against an encoder of the layout the
    decoder reads;
  - where the code departs from RFC 6396.

Throws become `Fail` statuses. A bare `throw;` with no active exception
becomes `Fail(Terminated)`, because it ends the program through
`std::terminate`. A `memcpy` with a negative length becomes
`Fail(NegativeCopyLength)`, because it is undefined behaviour.

Two behaviours of the code are worth noting:

- OSPF and IS-IS records are not skipped. Their case labels are commented
  "do nothing" (lines 59-61 and 85), so `parseMsg` reads only their header
  and leaves the cursor right after it, at the start of their body.
- An exhausted buffer is not a clean end. On an empty buffer
  `extractFromBuffer` returns `outputLen - bufLen`, which is `outputLen`
  itself, so the caller's `!= n` test passes (lines 447-448). A header read on an empty
  buffer therefore "succeeds" and returns the previous record's type
  again. A body read on an empty buffer "succeeds" too. It sets
  `mrt_data_len` but copies nothing, so the decoder that follows reads the
  previous record's body again.

## Model

| member | source | states |
|---|---|---|
| Wire.Zeros | MRTlib/bgp/parseMRT.cpp:101 | storage the code never initialises is modelled as `n` bytes, every one zero |
| Wire.Overwrite | MRTlib/bgp/parseMRT.cpp:449 | a field after `memcpy` has the longer of the two lengths; its content is given by Properties.OverwritePrefix |
| Wire.LittleEndianIsReversedBigEndian | MRTlib/bgp/parseMRT.cpp:279 | a copied length field read on a little-endian host is the network-order value of its bytes reversed |
| Wire.Wrap32 | MRTlib/bgp/parseMRT.cpp:388 | turning the 32-bit length field into `mrt_len`, taken to be a signed 32-bit `int` (see Left out), gives a value in the signed 32-bit range, congruent modulo 2^32, and unchanged when it is already in range |
| Wire.CharOf | MRTlib/bgp/parseMRT.cpp:398 | the type returned through `char`, taken to be signed (see Left out), lies in -128..127 and is congruent to the type modulo 256 |
| Wire.Take | MRTlib/bgp/parseMRT.cpp:446-453 | a successful read keeps the memory, moves the pointer forward and keeps pointer plus length constant; a field at least as long as the copy keeps its length |
| Text.DecimalText | MRTlib/bgp/parseMRT.cpp:113-115 | `%d` of a byte is 1 to 3 decimal digits with no leading zero |
| Text.DecimalRoundTrip | MRTlib/bgp/parseMRT.cpp:113-115 | the value of the digits `%d` prints is the number printed |
| Text.DottedQuad | MRTlib/bgp/parseMRT.cpp:221-223 | the dotted text of four bytes is 7 to 15 characters long |
| Text.OctetRoundTrip | MRTlib/bgp/parseMRT.cpp:221-223 | one printed component parses back to its byte |
| Text.DottedQuadRoundTrip | MRTlib/bgp/parseMRT.cpp:221-223 | parsing the dotted text recovers the four address bytes: printing loses nothing |
| Text.DottedQuadExample | MRTlib/bgp/parseMRT.cpp:141-143 | the bytes 192, 0, 2, 1 print as "192.0.2.1" |
| Records.CommonHeader.WithRaw | MRTlib/bgp/parseMRT.cpp:385 | copying 12 bytes over the header struct gives a header whose 12-byte image is those bytes |
| Records.Bgp4mpStructs.Set | MRTlib/bgp/parseMRT.cpp:293-330 | writing the struct a sub-type selects leaves the four other BGP4MP structs unchanged |
| Records.InitialState | MRTlib/bgp/parseMRT.cpp:35-38 | a new parser has `mrt_len` and `mrt_data_len` 0, an empty peer and RIB entry vector, no hand-offs, and every byte member at its declared width |
| Decode.HeaderSpec | MRTlib/bgp/parseMRT.cpp:374-399 | reading the header changes only `c_hdr` and `mrt_len`, keeps the state valid and only moves the cursor forward |
| Decode.BufferSpec | MRTlib/bgp/parseMRT.cpp:429-443 | buffering changes only `mrt_len`, `mrt_data` and `mrt_data_len`, keeps the buffer's size and only moves the cursor forward |
| Decode.TableDumpSpec | MRTlib/bgp/parseMRT.cpp:99-163 | the legacy entry is read front to back: the cursor only moves forward, and every member keeps its declared width |
| Decode.TableDumpFromPrefixLen | MRTlib/bgp/parseMRT.cpp:126-159 | the reads after the prefix only move the cursor forward and keep every member at its declared width |
| Decode.PeerEntryStep | MRTlib/bgp/parseMRT.cpp:209-237 | one peer entry only moves the cursor forward and leaves a 4-byte `local_addr` |
| Decode.PeerEntriesSpec | MRTlib/bgp/parseMRT.cpp:208-240 | `k` iterations keep the entries already in the vector as its prefix; success appends exactly `k` entries, a throw fewer than `k` |
| Decode.PeerFailureSticks | MRTlib/bgp/parseMRT.cpp:210-235 | once an iteration has thrown, the loop's outcome no longer changes with the iteration count |
| Decode.PeerLoopGrows | MRTlib/bgp/parseMRT.cpp:237-239 | an iteration that completes pushes its entry onto the vector and continues where it stopped reading |
| Decode.PeerLoopStops | MRTlib/bgp/parseMRT.cpp:208-235 | an iteration that throws ends the whole loop with what it left |
| Decode.PeerIndexTableSpec | MRTlib/bgp/parseMRT.cpp:185-241 | the table is read front to back: the cursor only moves forward, and the fixed members keep their widths |
| Decode.RibEntryStep | MRTlib/bgp/parseMRT.cpp:269-280 | one RIB entry only moves the cursor forward |
| Decode.RibEntriesSpec | MRTlib/bgp/parseMRT.cpp:268-287 | `k` iterations keep the entries already in the vector as its prefix; success appends exactly `k` entries, a throw fewer than `k` |
| Decode.RibFailureSticks | MRTlib/bgp/parseMRT.cpp:270-280 | once an iteration has thrown, the loop's outcome no longer changes with the iteration count |
| Decode.RibLoopGrows | MRTlib/bgp/parseMRT.cpp:284-286 | an iteration that completes pushes its entry onto the vector and continues where it stopped reading |
| Decode.RibLoopStops | MRTlib/bgp/parseMRT.cpp:268-280 | an iteration that throws ends the whole loop with what it left |
| Decode.RibUnicastSpec | MRTlib/bgp/parseMRT.cpp:243-288 | the RIB record is read front to back: the cursor only moves forward, and the fixed members keep their widths |
| Decode.RibHeaderSpec | MRTlib/bgp/parseMRT.cpp:249-266 | the fixed part of an RIB record leaves the entry vector alone, keeps the members' widths and only moves the cursor forward |
| Decode.RibPrefixSpec | MRTlib/bgp/parseMRT.cpp:255-266 | the prefix and entry count reads leave the entry vector alone, keep the members' widths and only move the cursor forward |
| Decode.TableDumpV2Spec | MRTlib/bgp/parseMRT.cpp:164-183 | a TABLE_DUMP_V2 body changes only the peer index table, the RIB header and the hand-offs (the generic hand-off assumed to have no effect) |
| Decode.Bgp4mpAuxSpec | MRTlib/bgp/parseMRT.cpp:340-362 | parseBGP4MPaux writes only the struct it is given, and keeps the state members 2 bytes wide |
| Decode.Bgp4mpRecordSpec | MRTlib/bgp/parseMRT.cpp:341-346 | the record's reads only move the cursor forward and keep the state members 2 bytes wide |
| Decode.Bgp4mpTailSpec | MRTlib/bgp/parseMRT.cpp:347-361 | the reads after the AS fields leave those fields as they were and keep the state members 2 bytes wide |
| Decode.Bgp4mpSpec | MRTlib/bgp/parseMRT.cpp:290-338 | a BGP4MP record changes only the BGP4MP structs and the hand-offs, and the caller's cursor stays put |
| Decode.BodyCursor | MRTlib/bgp/parseMRT.cpp:67 | a body decoder reads `mrt_data` from its start with length `mrt_data_len` |
| Decode.MsgSpec | MRTlib/bgp/parseMRT.cpp:50-97 | one record keeps the state valid, keeps the size of `mrt_data` and only moves the cursor forward |
| Decode.DispatchSpec | MRTlib/bgp/parseMRT.cpp:58-90 | the type switch keeps the state valid, keeps the size of `mrt_data` and only moves the cursor forward |
| Decode.BufferedBodySpec | MRTlib/bgp/parseMRT.cpp:65-75 | buffering and decoding a body keeps the state valid and only moves the cursor forward |
| Properties.OverwritePrefix | MRTlib/bgp/parseMRT.cpp:449 | after `memcpy` the field starts with the copied bytes and keeps its own tail |
| Properties.TakeCopies | MRTlib/bgp/parseMRT.cpp:446-453 | a read of `n` available bytes into an `n`-byte field yields exactly those bytes and is `n` bytes further on |
| Properties.TakeOnEmptyBufferSucceedsSilently | MRTlib/bgp/parseMRT.cpp:447-448 | on an empty buffer every read passes the caller's test, copies nothing and does not advance |
| Properties.TakeShortThrows | MRTlib/bgp/parseMRT.cpp:447-448 | a read that finds some but too few bytes throws |
| Properties.ExtractResultDecidesSuccess | MRTlib/bgp/parseMRT.cpp:446-453 | a read passes exactly when the bytes are there or the buffer is empty |
| Properties.TakeReads | MRTlib/bgp/parseMRT.cpp:446-453 | a read of `n` available bytes overwrites the field's first `n` bytes and moves `n` bytes on |
| Properties.TakeAt | MRTlib/bgp/parseMRT.cpp:446-453 | the same, `i` bytes into the buffer |
| Properties.HeaderLayout | MRTlib/bgp/parseMRT.cpp:385-398 | with 12 bytes there (16 for the `_ET` types), the header fields are bytes 0-4, 4-6, 6-8 and 8-12; the `_ET` types also read bytes 12-16 and consume 16 bytes, the others consume 12 and zero the microseconds; the type is returned narrowed to `char` |
| Properties.HeaderBodyLength | MRTlib/bgp/parseMRT.cpp:388-394 | with 12 bytes there (16 for the `_ET` types), `mrt_len` is the length field, less 4 for the `_ET` types |
| Properties.HeaderShortThrows | MRTlib/bgp/parseMRT.cpp:385-386 | 1 to 11 bytes: the header read throws and nothing changes |
| Properties.HeaderMicrosecondsShortThrows | MRTlib/bgp/parseMRT.cpp:390-392 | an `_ET` header with 13 to 15 bytes available throws at the microsecond read |
| Properties.HeaderOnEmptyBufferRepeatsPreviousType | MRTlib/bgp/parseMRT.cpp:385-398 | on an empty buffer the header read succeeds, keeps the previous header and returns its type again |
| Properties.RawRoundTrip | MRTlib/bgp/parseMRT.cpp:385 | copying a header's own 12 bytes over it gives the same header |
| Properties.BufferNothingWhenNoBody | MRTlib/bgp/parseMRT.cpp:430-431 | `mrt_len <= 0` leaves everything unchanged |
| Properties.BufferTooLargeThrows | MRTlib/bgp/parseMRT.cpp:433-435 | a body larger than `mrt_data` throws before reading |
| Properties.BufferCopiesBody | MRTlib/bgp/parseMRT.cpp:437-442 | an available body becomes the prefix of `mrt_data` with the rest untouched; `mrt_data_len` is the old `mrt_len`, `mrt_len` is 0 and the cursor is past the body |
| Properties.BufferShortLeavesMissingCount | MRTlib/bgp/parseMRT.cpp:437-438 | a truncated body throws after `mrt_data_len` was set to the number of missing bytes |
| Properties.BufferOnEmptyBufferKeepsStaleBody | MRTlib/bgp/parseMRT.cpp:437-442 | on an empty buffer a body that fits "succeeds": `mrt_data_len` becomes `mrt_len` and `mrt_len` 0, while `mrt_data` keeps the previous body and the cursor does not move |
| Properties.SkippedTypesConsumeOnlyHeader | MRTlib/bgp/parseMRT.cpp:58-86 | OSPF and IS-IS records change nothing after the header and consume only the header |
| Properties.UnknownTypeThrows | MRTlib/bgp/parseMRT.cpp:87-89 | any other type code throws and changes nothing |
| Properties.Bgp4mpLeavesCursorAfterHeader | MRTlib/bgp/parseMRT.cpp:77-81 | BGP4MP records are decoded and the caller's cursor stays where the header ended |
| Properties.TableDumpBodiesAreBuffered | MRTlib/bgp/parseMRT.cpp:65-75 | TABLE_DUMP and TABLE_DUMP_V2 records move the cursor past the buffered body whatever the decoder reads; `mrt_data_len` keeps what the decoder left unread |
| Properties.TableDumpV2UnknownSubtypeIgnored | MRTlib/bgp/parseMRT.cpp:165-182 | a sub-type outside the switch changes nothing and reads nothing |
| Properties.TableDumpV2GenericHandsOffBody | MRTlib/bgp/parseMRT.cpp:177-181 | multicast and generic RIB records hand the whole body to parseRIB_GENERIC and, the call assumed to have no effect, change nothing else |
| Properties.TableDumpEntryLayout | MRTlib/bgp/parseMRT.cpp:126-159 | after the prefix, 26 bytes give the prefix length, status, time, peer address, peer AS and attribute length at fixed offsets |
| Properties.TableDumpLayout | MRTlib/bgp/parseMRT.cpp:99-163 | with 46 bytes and an address-family sub-type, every field of the legacy entry comes from its RFC 6396 offset and exactly 46 bytes are consumed |
| Properties.TableDumpIpv4Text | MRTlib/bgp/parseMRT.cpp:108-145 | for IPv4 both addresses print the last 4 bytes of their 16-byte fields |
| Properties.TableDumpBadSubtypeThrows | MRTlib/bgp/parseMRT.cpp:102-124 | any other sub-type throws after 20 bytes, with only the view number and sequence written |
| Parser.MrtParser.constructor | MRTlib/bgp/parseMRT.cpp:35-38 | a new parser's members are the initial state |
| Parser.MrtParser.ExtractFromBuffer | MRTlib/bgp/parseMRT.cpp:446-453 | the return value equals `outputLen` exactly when the bytes are there or the buffer is empty; otherwise it is the positive shortfall and nothing is copied or advanced |
| Parser.MrtParser.ParseCommonHeader | MRTlib/bgp/parseMRT.cpp:374-399 | the status, returned type, members and cursor are those of Decode.HeaderSpec |
| Parser.MrtParser.BufferMrtMessage | MRTlib/bgp/parseMRT.cpp:429-443 | the status, members and cursor are those of Decode.BufferSpec, and the member invariant holds |
| Parser.MrtParser.ParseTableDump | MRTlib/bgp/parseMRT.cpp:99-125 | `table_dump` and the cursor are those of Decode.TableDumpSpec |
| Parser.MrtParser.ParseTableDumpEntry | MRTlib/bgp/parseMRT.cpp:126-162 | the record and the cursor are those of Decode.TableDumpFromPrefixLen |
| Parser.MrtParser.ParseTableDumpV2 | MRTlib/bgp/parseMRT.cpp:164-183 | the status, members and cursor are those of Decode.TableDumpV2Spec |
| Parser.MrtParser.ParsePeerIndexTable | MRTlib/bgp/parseMRT.cpp:185-206 | `peerIndexTable` and the cursor are those of Decode.PeerIndexTableSpec |
| Parser.MrtParser.ParsePeerEntries | MRTlib/bgp/parseMRT.cpp:208-240 | the loop pushes what `total` iterations of Decode.PeerEntriesSpec push and changes nothing else in the table |
| Parser.MrtParser.ParsePeerEntry | MRTlib/bgp/parseMRT.cpp:209-237 | one iteration is Decode.PeerEntryStep |
| Parser.MrtParser.ParseRibUnicast | MRTlib/bgp/parseMRT.cpp:243-288 | `ribEntryHeader` and the cursor are those of Decode.RibUnicastSpec, with the last peer index table's count |
| Parser.MrtParser.ParseRibHeader | MRTlib/bgp/parseMRT.cpp:249-266 | the fixed part is Decode.RibHeaderSpec |
| Parser.MrtParser.ParseRibEntries | MRTlib/bgp/parseMRT.cpp:268-287 | the loop pushes what `total` iterations of Decode.RibEntriesSpec push and changes nothing else in the header |
| Parser.MrtParser.ParseRibEntry | MRTlib/bgp/parseMRT.cpp:269-284 | one iteration is Decode.RibEntryStep |
| Parser.MrtParser.ParseBgp4mpAux | MRTlib/bgp/parseMRT.cpp:340-362 | the status and the BGP4MP structs are those of Decode.Bgp4mpAuxSpec |
| Parser.MrtParser.ParseBgp4mpRecord | MRTlib/bgp/parseMRT.cpp:341-346 | the record is Decode.Bgp4mpRecordSpec |
| Parser.MrtParser.ParseBgp4mpTail | MRTlib/bgp/parseMRT.cpp:347-361 | the reads after the AS fields are Decode.Bgp4mpTailSpec |
| Parser.MrtParser.ParseBgp4mp | MRTlib/bgp/parseMRT.cpp:290-338 | the status and members are those of Decode.Bgp4mpSpec, and the member invariant holds |
| Parser.MrtParser.ParseMsg | MRTlib/bgp/parseMRT.cpp:50-97 | the status, members and cursor are those of Decode.MsgSpec, and the member invariant holds |
| Parser.MrtParser.ParseBufferedBody | MRTlib/bgp/parseMRT.cpp:65-75 | the status, members and cursor are those of Decode.BufferedBodySpec |
| PeerTableProperties.PeerEntryLayout | MRTlib/bgp/parseMRT.cpp:209-237 | an entry is a type byte, 4 address bytes kept in `local_addr`, and `AS_num` AS bytes, whatever family the type names |
| PeerTableProperties.PeerEntryRoundTrip | MRTlib/bgp/parseMRT.cpp:209-237 | an encoded entry decodes to itself and ends just past its bytes |
| PeerTableProperties.PeerEntryRoundTripAt | MRTlib/bgp/parseMRT.cpp:209-237 | the same for an entry `i` bytes into the buffer |
| PeerTableProperties.PeerLoopStepComposes | MRTlib/bgp/parseMRT.cpp:237-239 | one more completed iteration appends its entry to what the loop had |
| PeerTableProperties.PeerEntriesRoundTrip | MRTlib/bgp/parseMRT.cpp:208-240 | `k` encoded entries are appended in order, the loop ends just past their bytes, and `local_addr` holds the last entry's address |
| PeerTableProperties.PeerEntriesStep | MRTlib/bgp/parseMRT.cpp:208-240 | an entry encoded after the others is decoded after them |
| PeerTableProperties.PeerIndexTableHeader | MRTlib/bgp/parseMRT.cpp:191-204 | the fixed part is 8 bytes whatever the view name length says, the view name is not written, and the loop runs `peer_count` times from byte 8 |
| PeerTableProperties.PeerIndexTableLayout | MRTlib/bgp/parseMRT.cpp:185-241 | a table whose `peer_count` entries are encoded after the 8 fixed bytes appends exactly those entries, in order, and consumes exactly their bytes |
| PeerTableProperties.PeerIndexTableAppends | MRTlib/bgp/parseMRT.cpp:203-240 | a table never removes entries and appends exactly `peer_count` when it succeeds |
| RibProperties.RibEntryLayout | MRTlib/bgp/parseMRT.cpp:269-280 | an entry is 2 + 4 + 2 bytes, then as many attribute bytes as its length field says |
| RibProperties.RibEntryRoundTrip | MRTlib/bgp/parseMRT.cpp:269-280 | an encoded entry decodes to itself and ends just past its bytes |
| RibProperties.RibEntryRoundTripAt | MRTlib/bgp/parseMRT.cpp:269-280 | the same for an entry `i` bytes into the buffer |
| RibProperties.RibLoopStepComposes | MRTlib/bgp/parseMRT.cpp:284-286 | one more completed iteration appends its entry to what the loop had |
| RibProperties.RibEntriesRoundTrip | MRTlib/bgp/parseMRT.cpp:268-287 | `k` encoded entries are appended in order and the loop ends just past their bytes |
| RibProperties.RibEntriesStep | MRTlib/bgp/parseMRT.cpp:268-287 | an entry encoded after the others is decoded after them |
| RibProperties.OneByteValue | MRTlib/bgp/parseMRT.cpp:252-255 | the one-byte `prefix_length` has the same value in either byte order |
| RibProperties.RibHeaderComposes | MRTlib/bgp/parseMRT.cpp:249-255 | after the sequence number and prefix length, the fixed part continues with `prefix_length` prefix bytes |
| RibProperties.RibPrefixComposes | MRTlib/bgp/parseMRT.cpp:255-266 | the prefix read and the entry count read together give the prefix text and the count |
| RibProperties.RibPrefixLayout | MRTlib/bgp/parseMRT.cpp:255-266 | `n` prefix bytes, then the 2-byte entry count, at their offsets |
| RibProperties.RibHeaderLayout | MRTlib/bgp/parseMRT.cpp:249-266 | the fixed part is 4 + 1 + `prefix_length` + 2 bytes, every field from its offset |
| RibProperties.RibUnicastLayout | MRTlib/bgp/parseMRT.cpp:243-288 | `peer_count` encoded entries after the fixed part are appended in order whatever the record's own entry count says, and the record ends just past them |
| RibProperties.RibUnicastComposes | MRTlib/bgp/parseMRT.cpp:243-288 | a fixed part of `m` bytes and a loop over `n` bytes make a record of `m + n` bytes |
| RibProperties.RibUnicastAppendsPeerCount | MRTlib/bgp/parseMRT.cpp:268 | a record never removes entries and appends exactly `peer_count` when it decodes |
| Bgp4mpProperties.Bgp4mpVariantDomain | MRTlib/bgp/parseMRT.cpp:293-333 | exactly sub-types 0, 1, 4, 5, 6 and 7 are accepted; 4, 5 and 7 use the AS4 layout; 0 and 5 are state changes and share one struct |
| Bgp4mpProperties.RecordComposes | MRTlib/bgp/parseMRT.cpp:341-346 | after the AS fields, the address length is taken from `bgp4mp_msg_as4` as it then stands |
| Bgp4mpProperties.MessageTailComposes | MRTlib/bgp/parseMRT.cpp:347-360 | three successful reads make a message tail of their three fields |
| Bgp4mpProperties.StateTailComposes | MRTlib/bgp/parseMRT.cpp:347-356 | four successful reads make a state-change tail of their four fields |
| Bgp4mpProperties.NegativeTailComposes | MRTlib/bgp/parseMRT.cpp:357-360 | after both addresses, a negative message length fails |
| Bgp4mpProperties.MessageTailLayout | MRTlib/bgp/parseMRT.cpp:347-360 | message tail = two addresses and the message bytes at their offsets |
| Bgp4mpProperties.StateTailLayout | MRTlib/bgp/parseMRT.cpp:347-356 | state-change tail = two addresses and the two states at their offsets |
| Bgp4mpProperties.MessageRecordLayout | MRTlib/bgp/parseMRT.cpp:340-362 | a message record consumes exactly `mrt_data_len` bytes: AS fields, both addresses and the rest as the BGP message |
| Bgp4mpProperties.StateChangeRecordLayout | MRTlib/bgp/parseMRT.cpp:340-356 | a state-change record consumes AS fields, both addresses and two states, whatever `mrt_data_len` says |
| Bgp4mpProperties.NegativeMessageLengthThrows | MRTlib/bgp/parseMRT.cpp:358-360 | a message record whose `mrt_data_len` is below its fixed fields fails with a negative copy |
| Bgp4mpProperties.StaleLengthRejectsMessages | MRTlib/bgp/parseMRT.cpp:358 | with `mrt_data_len` below 16 (0 on a new parser), every message sub-type fails once 44 bytes are there, and nothing is handed off |
| Bgp4mpProperties.Bgp4mpUnknownSubtypeThrows | MRTlib/bgp/parseMRT.cpp:331-333 | any other sub-type throws before anything is read |
| Bgp4mpProperties.Bgp4mpHandsOff | MRTlib/bgp/parseMRT.cpp:290-338 | only the selected struct changes; exactly one message is handed off when a message sub-type decodes, none otherwise; it carries `mrt_data[..mrt_data_len]` and is local exactly for sub-types 6 and 7 |
| Divergences.AsWidthAgainstRfc | MRTlib/bgp/parseMRT.cpp:213 | the AS width equals RFC 6396's exactly when bit 0x02 is set or bits 0x14 are clear, and is never smaller |
| Divergences.AsWidthMisreadTypes | MRTlib/bgp/parseMRT.cpp:213 | peer types 0x04 and 0x10 are read with 4-byte AS numbers where the RFC says 2 |
| Divergences.PeerEntryLengthAgainstRfc | MRTlib/bgp/parseMRT.cpp:210-235 | an entry consumes 5 + `AS_num` bytes and keeps the RFC's peer BGP ID as its address: always fewer bytes than RFC 6396's entry, and exactly the peer address's 4 or 16 bytes fewer when the AS widths agree |
| Divergences.RibPrefixAgainstRfc | MRTlib/bgp/parseMRT.cpp:255 | the prefix takes `prefix_length` bytes, RFC 6396's byte count only for lengths 0 and 1 and more for every longer prefix |
| Divergences.TypeCodeNarrowing | MRTlib/bgp/parseMRT.cpp:398 | the returned type is unchanged exactly below 128, and types 256 apart are indistinguishable |
| Divergences.LabelMatchIgnoresCharSignedness | MRTlib/bgp/parseMRT.cpp:56-89 | a narrowed type matches a case label below 128 exactly when the type is congruent to the label modulo 256, as it would through an unsigned `char` |
| Divergences.Type268ReadsAsTableDump | MRTlib/bgp/parseMRT.cpp:56-65 | a header with type 268 dispatches as TABLE_DUMP |
| Divergences.OwnAddressFamilyIgnored | MRTlib/bgp/parseMRT.cpp:345-346 | a BGP4MP_MESSAGE record is read with 4-byte addresses whenever `bgp4mp_msg_as4` says IPv4, whatever its own family says |

## Divergences from RFC 6396

The code departs from RFC 6396 in these ways. The model follows the code,
and each point has a lemma.

- Peer Index Table, AS width (line 213). The mask 0x16, not bit 0x02,
  selects 4-byte AS numbers. See Divergences.AsWidthAgainstRfc and
  Divergences.AsWidthMisreadTypes.
- Peer Index Table, entry layout (lines 216 and 234). After the type, 4
  bytes are read as the address: they are the RFC's peer BGP ID. The AS
  number is then read from where the RFC puts the peer address, and no
  address field is skipped. See Divergences.PeerEntryLengthAgainstRfc.
- Peer Index Table, view name (line 197). The view name is read only when
  its length is zero. A non-empty view name is never skipped. See
  PeerTableProperties.PeerIndexTableHeader.
- RIB records, prefix (line 255). The prefix field takes `prefix_length`
  bytes, not bits. See Divergences.RibPrefixAgainstRfc.
- RIB records, entry count (line 268). The entry loop runs the last Peer
  Index Table's `peer_count` times, not `entry_count` times. See
  RibProperties.RibUnicastLayout.
- MRT header, type code (line 398). The type is narrowed through `char`.
  See Divergences.TypeCodeNarrowing and Divergences.Type268ReadsAsTableDump.
- BGP4MP, address length (line 345). The address length comes from
  `bgp4mp_msg_as4.address_family` for every sub-type. See
  Divergences.OwnAddressFamilyIgnored.
- BGP4MP, message length (line 358). The BGP message length uses
  `mrt_data_len`. BGP4MP bodies are never buffered, so that value is stale.
  See Bgp4mpProperties.StaleLengthRejectsMessages and
  Bgp4mpProperties.Bgp4mpHandsOff.

## Left out

- `main` (lines 455-474) is a test driver that prints. It is not modelled.
- The external BGP decoder is not modelled: `new parseBGP(...)` and
  `parseBGPfromMRT` are recorded as a `BgpMessage` hand-off holding the
  arguments they receive. A hand-off always returns. Exceptions from the
  external decoder (lines 302, 310, 321, 328 and 336), which `parseMsg`
  would rethrow (lines 92-93), are not modelled. `parseBGPfromMRT` is given
  the member buffer `mrt_data` and `mrt_data_len` (line 336). The model
  assumes it writes neither them nor any other member.
- `parseRIB_GENERIC`: its body is not part of this model. A call is
  recorded as a `RibGeneric` hand-off holding the remaining body.
- Decode.TableDumpV2Spec and Properties.TableDumpV2GenericHandsOffBody:
  both assume that `parseRIB_GENERIC` has no effect. It reads none of the
  body and writes no member, so `mrt_data_len` keeps the whole body
  length. The source cannot show this: parseMsg passes `mrt_data_len` by
  reference as `bufLen` (lines 67 and 73), and line 180 hands that
  reference and the buffer on to `parseRIB_GENERIC`. "Nothing else
  changes" for these records holds only under that assumption.
- `peer_info_map` and `peer_info_key` (lines 292, 300-328) are not
  modelled. The key is built from a character array whose termination
  cannot be seen.
- `inet_ntop` output is kept abstract as a family plus bytes. Only the
  dotted IPv4 text is spelled out.
- Two `inet_ntop` calls read memory the model does not have. For these,
  the model records the bytes the code evidently meant to convert, with
  status `Ok`.
  - An IPv6 peer entry (line 227) passes the 4-byte `local_addr` (line
    206), so `inet_ntop` reads 12 bytes beyond it. The model records
    `Ntop(Inet6, ...)` of the 4 bytes read.
  - The RIB prefix (lines 259 and 262) is converted from the address held
    in the pointer `local_addr` (line 247). Line 255 has overwritten that
    pointer with prefix bytes, or left it uninitialised when
    `prefix_length` is 0, so the address read from is made of those
    bytes. The model records `Ntop` of the prefix bytes.
- The `getMRTType` and `getMRTLength` getters (lines 404-415) do not take
  part in decoding and are not modelled.
- Exception messages are not kept. A throw keeps only the field whose read
  came up short.
- The struct layouts and the size of `mrt_data` come from
  `MRTlib/include/parseMRT.h`, which is not part of this model. Field
  sizes follow RFC 6396, and the buffer size is a constructor parameter.
- Wire.Wrap32: `mrt_len` is taken to be a signed 32-bit `int`. Its
  declaration is in `MRTlib/include/parseMRT.h`, which is not part of this
  model. The test `mrt_len <= 0` at line 430 suggests a signed type, but
  `getMRTLength` returns `uint32_t` (line 413). If `mrt_len` were
  `uint32_t`, two cases would change. A length field of 2^31 or more
  would throw "too large" at lines 433-435 instead of buffering nothing at
  lines 430-431; the decoder would then no longer re-read the previous
  body. An `_ET` length field below 4 would wrap to a large value and
  throw the same way, instead of giving a negative `mrt_len`.
- Wire.CharOf and Divergences.TypeCodeNarrowing: `char` is taken to be
  signed, which is implementation-defined. With an unsigned `char` the
  returned type would lie in 0..255, and "codes below 128 survive" would
  read "codes below 256 survive". Dispatch is the same either way: every
  case label of parseMsg is below 128, so a type matches a label exactly
  when it is congruent to it modulo 256
  (Divergences.LabelMatchIgnoresCharSignedness).
- Storage the code never initialises is modelled as zero bytes: local
  buffers, struct members the constructor leaves alone, and a fresh
  `peer_entry` or `RIB_entry`. Every byte member has its declared width
  from the start. The parser invariant `ParserState.Valid()` includes
  that, so every lemma stated over well-formed records applies to the
  parser's own members.
- A negative `bufLen` from a caller is not modelled. The cursor's length
  is a `nat`.
- The RIB prefix read (line 255) copies into the pointer variable
  `local_addr` itself. The model reads `prefix_length` bytes into a buffer
  of that size; the write over the stack beyond the pointer is not modelled.
- A few constructs in the source do not compile: the missing `;` at line
  263, `delete` on objects at lines 238 and 285, and member access through
  `void *&` at lines 343-359. They are modelled as evidently intended. The
  loops push copies of the entries, and parseBGP4MPaux writes the struct it
  is given.
- Memory reuse across calls is not modelled. The vectors of peer and RIB
  entries are `seq` values that the methods reassign.
- Parser.MrtParser.ParseCommonHeader: it does not restate the member
  invariant in its own `ensures`. That invariant follows from
  Decode.HeaderSpec's `ensures`.
