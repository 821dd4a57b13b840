/**
 * The MRT decoder object: its members are the fields of `MrtParser`, and
 * each method does what the member function of the same name does, in the
 * same order of reads, tests and throws. A thrown exception becomes a
 * `Fail` status; the in/out pair `buffer, bufLen` becomes a `Cursor`
 * passed in and the advanced `Cursor` handed back. Every method is proved
 * to agree with its reference definition in module Decode.
 */
module Parser {
  import opened Wire
  import opened Text
  import opened Records
  import opened Decode

  class MrtParser {
    /** The byte order of the host: fields are `memcpy`d, never byte-swapped. */
    const littleEndianHost: bool
    /** The fixed-size `mrt_data` buffer that record bodies are copied into. */
    const mrtData: array<byte>

    var cHdr: CommonHeader
    var mrtLen: int
    var mrtDataLen: int
    var tableDump: TableDump
    var peerIndexTable: PeerIndexTable
    var ribEntryHeader: RibEntryHeader
    var bgp4mp: Bgp4mpStructs
    /** The calls made into code outside the model, oldest first. */
    var handoffs: seq<Handoff>

    /** All members as one value. */
    function State(): ParserState
      reads this, mrtData
    {
      ParserState(cHdr, mrtLen, mrtData[..], mrtDataLen, tableDump, peerIndexTable, ribEntryHeader,
                  bgp4mp, handoffs)
    }

    /** The member invariant: `State().Valid()`, stated on the fields. */
    predicate Valid()
      reads this
      ensures Valid() <==> State().Valid()
    {
      cHdr.WellFormed() && 0 <= mrtDataLen <= mrtData.Length && tableDump.WellFormed()
      && peerIndexTable.WellFormed() && ribEntryHeader.WellFormed() && bgp4mp.WellFormed()
    }

    constructor (capacity: nat, littleEndianHost: bool)
      ensures Valid() && State() == InitialState(capacity)
      ensures this.littleEndianHost == littleEndianHost
    {
      this.littleEndianHost := littleEndianHost;
      mrtData := new byte[capacity](_ => 0);
      cHdr := InitialState(capacity).cHdr;
      mrtLen := 0;
      mrtDataLen := 0;
      tableDump := InitialState(capacity).tableDump;
      peerIndexTable := InitialState(capacity).peerIndexTable;
      ribEntryHeader := InitialState(capacity).ribEntryHeader;
      bgp4mp := InitialState(capacity).bgp4mp;
      handoffs := [];
      new;
      assert mrtData[..] == Zeros(capacity);
    }

    /**
     * extractFromBuffer: copy `outputLen` bytes into `dst` and advance when
     * they are there; otherwise copy nothing and return `outputLen - bufLen`,
     * which equals `outputLen` when the buffer is already empty.
     */
    static method ExtractFromBuffer(c: Cursor, dst: seq<byte>, outputLen: nat) returns (ret: int, field: seq<byte>, next: Cursor)
      requires c.Valid()
      ensures ret == outputLen <==> outputLen <= c.bufLen || c.bufLen == 0
      ensures ret != outputLen ==> ret == outputLen - c.bufLen > 0 && field == dst && next == c
      ensures Take(c, outputLen, dst) == if ret == outputLen then Took(field, next) else Short
    {
      if outputLen > c.bufLen {
        return outputLen - c.bufLen, dst, c;
      }
      field := Overwrite(dst, c.mem[c.buffer..c.buffer + outputLen]);
      next := Cursor(c.mem, c.buffer + outputLen, c.bufLen - outputLen);
      ret := outputLen;
    }

    /**
     * parseCommonHeader: returns the record type as the `char` the source
     * returns. The member invariant is kept: HeaderSpec's result is Valid.
     */
    method ParseCommonHeader(c: Cursor) returns (status: Status, mrtType: int, next: Cursor)
      requires Valid() && c.Valid()
      modifies this`cHdr, this`mrtLen
      ensures HeaderOutcome(status, mrtType, State(), next) == HeaderSpec(old(State()), c, littleEndianHost)
    {
      var ret, raw;
      ret, raw, next := ExtractFromBuffer(c, cHdr.Raw(), 12);
      if ret != 12 {
        return Fail(Truncated(HeaderFields)), 0, next;
      }
      cHdr := cHdr.WithRaw(raw);
      mrtLen := Wrap32(HostValue(cHdr.len, littleEndianHost));
      var t := HostValue(cHdr.mrtType, littleEndianHost);
      if IsExtendedType(t) {
        var us;
        ret, us, next := ExtractFromBuffer(next, cHdr.microsecondTimestamp, 4);
        if ret != 4 {
          return Fail(Truncated(MicrosecondTimestamp)), 0, next;
        }
        cHdr := cHdr.(microsecondTimestamp := us);
        mrtLen := Wrap32(mrtLen - 4);
      } else {
        cHdr := cHdr.(microsecondTimestamp := Zeros(4));
      }
      return Ok, CharOf(t), next;
    }

    /** bufferMRTMessage: copy the `mrt_len` body bytes into `mrt_data`. */
    method BufferMrtMessage(c: Cursor) returns (status: Status, next: Cursor)
      requires Valid() && c.Valid()
      modifies this`mrtLen, this`mrtDataLen, mrtData
      ensures Outcome(status, State(), next) == BufferSpec(old(State()), c)
      ensures Valid()
    {
      next := c;
      if mrtLen <= 0 {
        return Ok, next;
      }
      if mrtLen > mrtData.Length {
        return Fail(BodyTooLarge), next;
      }
      var ret, data;
      ret, data, next := ExtractFromBuffer(c, mrtData[..], mrtLen);
      mrtDataLen := ret;
      if ret != mrtLen {
        return Fail(Truncated(Body)), next;
      }
      forall i | 0 <= i < mrtData.Length {
        mrtData[i] := data[i];
      }
      assert mrtData[..] == data;
      mrtLen := 0;
      return Ok, next;
    }

    /** parseTableDump: the legacy TABLE_DUMP record, read from `mrt_data`. */
    method ParseTableDump(c: Cursor) returns (status: Status, next: Cursor)
      requires c.Valid()
      modifies this`tableDump
      ensures TableDumpOutcome(status, tableDump, next)
           == TableDumpSpec(old(tableDump), HostValue(cHdr.subType, littleEndianHost), c)
    {
      var ret, field;
      var localAddr := Zeros(16);
      var subType := HostValue(cHdr.subType, littleEndianHost);
      ret, field, next := ExtractFromBuffer(c, tableDump.viewNumber, 2);
      if ret != 2 {
        return Fail(Truncated(ViewNumber)), next;
      }
      tableDump := tableDump.(viewNumber := field);
      ret, field, next := ExtractFromBuffer(next, tableDump.sequence, 2);
      if ret != 2 {
        return Fail(Truncated(Sequence)), next;
      }
      tableDump := tableDump.(sequence := field);
      ret, localAddr, next := ExtractFromBuffer(next, localAddr, 16);
      if ret != 16 {
        return Fail(Truncated(Prefix)), next;
      }
      if subType != AFI_IPV4 && subType != AFI_IPV6 {
        return Fail(UnexpectedAddressFamily), next;
      }
      tableDump := tableDump.(prefix := LegacyAddress(subType, localAddr));
      var td;
      status, td, next := ParseTableDumpEntry(tableDump, subType, localAddr, next);
      tableDump := td;
    }

    /**
     * The reads of parseTableDump after the prefix, into the record being
     * filled; the 16-byte `localAddr` buffer is reused for the peer address.
     */
    static method ParseTableDumpEntry(td: TableDump, subType: nat, localAddr: seq<byte>, c: Cursor)
      returns (status: Status, out: TableDump, next: Cursor)
      requires c.Valid() && |localAddr| == 16
      ensures TableDumpOutcome(status, out, next) == TableDumpFromPrefixLen(td, subType, localAddr, c)
    {
      var ret, field, addr;
      out := td;
      ret, field, next := ExtractFromBuffer(c, out.prefixLen, 1);
      if ret != 1 {
        return Fail(Truncated(PrefixLength)), out, next;
      }
      out := out.(prefixLen := field);
      ret, field, next := ExtractFromBuffer(next, out.status, 1);
      if ret != 1 {
        return Fail(Truncated(EntryStatus)), out, next;
      }
      out := out.(status := field);
      ret, field, next := ExtractFromBuffer(next, out.originatedTime, 4);
      if ret != 4 {
        return Fail(Truncated(OriginatedTime)), out, next;
      }
      out := out.(originatedTime := field);
      ret, addr, next := ExtractFromBuffer(next, localAddr, 16);
      if ret != 16 {
        return Fail(Truncated(PeerAddress)), out, next;
      }
      out := out.(peerIp := LegacyAddress(subType, addr));
      ret, field, next := ExtractFromBuffer(next, out.peerAs, 2);
      if ret != 2 {
        return Fail(Truncated(PeerAs)), out, next;
      }
      out := out.(peerAs := field);
      ret, field, next := ExtractFromBuffer(next, out.attributeLen, 2);
      if ret != 2 {
        return Fail(Truncated(AttributeLength)), out, next;
      }
      out := out.(attributeLen := field);
      return Ok, out, next;
    }

    /** parseTableDump_V2: dispatch on the sub-type. */
    method ParseTableDumpV2(c: Cursor) returns (status: Status, next: Cursor)
      requires Valid() && c.Valid()
      modifies this`peerIndexTable, this`ribEntryHeader, this`handoffs
      ensures Outcome(status, State(), next) == TableDumpV2Spec(old(State()), c, littleEndianHost)
      ensures Valid()
    {
      var subType := HostValue(cHdr.subType, littleEndianHost);
      if subType == PEER_INDEX_TABLE {
        status, next := ParsePeerIndexTable(c);
      } else if subType == RIB_IPV4_UNICAST || subType == RIB_IPV6_UNICAST {
        status, next := ParseRibUnicast(c);
      } else if subType == RIB_IPV4_MULTICAST || subType == RIB_IPV6_MULTICAST || subType == RIB_GENERIC {
        // parseRIB_GENERIC: recorded as a call, its body is not part of this model
        handoffs := handoffs + [RibGeneric(subType, c.Remaining())];
        status, next := Ok, c;
      } else {
        status, next := Ok, c;
      }
    }

    /** parsePeerIndexTable: the RFC 6396 section 4.3.1 table, entries appended to `peerEntries`. */
    method ParsePeerIndexTable(c: Cursor) returns (status: Status, next: Cursor)
      requires c.Valid()
      modifies this`peerIndexTable
      ensures PeerIndexTableOutcome(status, peerIndexTable, next)
           == PeerIndexTableSpec(old(peerIndexTable), c, littleEndianHost)
    {
      var ret, field;
      ret, field, next := ExtractFromBuffer(c, peerIndexTable.collectorBgpId, 4);
      if ret != 4 {
        return Fail(Truncated(CollectorBgpId)), next;
      }
      peerIndexTable := peerIndexTable.(collectorBgpId := field);
      ret, field, next := ExtractFromBuffer(next, peerIndexTable.viewNameLength, 2);
      if ret != 2 {
        return Fail(Truncated(ViewNameLength)), next;
      }
      peerIndexTable := peerIndexTable.(viewNameLength := field);
      var viewNameLength := HostValue(peerIndexTable.viewNameLength, littleEndianHost);
      if viewNameLength == 0 {
        ret, field, next := ExtractFromBuffer(next, peerIndexTable.viewName, viewNameLength);
        if ret != viewNameLength {
          assert false;
        }
        assert field == peerIndexTable.viewName;
        peerIndexTable := peerIndexTable.(viewName := field);
      }
      ret, field, next := ExtractFromBuffer(next, peerIndexTable.peerCount, 2);
      if ret != 2 {
        return Fail(Truncated(PeerCount)), next;
      }
      peerIndexTable := peerIndexTable.(peerCount := field);

      status, next := ParsePeerEntries(next, HostValue(peerIndexTable.peerCount, littleEndianHost));
    }

    /**
     * The loop of parsePeerIndexTable: `total` entries pushed onto
     * `peerEntries`, stopping at the first throw; the 4-byte `local_addr`
     * buffer lives across iterations.
     */
    method ParsePeerEntries(c: Cursor, total: nat) returns (status: Status, next: Cursor)
      requires c.Valid()
      modifies this`peerIndexTable
      ensures PeerEntriesSpec(c, Zeros(4), old(peerIndexTable.peerEntries), total).status == status
      ensures PeerEntriesSpec(c, Zeros(4), old(peerIndexTable.peerEntries), total).entries == peerIndexTable.peerEntries
      ensures PeerEntriesSpec(c, Zeros(4), old(peerIndexTable.peerEntries), total).next == next
      ensures peerIndexTable == old(peerIndexTable).(peerEntries := peerIndexTable.peerEntries)
    {
      ghost var vec := peerIndexTable.peerEntries;
      next := c;
      var localAddr := Zeros(4);
      var count := 0;
      while count < total
        invariant count <= total && next.Valid() && |localAddr| == 4
        invariant PeerEntriesSpec(c, Zeros(4), vec, count) == PeerLoop(Ok, peerIndexTable.peerEntries, next, localAddr)
        invariant peerIndexTable == old(peerIndexTable).(peerEntries := peerIndexTable.peerEntries)
        decreases total - count
      {
        var entry;
        status, entry, next, localAddr := ParsePeerEntry(next, localAddr);
        if status.Fail? {
          PeerLoopStops(c, Zeros(4), vec, count, total);
          return;
        }
        PeerLoopGrows(c, Zeros(4), vec, count);
        peerIndexTable := peerIndexTable.(peerEntries := peerIndexTable.peerEntries + [entry]);
        count := count + 1;
      }
      return Ok, next;
    }

    /**
     * One iteration of the loop of parsePeerIndexTable: a fresh `peer_entry`
     * filled from the buffer, and the 4-byte `local_addr` the loop reuses.
     */
    static method ParsePeerEntry(c: Cursor, localAddr: seq<byte>) returns (status: Status, entry: PeerEntry, next: Cursor, addr: seq<byte>)
      requires c.Valid() && |localAddr| == 4
      ensures PeerStep(status, entry, next, addr) == PeerEntryStep(c, localAddr)
    {
      var ret, field;
      entry, addr := FRESH_PEER_ENTRY, localAddr;
      ret, field, next := ExtractFromBuffer(c, entry.peerType, 1);
      if ret != 1 {
        return Fail(Truncated(PeerType)), entry, next, addr;
      }
      entry := entry.(peerType := field);
      var asNum := if HasBits(entry.peerType[0], 0x16) then 4 else 2;
      var addrFam := if HasBits(entry.peerType[0], 0x01) then AFI_IPV6 else AFI_IPV4;
      ret, field, next := ExtractFromBuffer(next, addr, 4);
      if ret != 4 {
        return Fail(Truncated(PeerAddress)), entry, next, addr;
      }
      addr := field;
      if addrFam == AFI_IPV4 {
        entry := entry.(peerIp := Dotted(addr));
      } else if addrFam == AFI_IPV6 {
        entry := entry.(peerIp := Ntop(Inet6, addr));
      } else {
        assert false;
      }
      ret, field, next := ExtractFromBuffer(next, entry.peerAs32, asNum);
      if ret != asNum {
        return Fail(Truncated(PeerAs)), entry, next, addr;
      }
      entry := entry.(peerAs32 := field);
      return Ok, entry, next, addr;
    }

    /** parseRIB_UNICAST: an RFC 6396 section 4.3.2 record, entries appended to `RIB_entries`. */
    method ParseRibUnicast(c: Cursor) returns (status: Status, next: Cursor)
      requires c.Valid()
      modifies this`ribEntryHeader
      ensures RibOutcome(status, ribEntryHeader, next)
           == RibUnicastSpec(old(ribEntryHeader), HostValue(cHdr.subType, littleEndianHost),
                             HostValue(peerIndexTable.peerCount, littleEndianHost), c, littleEndianHost)
    {
      var header;
      status, header, next := ParseRibHeader(ribEntryHeader, HostValue(cHdr.subType, littleEndianHost), c, littleEndianHost);
      ribEntryHeader := header;
      if status.Fail? {
        return;
      }
      status, next := ParseRibEntries(next, HostValue(peerIndexTable.peerCount, littleEndianHost));
    }

    /** The reads of parseRIB_UNICAST before its loop, into the header being filled. */
    static method ParseRibHeader(h: RibEntryHeader, subType: nat, c: Cursor, littleEndianHost: bool)
      returns (status: Status, out: RibEntryHeader, next: Cursor)
      requires c.Valid()
      ensures RibOutcome(status, out, next) == RibHeaderSpec(h, subType, c, littleEndianHost)
    {
      var ret, field;
      out := h;
      ret, field, next := ExtractFromBuffer(c, out.sequenceNumber, 4);
      if ret != 4 {
        return Fail(Truncated(SequenceNumber)), out, next;
      }
      out := out.(sequenceNumber := field);
      ret, field, next := ExtractFromBuffer(next, out.prefixLength, 1);
      if ret != 1 {
        return Fail(Truncated(RibPrefixLength)), out, next;
      }
      out := out.(prefixLength := field);
      var prefixLength := HostValue(out.prefixLength, littleEndianHost);
      var localAddr;
      ret, localAddr, next := ExtractFromBuffer(next, Zeros(prefixLength), prefixLength);
      if ret != prefixLength {
        return Fail(Truncated(RibPrefix)), out, next;
      }
      if subType == RIB_IPV4_UNICAST {
        out := out.(prefix := Ntop(Inet4, localAddr));
      } else if subType == RIB_IPV6_UNICAST {
        out := out.(prefix := Ntop(Inet6, localAddr));
      }
      ret, field, next := ExtractFromBuffer(next, out.entryCount, 2);
      if ret != 2 {
        return Fail(Truncated(EntryCount)), out, next;
      }
      out := out.(entryCount := field);
      return Ok, out, next;
    }

    /**
     * The loop of parseRIB_UNICAST: `total` entries (the last peer index
     * table's `peer_count`) pushed onto `RIB_entries`, stopping at the first
     * throw.
     */
    method ParseRibEntries(c: Cursor, total: nat) returns (status: Status, next: Cursor)
      requires c.Valid()
      modifies this`ribEntryHeader
      ensures RibLoop(status, ribEntryHeader.ribEntries, next)
           == RibEntriesSpec(c, old(ribEntryHeader.ribEntries), total, littleEndianHost)
      ensures ribEntryHeader == old(ribEntryHeader).(ribEntries := ribEntryHeader.ribEntries)
    {
      ghost var vec := ribEntryHeader.ribEntries;
      next := c;
      var count := 0;
      while count < total
        invariant count <= total && next.Valid()
        invariant RibEntriesSpec(c, vec, count, littleEndianHost) == RibLoop(Ok, ribEntryHeader.ribEntries, next)
        invariant ribEntryHeader == old(ribEntryHeader).(ribEntries := ribEntryHeader.ribEntries)
        decreases total - count
      {
        var entry;
        status, entry, next := ParseRibEntry(next);
        if status.Fail? {
          RibLoopStops(c, vec, count, total, littleEndianHost);
          return;
        }
        RibLoopGrows(c, vec, count, littleEndianHost);
        ribEntryHeader := ribEntryHeader.(ribEntries := ribEntryHeader.ribEntries + [entry]);
        count := count + 1;
      }
      return Ok, next;
    }

    /** One iteration of the loop of parseRIB_UNICAST: a fresh `RIB_entry` filled from the buffer. */
    method ParseRibEntry(c: Cursor) returns (status: Status, entry: RibEntry, next: Cursor)
      requires c.Valid()
      ensures RibStep(status, entry, next) == RibEntryStep(c, littleEndianHost)
    {
      var ret, field;
      entry := FRESH_RIB_ENTRY;
      ret, field, next := ExtractFromBuffer(c, entry.peerIndex, 2);
      if ret != 2 {
        return Fail(Truncated(PeerIndex)), entry, next;
      }
      entry := entry.(peerIndex := field);
      ret, field, next := ExtractFromBuffer(next, entry.originatedTime, 4);
      if ret != 4 {
        return Fail(Truncated(OriginatedTime)), entry, next;
      }
      entry := entry.(originatedTime := field);
      ret, field, next := ExtractFromBuffer(next, entry.attributeLen, 2);
      if ret != 2 {
        return Fail(Truncated(AttributeLength)), entry, next;
      }
      entry := entry.(attributeLen := field);
      var attributeLen := HostValue(entry.attributeLen, littleEndianHost);
      ret, field, next := ExtractFromBuffer(next, entry.bgpAttribute, attributeLen);
      if ret != attributeLen {
        return Fail(Truncated(Attribute)), entry, next;
      }
      entry := entry.(bgpAttribute := field);
      return Ok, entry, next;
    }

    /**
     * parseBGP4MPaux: fill the struct in `slot` from a copy of the cursor
     * (the source takes `buffer` and `bufLen` by value).
     */
    method ParseBgp4mpAux(slot: Slot, c: Cursor, isAs4: bool, isStateChange: bool) returns (status: Status)
      requires c.Valid()
      modifies this`bgp4mp
      ensures var o := Bgp4mpAuxSpec(old(bgp4mp), Variant(slot, isAs4, isStateChange), mrtDataLen, c, littleEndianHost);
              status == o.status && bgp4mp == o.structs
    {
      var rec;
      status, rec := ParseBgp4mpRecord(bgp4mp.Get(slot), Variant(slot, isAs4, isStateChange), bgp4mp.msgAs4, c);
      bgp4mp := bgp4mp.Set(slot, rec);
    }

    /**
     * The reads of parseBGP4MPaux into the struct being filled; `msgAs4` is
     * `bgp4mp_msg_as4`, whose address family decides `ip_addr_len`.
     */
    method ParseBgp4mpRecord(rec: Bgp4mpRecord, v: Variant, msgAs4: Bgp4mpRecord, c: Cursor)
      returns (status: Status, out: Bgp4mpRecord)
      requires c.Valid()
      ensures var o := Bgp4mpRecordSpec(rec, v, msgAs4, mrtDataLen, c, littleEndianHost);
              status == o.status && out == o.rec
    {
      var asnLen := if v.isAs4 then 12 else 8;
      var ret, field, next;
      ret, field, next := ExtractFromBuffer(c, rec.asnFields, asnLen);
      if ret != asnLen {
        return Fail(Terminated), rec;
      }
      out := rec.(asnFields := field);
      var ipAddrLen := IpAddrLen(if v.slot == MsgAs4 then out else msgAs4, littleEndianHost);
      status, out := ParseBgp4mpTail(out, v.isStateChange, mrtDataLen - asnLen - 2 * ipAddrLen, ipAddrLen, next);
    }

    /**
     * The reads of parseBGP4MPaux after the AS fields, into the struct being
     * filled; `bgpMsgLen` is `mrt_data_len - asn_len - 2 * ip_addr_len`.
     */
    static method ParseBgp4mpTail(rec: Bgp4mpRecord, isStateChange: bool, bgpMsgLen: int, ipAddrLen: nat, c: Cursor)
      returns (status: Status, out: Bgp4mpRecord)
      requires c.Valid()
      ensures var o := Bgp4mpTailSpec(rec, isStateChange, bgpMsgLen, ipAddrLen, c);
              status == o.status && out == o.rec
    {
      var ret, field, next;
      out := rec;
      ret, field, next := ExtractFromBuffer(c, out.peerIp, ipAddrLen);
      if ret != ipAddrLen {
        return Fail(Terminated), out;
      }
      out := out.(peerIp := field);
      ret, field, next := ExtractFromBuffer(next, out.localIp, ipAddrLen);
      if ret != ipAddrLen {
        return Fail(Terminated), out;
      }
      out := out.(localIp := field);
      if isStateChange {
        ret, field, next := ExtractFromBuffer(next, out.oldState, 2);
        if ret != 2 {
          return Fail(Terminated), out;
        }
        out := out.(oldState := field);
        ret, field, next := ExtractFromBuffer(next, out.newState, 2);
        if ret != 2 {
          return Fail(Terminated), out;
        }
        out := out.(newState := field);
      } else {
        if bgpMsgLen < 0 {
          return Fail(NegativeCopyLength), out;
        }
        ret, field, next := ExtractFromBuffer(next, out.bgpMessage, bgpMsgLen);
        if ret != bgpMsgLen {
          return Fail(Terminated), out;
        }
        out := out.(bgpMessage := field);
      }
      return Ok, out;
    }

    /** parseBGP4MP: the caller's cursor is left where the header ended. */
    method ParseBgp4mp(c: Cursor) returns (status: Status)
      requires Valid() && c.Valid()
      modifies this`bgp4mp, this`handoffs
      ensures Outcome(status, State(), c) == Bgp4mpSpec(old(State()), c, littleEndianHost)
      ensures Valid()
    {
      var subType := HostValue(cHdr.subType, littleEndianHost);
      var slot, isAs4, isStateChange;
      if subType == BGP4MP_STATE_CHANGE {
        slot, isAs4, isStateChange := StateChangeAs4, false, true;
      } else if subType == BGP4MP_MESSAGE {
        slot, isAs4, isStateChange := Msg, false, false;
      } else if subType == BGP4MP_MESSAGE_AS4 {
        slot, isAs4, isStateChange := MsgAs4, true, false;
      } else if subType == BGP4MP_STATE_CHANGE_AS4 {
        slot, isAs4, isStateChange := StateChangeAs4, true, true;
      } else if subType == BGP4MP_MESSAGE_LOCAL {
        slot, isAs4, isStateChange := MsgLocal, false, false;
      } else if subType == BGP4MP_MESSAGE_AS4_LOCAL {
        slot, isAs4, isStateChange := MsgAs4Local, true, false;
      } else {
        return Fail(UnsupportedBgp4mpSubtype);
      }
      assert Bgp4mpVariant(subType) == Some(Variant(slot, isAs4, isStateChange));
      status := ParseBgp4mpAux(slot, c, isAs4, isStateChange);
      if status.Fail? {
        return;
      }
      if subType != BGP4MP_STATE_CHANGE && subType != BGP4MP_STATE_CHANGE_AS4 {
        var rec := bgp4mp.Get(slot);
        handoffs := handoffs + [BgpMessage(rec.peerIp, PeerAsNumber(rec, isAs4),
                                           AddressFamily(rec, isAs4, littleEndianHost) == AFI_IPV4,
                                           cHdr.timeStamp, cHdr.microsecondTimestamp,
                                           mrtData[..mrtDataLen], subType > 5)];
      }
    }

    /** parseMsg: one MRT record from the cursor. */
    method ParseMsg(c: Cursor) returns (status: Status, next: Cursor)
      requires Valid() && c.Valid()
      modifies this, mrtData
      ensures Outcome(status, State(), next) == MsgSpec(old(State()), c, littleEndianHost)
      ensures Valid()
    {
      var mrtType;
      status, mrtType, next := ParseCommonHeader(c);
      if status.Fail? {
        return;
      }
      assert MsgSpec(old(State()), c, littleEndianHost) == DispatchSpec(State(), mrtType, next, littleEndianHost);
      if mrtType == OSPF_V2 || mrtType == OSPF_V3 || mrtType == OSPF_V3_ET {
        // nothing is read
      } else if mrtType == TABLE_DUMP || mrtType == TABLE_DUMP_V2 {
        status, next := ParseBufferedBody(mrtType == TABLE_DUMP_V2, next);
      } else if mrtType == BGP4MP || mrtType == BGP4MP_ET {
        status := ParseBgp4mp(next);
      } else if mrtType == ISIS || mrtType == ISIS_ET {
        // nothing is read
      } else {
        status := Fail(UnexpectedType);
      }
    }

    /** The TABLE_DUMP and TABLE_DUMP_V2 arms of parseMsg: buffer the body, then decode it. */
    method ParseBufferedBody(isV2: bool, c: Cursor) returns (status: Status, next: Cursor)
      requires Valid() && c.Valid()
      modifies this, mrtData
      ensures Outcome(status, State(), next) == BufferedBodySpec(old(State()), isV2, c, littleEndianHost)
    {
      status, next := BufferMrtMessage(c);
      if status.Fail? {
        return;
      }
      var rest;
      if isV2 {
        status, rest := ParseTableDumpV2(Cursor(mrtData[..], 0, mrtDataLen as nat));
      } else {
        status, rest := ParseTableDump(Cursor(mrtData[..], 0, mrtDataLen as nat));
      }
      mrtDataLen := rest.bufLen;
    }
  }
}
