/**
 * Reference definitions of what each operation of the MRT parser does to
 * the parser's members and to the cursor it is given, field read by field
 * read, throw by throw. The class in parser.dfy is proved to do exactly this;
 * properties.dfy proves what these definitions imply.
 *
 * A read that finds the buffer empty "succeeds" without copying (see Take),
 * so a field may keep the content it had before: every definition passes
 * the field's previous content as the destination of each read.
 */
module Decode {
  import opened Wire
  import opened Text
  import opened Records

  datatype Outcome = Outcome(status: Status, state: ParserState, next: Cursor)

  // ---------------------------------------------------------------- header

  datatype HeaderOutcome = HeaderOutcome(status: Status, mrtType: int, state: ParserState, next: Cursor)

  /**
   * parseCommonHeader: 12 bytes into `c_hdr`, `mrt_len` from the length
   * field, then for the `_ET` types 4 more bytes and `mrt_len -= 4`. The
   * result is the type returned through a `char`.
   */
  function HeaderSpec(s: ParserState, c: Cursor, le: bool): (o: HeaderOutcome)
    requires s.Valid() && c.Valid()
    ensures o.state.Valid() && Advanced(c, o.next)
    ensures o.state == s.(cHdr := o.state.cHdr, mrtLen := o.state.mrtLen)
  {
    match Take(c, 12, s.cHdr.Raw())
    case Short => HeaderOutcome(Fail(Truncated(HeaderFields)), 0, s, c)
    case Took(raw, c1) =>
      var h := s.cHdr.WithRaw(raw);
      var s1 := s.(cHdr := h, mrtLen := Wrap32(HostValue(h.len, le)));
      var t := HostValue(h.mrtType, le);
      if IsExtendedType(t) then
        match Take(c1, 4, h.microsecondTimestamp)
        case Short => HeaderOutcome(Fail(Truncated(MicrosecondTimestamp)), 0, s1, c1)
        case Took(us, c2) =>
          HeaderOutcome(Ok, CharOf(t), s1.(cHdr := h.(microsecondTimestamp := us), mrtLen := Wrap32(s1.mrtLen - 4)), c2)
      else
        HeaderOutcome(Ok, CharOf(t), s1.(cHdr := h.(microsecondTimestamp := Zeros(4))), c1)
  }

  // ------------------------------------------------------------ body buffer

  /**
   * bufferMRTMessage: nothing when `mrt_len <= 0`; a throw when it exceeds
   * the buffer; otherwise `mrt_data_len` takes the extraction result and,
   * when that equals `mrt_len`, the body is in `mrt_data` and `mrt_len` is 0.
   */
  function BufferSpec(s: ParserState, c: Cursor): (o: Outcome)
    requires s.Valid() && c.Valid()
    ensures o.state.Valid() && Advanced(c, o.next) && |o.state.mrtData| == |s.mrtData|
    ensures o.state == s.(mrtLen := o.state.mrtLen, mrtData := o.state.mrtData, mrtDataLen := o.state.mrtDataLen)
  {
    if s.mrtLen <= 0 then Outcome(Ok, s, c)
    else if s.mrtLen > |s.mrtData| then Outcome(Fail(BodyTooLarge), s, c)
    else
      match Take(c, s.mrtLen, s.mrtData)
      case Short => Outcome(Fail(Truncated(Body)), s.(mrtDataLen := s.mrtLen - c.bufLen), c)
      case Took(data, c1) => Outcome(Ok, s.(mrtData := data, mrtDataLen := s.mrtLen, mrtLen := 0), c1)
  }

  // ------------------------------------------------------ legacy TABLE_DUMP

  datatype TableDumpOutcome = TableDumpOutcome(status: Status, tableDump: TableDump, next: Cursor)

  /** The text of a 16-byte legacy address: IPv4 from its last four bytes. */
  function LegacyAddress(subType: nat, addr: seq<byte>): AddressText
    requires |addr| == 16
  {
    if subType == AFI_IPV4 then Dotted(addr[12..16]) else Ntop(Inet6, addr)
  }

  /**
   * parseTableDump: 2+2+16+1+1+4+16+2+2 bytes in RFC 6396 section 4.2 order.
   * Both addresses go through the same 16-byte local buffer (initially
   * zero in this model), and the sub-type is checked after the prefix read.
   */
  function TableDumpSpec(td: TableDump, subType: nat, c: Cursor): (o: TableDumpOutcome)
    requires c.Valid()
    ensures Advanced(c, o.next)
    ensures td.WellFormed() ==> o.tableDump.WellFormed()
  {
    match Take(c, 2, td.viewNumber)
    case Short => TableDumpOutcome(Fail(Truncated(ViewNumber)), td, c)
    case Took(viewNumber, c1) =>
    var td1 := td.(viewNumber := viewNumber);
    match Take(c1, 2, td.sequence)
    case Short => TableDumpOutcome(Fail(Truncated(Sequence)), td1, c1)
    case Took(sequence, c2) =>
    var td2 := td1.(sequence := sequence);
    match Take(c2, 16, Zeros(16))
    case Short => TableDumpOutcome(Fail(Truncated(Prefix)), td2, c2)
    case Took(prefix, c3) =>
    if subType != AFI_IPV4 && subType != AFI_IPV6 then
      TableDumpOutcome(Fail(UnexpectedAddressFamily), td2, c3)
    else
    TableDumpFromPrefixLen(td2.(prefix := LegacyAddress(subType, prefix)), subType, prefix, c3)
  }

  /**
   * The reads of parseTableDump after the prefix: `localAddr` is the 16-byte
   * buffer as the prefix read left it, reused for the peer address.
   */
  function TableDumpFromPrefixLen(td: TableDump, subType: nat, localAddr: seq<byte>, c: Cursor): (o: TableDumpOutcome)
    requires c.Valid() && |localAddr| == 16
    ensures Advanced(c, o.next)
    ensures td.WellFormed() ==> o.tableDump.WellFormed()
  {
    match Take(c, 1, td.prefixLen)
    case Short => TableDumpOutcome(Fail(Truncated(PrefixLength)), td, c)
    case Took(prefixLen, c1) =>
    var td1 := td.(prefixLen := prefixLen);
    match Take(c1, 1, td.status)
    case Short => TableDumpOutcome(Fail(Truncated(EntryStatus)), td1, c1)
    case Took(status, c2) =>
    var td2 := td1.(status := status);
    match Take(c2, 4, td.originatedTime)
    case Short => TableDumpOutcome(Fail(Truncated(OriginatedTime)), td2, c2)
    case Took(originatedTime, c3) =>
    var td3 := td2.(originatedTime := originatedTime);
    match Take(c3, 16, localAddr)
    case Short => TableDumpOutcome(Fail(Truncated(PeerAddress)), td3, c3)
    case Took(peer, c4) =>
    // the second address-family switch cannot reach its default: the sub-type was checked before
    var td4 := td3.(peerIp := LegacyAddress(subType, peer));
    match Take(c4, 2, td.peerAs)
    case Short => TableDumpOutcome(Fail(Truncated(PeerAs)), td4, c4)
    case Took(peerAs, c5) =>
    var td5 := td4.(peerAs := peerAs);
    match Take(c5, 2, td.attributeLen)
    case Short => TableDumpOutcome(Fail(Truncated(AttributeLength)), td5, c5)
    case Took(attributeLen, c6) =>
    TableDumpOutcome(Ok, td5.(attributeLen := attributeLen), c6)
  }

  // ------------------------------------------------------ peer index table

  /** A `peer_entry` as declared in the loop body, before any byte is copied. */
  const FRESH_PEER_ENTRY: PeerEntry := PeerEntry(Zeros(1), NoText, Zeros(4))

  /** AS_num at line 213: the mask 0x16, not RFC 6396's single bit 0x02. */
  function AsWidth(peerType: byte): nat
  {
    if HasBits(peerType, 0x16) then 4 else 2
  }

  /** Addr_fam at line 214: bit 0x01 selects IPv6. */
  function PeerFamily(peerType: byte): Family
  {
    if HasBits(peerType, 0x01) then Inet6 else Inet4
  }

  function PeerAddressText(peerType: byte, addr: seq<byte>): AddressText
    requires |addr| == 4
  {
    if PeerFamily(peerType) == Inet4 then Dotted(addr) else Ntop(Inet6, addr)
  }

  datatype PeerStep = PeerStep(status: Status, entry: PeerEntry, next: Cursor, localAddr: seq<byte>)

  /**
   * One iteration of the loop of parsePeerIndexTable: the type byte, 4 address
   * bytes into the 4-byte local buffer that lives across iterations, then
   * AS_num bytes into `peerAS32`.
   */
  function PeerEntryStep(c: Cursor, localAddr: seq<byte>): (o: PeerStep)
    requires c.Valid() && |localAddr| == 4
    ensures Advanced(c, o.next) && |o.localAddr| == 4
  {
    match Take(c, 1, FRESH_PEER_ENTRY.peerType)
    case Short => PeerStep(Fail(Truncated(PeerType)), FRESH_PEER_ENTRY, c, localAddr)
    case Took(peerType, c1) =>
    match Take(c1, 4, localAddr)
    case Short => PeerStep(Fail(Truncated(PeerAddress)), FRESH_PEER_ENTRY.(peerType := peerType), c1, localAddr)
    case Took(addr, c2) =>
    var entry := PeerEntry(peerType, PeerAddressText(peerType[0], addr), FRESH_PEER_ENTRY.peerAs32);
    match Take(c2, AsWidth(peerType[0]), FRESH_PEER_ENTRY.peerAs32)
    case Short => PeerStep(Fail(Truncated(PeerAs)), entry, c2, addr)
    case Took(peerAs32, c3) => PeerStep(Ok, entry.(peerAs32 := peerAs32), c3, addr)
  }

  datatype PeerLoop = PeerLoop(status: Status, entries: seq<PeerEntry>, next: Cursor, localAddr: seq<byte>)

  /**
   * The first `k` iterations of the loop: `vec` with the entries pushed onto
   * it, in order, where reading stopped, and the local address buffer.
   */
  function PeerEntriesSpec(c: Cursor, localAddr: seq<byte>, vec: seq<PeerEntry>, k: nat): (o: PeerLoop)
    requires c.Valid() && |localAddr| == 4
    ensures Advanced(c, o.next) && |o.localAddr| == 4
    ensures o.status.Ok? ==> |o.entries| == |vec| + k
    ensures o.status.Fail? ==> |vec| <= |o.entries| < |vec| + k
    ensures |vec| <= |o.entries| && o.entries[..|vec|] == vec
    decreases k
  {
    if k == 0 then PeerLoop(Ok, vec, c, localAddr)
    else
      var prev := PeerEntriesSpec(c, localAddr, vec, k - 1);
      if prev.status.Fail? then prev
      else
        var step := PeerEntryStep(prev.next, prev.localAddr);
        if step.status.Fail? then PeerLoop(step.status, prev.entries, step.next, step.localAddr)
        else PeerLoop(Ok, prev.entries + [step.entry], step.next, step.localAddr)
  }

  /** Once an iteration has thrown, later iteration counts describe the same outcome. */
  lemma {:induction false} PeerFailureSticks(c: Cursor, localAddr: seq<byte>, vec: seq<PeerEntry>, j: nat, k: nat)
    requires c.Valid() && |localAddr| == 4 && j <= k
    requires PeerEntriesSpec(c, localAddr, vec, j).status.Fail?
    ensures PeerEntriesSpec(c, localAddr, vec, k) == PeerEntriesSpec(c, localAddr, vec, j)
    decreases k
  {
    if j < k {
      PeerFailureSticks(c, localAddr, vec, j, k - 1);
    }
  }

  /** An iteration that completes appends its entry and moves the cursor on. */
  lemma PeerLoopGrows(c: Cursor, localAddr: seq<byte>, vec: seq<PeerEntry>, k: nat)
    requires c.Valid() && |localAddr| == 4
    requires PeerEntriesSpec(c, localAddr, vec, k).status.Ok?
    requires var prev := PeerEntriesSpec(c, localAddr, vec, k);
             PeerEntryStep(prev.next, prev.localAddr).status.Ok?
    ensures var prev := PeerEntriesSpec(c, localAddr, vec, k);
            var step := PeerEntryStep(prev.next, prev.localAddr);
            PeerEntriesSpec(c, localAddr, vec, k + 1) == PeerLoop(Ok, prev.entries + [step.entry], step.next, step.localAddr)
  {
  }

  /** An iteration that throws ends the loop: later counts describe what it left. */
  lemma PeerLoopStops(c: Cursor, localAddr: seq<byte>, vec: seq<PeerEntry>, k: nat, total: nat)
    requires c.Valid() && |localAddr| == 4 && k < total
    requires PeerEntriesSpec(c, localAddr, vec, k).status.Ok?
    requires var prev := PeerEntriesSpec(c, localAddr, vec, k);
             PeerEntryStep(prev.next, prev.localAddr).status.Fail?
    ensures var prev := PeerEntriesSpec(c, localAddr, vec, k);
            var step := PeerEntryStep(prev.next, prev.localAddr);
            PeerEntriesSpec(c, localAddr, vec, total) == PeerLoop(step.status, prev.entries, step.next, step.localAddr)
  {
    PeerFailureSticks(c, localAddr, vec, k + 1, total);
  }

  datatype PeerIndexTableOutcome = PeerIndexTableOutcome(status: Status, table: PeerIndexTable, next: Cursor)

  /**
   * parsePeerIndexTable: collector BGP ID (4), view name length (2), the view
   * name (read only when its length is zero, line 197: a copy of zero bytes,
   * which cannot fail), peer count (2), then `peer_count` entries appended to
   * `peerEntries`.
   */
  function PeerIndexTableSpec(t: PeerIndexTable, c: Cursor, le: bool): (o: PeerIndexTableOutcome)
    requires c.Valid()
    ensures Advanced(c, o.next)
    ensures t.WellFormed() ==> o.table.WellFormed()
  {
    match Take(c, 4, t.collectorBgpId)
    case Short => PeerIndexTableOutcome(Fail(Truncated(CollectorBgpId)), t, c)
    case Took(collectorBgpId, c1) =>
    var t1 := t.(collectorBgpId := collectorBgpId);
    match Take(c1, 2, t.viewNameLength)
    case Short => PeerIndexTableOutcome(Fail(Truncated(ViewNameLength)), t1, c1)
    case Took(viewNameLength, c2) =>
    var t2 := t1.(viewNameLength := viewNameLength);
    match Take(c2, 2, t.peerCount)
    case Short => PeerIndexTableOutcome(Fail(Truncated(PeerCount)), t2, c2)
    case Took(peerCount, c3) =>
    var loop := PeerEntriesSpec(c3, Zeros(4), t.peerEntries, HostValue(peerCount, le));
    PeerIndexTableOutcome(loop.status, t2.(peerCount := peerCount, peerEntries := loop.entries), loop.next)
  }

  // ------------------------------------------------------------ RIB unicast

  /** An `RIB_entry` as declared in the loop body, before any byte is copied. */
  const FRESH_RIB_ENTRY: RibEntry := RibEntry(Zeros(2), Zeros(4), Zeros(2), [])

  datatype RibStep = RibStep(status: Status, entry: RibEntry, next: Cursor)

  /** One iteration of the loop of parseRIB_UNICAST: 2 + 4 + 2 bytes, then `attribute_len` bytes. */
  function RibEntryStep(c: Cursor, le: bool): (o: RibStep)
    requires c.Valid()
    ensures Advanced(c, o.next)
  {
    match Take(c, 2, FRESH_RIB_ENTRY.peerIndex)
    case Short => RibStep(Fail(Truncated(PeerIndex)), FRESH_RIB_ENTRY, c)
    case Took(peerIndex, c1) =>
    var e1 := FRESH_RIB_ENTRY.(peerIndex := peerIndex);
    match Take(c1, 4, FRESH_RIB_ENTRY.originatedTime)
    case Short => RibStep(Fail(Truncated(OriginatedTime)), e1, c1)
    case Took(originatedTime, c2) =>
    var e2 := e1.(originatedTime := originatedTime);
    match Take(c2, 2, FRESH_RIB_ENTRY.attributeLen)
    case Short => RibStep(Fail(Truncated(AttributeLength)), e2, c2)
    case Took(attributeLen, c3) =>
    var e3 := e2.(attributeLen := attributeLen);
    match Take(c3, HostValue(attributeLen, le), FRESH_RIB_ENTRY.bgpAttribute)
    case Short => RibStep(Fail(Truncated(Attribute)), e3, c3)
    case Took(attribute, c4) => RibStep(Ok, e3.(bgpAttribute := attribute), c4)
  }

  datatype RibLoop = RibLoop(status: Status, entries: seq<RibEntry>, next: Cursor)

  /** The first `k` iterations of the RIB entry loop: `vec` with the entries pushed onto it. */
  function RibEntriesSpec(c: Cursor, vec: seq<RibEntry>, k: nat, le: bool): (o: RibLoop)
    requires c.Valid()
    ensures Advanced(c, o.next)
    ensures o.status.Ok? ==> |o.entries| == |vec| + k
    ensures o.status.Fail? ==> |vec| <= |o.entries| < |vec| + k
    ensures |vec| <= |o.entries| && o.entries[..|vec|] == vec
    decreases k
  {
    if k == 0 then RibLoop(Ok, vec, c)
    else
      var prev := RibEntriesSpec(c, vec, k - 1, le);
      if prev.status.Fail? then prev
      else
        var step := RibEntryStep(prev.next, le);
        if step.status.Fail? then RibLoop(step.status, prev.entries, step.next)
        else RibLoop(Ok, prev.entries + [step.entry], step.next)
  }

  /** Once an iteration has thrown, later iteration counts describe the same outcome. */
  lemma {:induction false} RibFailureSticks(c: Cursor, vec: seq<RibEntry>, j: nat, k: nat, le: bool)
    requires c.Valid() && j <= k
    requires RibEntriesSpec(c, vec, j, le).status.Fail?
    ensures RibEntriesSpec(c, vec, k, le) == RibEntriesSpec(c, vec, j, le)
    decreases k
  {
    if j < k {
      RibFailureSticks(c, vec, j, k - 1, le);
    }
  }

  /** An iteration that completes appends its entry and moves the cursor on. */
  lemma RibLoopGrows(c: Cursor, vec: seq<RibEntry>, k: nat, le: bool)
    requires c.Valid()
    requires RibEntriesSpec(c, vec, k, le).status.Ok?
    requires RibEntryStep(RibEntriesSpec(c, vec, k, le).next, le).status.Ok?
    ensures var step := RibEntryStep(RibEntriesSpec(c, vec, k, le).next, le);
            RibEntriesSpec(c, vec, k + 1, le) == RibLoop(Ok, RibEntriesSpec(c, vec, k, le).entries + [step.entry], step.next)
  {
  }

  /** An iteration that throws ends the loop: later counts describe what it left. */
  lemma RibLoopStops(c: Cursor, vec: seq<RibEntry>, k: nat, total: nat, le: bool)
    requires c.Valid() && k < total
    requires RibEntriesSpec(c, vec, k, le).status.Ok?
    requires RibEntryStep(RibEntriesSpec(c, vec, k, le).next, le).status.Fail?
    ensures var step := RibEntryStep(RibEntriesSpec(c, vec, k, le).next, le);
            RibEntriesSpec(c, vec, total, le) == RibLoop(step.status, RibEntriesSpec(c, vec, k, le).entries, step.next)
  {
    RibFailureSticks(c, vec, k + 1, total, le);
  }

  datatype RibOutcome = RibOutcome(status: Status, header: RibEntryHeader, next: Cursor)

  /** The prefix text: `inet_ntop` of the family the sub-type names; other sub-types leave it. */
  function RibPrefixText(subType: nat, raw: seq<byte>, previous: AddressText): AddressText
  {
    if subType == RIB_IPV4_UNICAST then Ntop(Inet4, raw)
    else if subType == RIB_IPV6_UNICAST then Ntop(Inet6, raw)
    else previous
  }

  /**
   * parseRIB_UNICAST: the fixed part of the record (RibHeaderSpec), then as
   * many entries as the last peer index table's `peer_count` (line 268)
   * appended to `RIB_entries`.
   */
  function RibUnicastSpec(h: RibEntryHeader, subType: nat, peerCount: nat, c: Cursor, le: bool): (o: RibOutcome)
    requires c.Valid()
    ensures Advanced(c, o.next)
    ensures h.WellFormed() ==> o.header.WellFormed()
  {
    var fixed := RibHeaderSpec(h, subType, c, le);
    if fixed.status.Fail? then fixed
    else
      var loop := RibEntriesSpec(fixed.next, h.ribEntries, peerCount, le);
      RibOutcome(loop.status, fixed.header.(ribEntries := loop.entries), loop.next)
  }

  /**
   * The fixed part of an RIB record: sequence number (4), prefix length (1),
   * `prefix_length` prefix bytes (line 255, not the RFC's bits), entry count (2).
   */
  function RibHeaderSpec(h: RibEntryHeader, subType: nat, c: Cursor, le: bool): (o: RibOutcome)
    requires c.Valid()
    ensures Advanced(c, o.next)
    ensures h.WellFormed() ==> o.header.WellFormed()
    ensures o.header.ribEntries == h.ribEntries
  {
    match Take(c, 4, h.sequenceNumber)
    case Short => RibOutcome(Fail(Truncated(SequenceNumber)), h, c)
    case Took(sequenceNumber, c1) =>
    var h1 := h.(sequenceNumber := sequenceNumber);
    match Take(c1, 1, h.prefixLength)
    case Short => RibOutcome(Fail(Truncated(RibPrefixLength)), h1, c1)
    case Took(prefixLength, c2) =>
    RibPrefixSpec(h1.(prefixLength := prefixLength), subType, HostValue(prefixLength, le), c2)
  }

  /** The reads of the fixed part after the prefix length: `n` prefix bytes, then the entry count. */
  function RibPrefixSpec(h: RibEntryHeader, subType: nat, n: nat, c: Cursor): (o: RibOutcome)
    requires c.Valid()
    ensures Advanced(c, o.next)
    ensures h.WellFormed() ==> o.header.WellFormed()
    ensures o.header.ribEntries == h.ribEntries
  {
    match Take(c, n, Zeros(n))
    case Short => RibOutcome(Fail(Truncated(RibPrefix)), h, c)
    case Took(prefix, c1) =>
    var h1 := h.(prefix := RibPrefixText(subType, prefix, h.prefix));
    match Take(c1, 2, h.entryCount)
    case Short => RibOutcome(Fail(Truncated(EntryCount)), h1, c1)
    case Took(entryCount, c2) => RibOutcome(Ok, h1.(entryCount := entryCount), c2)
  }

  // --------------------------------------------------------- TABLE_DUMP_V2

  /**
   * parseTableDump_V2: dispatch on the sub-type; multicast and generic RIB
   * records go to parseRIB_GENERIC (recorded, not modelled), unknown
   * sub-types do nothing.
   */
  function TableDumpV2Spec(s: ParserState, c: Cursor, le: bool): (o: Outcome)
    requires s.Valid() && c.Valid()
    ensures Advanced(c, o.next) && o.state.Valid()
    ensures o.state == s.(peerIndexTable := o.state.peerIndexTable, ribEntryHeader := o.state.ribEntryHeader,
                          handoffs := o.state.handoffs)
  {
    var st := HostValue(s.cHdr.subType, le);
    if st == PEER_INDEX_TABLE then
      var o := PeerIndexTableSpec(s.peerIndexTable, c, le);
      Outcome(o.status, s.(peerIndexTable := o.table), o.next)
    else if st == RIB_IPV4_UNICAST || st == RIB_IPV6_UNICAST then
      var o := RibUnicastSpec(s.ribEntryHeader, st, HostValue(s.peerIndexTable.peerCount, le), c, le);
      Outcome(o.status, s.(ribEntryHeader := o.header), o.next)
    else if st == RIB_IPV4_MULTICAST || st == RIB_IPV6_MULTICAST || st == RIB_GENERIC then
      Outcome(Ok, s.(handoffs := s.handoffs + [RibGeneric(st, c.Remaining())]), c)
    else
      Outcome(Ok, s, c)
  }

  // ---------------------------------------------------------------- BGP4MP

  /** Which member struct a BGP4MP sub-type is parsed into, and how. */
  datatype Variant = Variant(slot: Slot, isAs4: bool, isStateChange: bool)

  /** The switch of parseBGP4MP (lines 293-333). */
  function Bgp4mpVariant(subType: nat): Option<Variant>
  {
    if subType == BGP4MP_STATE_CHANGE then Some(Variant(StateChangeAs4, false, true))
    else if subType == BGP4MP_MESSAGE then Some(Variant(Msg, false, false))
    else if subType == BGP4MP_MESSAGE_AS4 then Some(Variant(MsgAs4, true, false))
    else if subType == BGP4MP_STATE_CHANGE_AS4 then Some(Variant(StateChangeAs4, true, true))
    else if subType == BGP4MP_MESSAGE_LOCAL then Some(Variant(MsgLocal, false, false))
    else if subType == BGP4MP_MESSAGE_AS4_LOCAL then Some(Variant(MsgAs4Local, true, false))
    else None
  }

  /** ip_addr_len (lines 342-346): decided by `bgp4mp_msg_as4.address_family`, whatever struct is parsed. */
  function IpAddrLen(msgAs4: Bgp4mpRecord, le: bool): nat
  {
    if AddressFamily(msgAs4, true, le) == AFI_IPV6 then 16 else 4
  }

  function AsnLen(isAs4: bool): nat
  {
    if isAs4 then 12 else 8
  }

  datatype AuxOutcome = AuxOutcome(status: Status, structs: Bgp4mpStructs, next: Cursor)

  /**
   * parseBGP4MPaux: `asn_len` bytes, two addresses of `ip_addr_len` bytes,
   * then two 2-byte states or `mrt_data_len - asn_len - 2 * ip_addr_len`
   * message bytes. Every failed read reaches a bare `throw;`.
   */
  function Bgp4mpAuxSpec(b: Bgp4mpStructs, v: Variant, mrtDataLen: int, c: Cursor, le: bool): (o: AuxOutcome)
    requires c.Valid()
    ensures Advanced(c, o.next)
    ensures forall other :: other != v.slot ==> o.structs.Get(other) == b.Get(other)
    ensures b.WellFormed() ==> o.structs.WellFormed()
  {
    var r := Bgp4mpRecordSpec(b.Get(v.slot), v, b.msgAs4, mrtDataLen, c, le);
    AuxOutcome(r.status, b.Set(v.slot, r.rec), r.next)
  }

  datatype RecordStep = RecordStep(status: Status, rec: Bgp4mpRecord, next: Cursor)

  /**
   * The reads of parseBGP4MPaux into the struct `rec` of slot `v.slot`:
   * `asn_len` bytes, then the rest (Bgp4mpTailSpec). The address length
   * comes from `bgp4mp_msg_as4` (`msgAs4`), which the first read has just
   * filled only when `rec` is that struct.
   */
  function Bgp4mpRecordSpec(rec: Bgp4mpRecord, v: Variant, msgAs4: Bgp4mpRecord, mrtDataLen: int, c: Cursor, le: bool)
    : (o: RecordStep)
    requires c.Valid()
    ensures Advanced(c, o.next)
    ensures rec.WellFormed() ==> o.rec.WellFormed()
  {
    var asnLen := AsnLen(v.isAs4);
    match Take(c, asnLen, rec.asnFields)
    case Short => RecordStep(Fail(Terminated), rec, c)
    case Took(asnFields, c1) =>
      var rec1 := rec.(asnFields := asnFields);
      var ipLen := IpAddrLen(if v.slot == MsgAs4 then rec1 else msgAs4, le);
      Bgp4mpTailSpec(rec1, v.isStateChange, mrtDataLen - asnLen - 2 * ipLen, ipLen, c1)
  }

  /**
   * The reads of parseBGP4MPaux after the AS fields: both addresses of
   * `ipLen` bytes, then the two 2-byte states or `bgpMsgLen` message bytes
   * (a negative length being undefined behaviour of `memcpy`).
   */
  function Bgp4mpTailSpec(rec: Bgp4mpRecord, isStateChange: bool, bgpMsgLen: int, ipLen: nat, c: Cursor): (o: RecordStep)
    requires c.Valid()
    ensures Advanced(c, o.next)
    ensures o.rec.asnFields == rec.asnFields
    ensures rec.WellFormed() ==> o.rec.WellFormed()
  {
    match Take(c, ipLen, rec.peerIp)
    case Short => RecordStep(Fail(Terminated), rec, c)
    case Took(peerIp, c1) =>
    var rec1 := rec.(peerIp := peerIp);
    match Take(c1, ipLen, rec.localIp)
    case Short => RecordStep(Fail(Terminated), rec1, c1)
    case Took(localIp, c2) =>
    var rec2 := rec1.(localIp := localIp);
    if isStateChange then
      match Take(c2, 2, rec.oldState)
      case Short => RecordStep(Fail(Terminated), rec2, c2)
      case Took(oldState, c3) =>
      var rec3 := rec2.(oldState := oldState);
      match Take(c3, 2, rec.newState)
      case Short => RecordStep(Fail(Terminated), rec3, c3)
      case Took(newState, c4) => RecordStep(Ok, rec3.(newState := newState), c4)
    else if bgpMsgLen < 0 then RecordStep(Fail(NegativeCopyLength), rec2, c2)
    else
      match Take(c2, bgpMsgLen, rec.bgpMessage)
      case Short => RecordStep(Fail(Terminated), rec2, c2)
      case Took(bgpMessage, c3) => RecordStep(Ok, rec2.(bgpMessage := bgpMessage), c3)
  }

  /** What `new parseBGP(...)` and `parseBGPfromMRT(mrt_data, mrt_data_len, ...)` are handed. */
  function BgpHandoff(s: ParserState, v: Variant, subType: nat, le: bool): Handoff
    requires s.Valid()
  {
    var rec := s.bgp4mp.Get(v.slot);
    BgpMessage(rec.peerIp, PeerAsNumber(rec, v.isAs4), AddressFamily(rec, v.isAs4, le) == AFI_IPV4,
               s.cHdr.timeStamp, s.cHdr.microsecondTimestamp, s.mrtData[..s.mrtDataLen], subType > 5)
  }

  /**
   * parseBGP4MP: pick the struct by sub-type (unknown sub-types throw), parse
   * it from a copy of the cursor, and hand message sub-types to the external
   * BGP decoder. The caller's cursor is never advanced.
   */
  function Bgp4mpSpec(s: ParserState, c: Cursor, le: bool): (o: Outcome)
    requires s.Valid() && c.Valid()
    ensures o.next == c && o.state.Valid()
    ensures o.state == s.(bgp4mp := o.state.bgp4mp, handoffs := o.state.handoffs)
  {
    var st := HostValue(s.cHdr.subType, le);
    match Bgp4mpVariant(st)
    case None => Outcome(Fail(UnsupportedBgp4mpSubtype), s, c)
    case Some(v) =>
      var aux := Bgp4mpAuxSpec(s.bgp4mp, v, s.mrtDataLen, c, le);
      var s1 := s.(bgp4mp := aux.structs);
      if aux.status.Fail? || v.isStateChange then Outcome(aux.status, s1, c)
      else Outcome(Ok, s1.(handoffs := s.handoffs + [BgpHandoff(s1, v, st, le)]), c)
  }

  // ------------------------------------------------------------- parseMsg

  predicate IsSkippedType(code: int)
  {
    code == OSPF_V2 || code == OSPF_V3 || code == OSPF_V3_ET || code == ISIS || code == ISIS_ET
  }

  /** The cursor a body decoder is given: `mrt_data` with length `mrt_data_len`. */
  function BodyCursor(s: ParserState): (c: Cursor)
    requires s.Valid()
    ensures c.Valid() && c.buffer == 0 && c.bufLen == s.mrtDataLen
  {
    Cursor(s.mrtData, 0, s.mrtDataLen)
  }

  /**
   * parseMsg: the header, then dispatch on the returned type code
   * (DispatchSpec).
   */
  function MsgSpec(s: ParserState, c: Cursor, le: bool): (o: Outcome)
    requires s.Valid() && c.Valid()
    ensures o.state.Valid() && Advanced(c, o.next) && |o.state.mrtData| == |s.mrtData|
  {
    var h := HeaderSpec(s, c, le);
    if h.status.Fail? then Outcome(h.status, h.state, h.next)
    else DispatchSpec(h.state, h.mrtType, h.next, le)
  }

  /**
   * The switch of parseMsg on the type code `code`. The body decoders of
   * TABLE_DUMP and TABLE_DUMP_V2 read the buffered body through a reference
   * to `mrt_data_len`, which keeps what they leave unread; BGP4MP is decoded
   * from the caller's cursor, which stays where the header ended.
   */
  function DispatchSpec(s: ParserState, code: int, c: Cursor, le: bool): (o: Outcome)
    requires s.Valid() && c.Valid()
    ensures o.state.Valid() && Advanced(c, o.next) && |o.state.mrtData| == |s.mrtData|
  {
    if IsSkippedType(code) then Outcome(Ok, s, c)
    else if code == TABLE_DUMP || code == TABLE_DUMP_V2 then BufferedBodySpec(s, code == TABLE_DUMP_V2, c, le)
    else if code == BGP4MP || code == BGP4MP_ET then
      var g := Bgp4mpSpec(s, c, le);
      Outcome(g.status, g.state, c)
    else
      Outcome(Fail(UnexpectedType), s, c)
  }

  /**
   * The TABLE_DUMP and TABLE_DUMP_V2 arms of parseMsg: the body is buffered,
   * then decoded from `mrt_data` through a reference to `mrt_data_len`, which
   * keeps what the decoder leaves unread. The caller's cursor is where the
   * buffering left it.
   */
  function BufferedBodySpec(s: ParserState, isV2: bool, c: Cursor, le: bool): (o: Outcome)
    requires s.Valid() && c.Valid()
    ensures o.state.Valid() && Advanced(c, o.next) && |o.state.mrtData| == |s.mrtData|
  {
    var b := BufferSpec(s, c);
    if b.status.Fail? then b
    else if isV2 then
      var v := TableDumpV2Spec(b.state, BodyCursor(b.state), le);
      Outcome(v.status, v.state.(mrtDataLen := v.next.bufLen), b.next)
    else
      var s2 := b.state;
      var t := TableDumpSpec(s2.tableDump, HostValue(s2.cHdr.subType, le), BodyCursor(s2));
      Outcome(t.status, s2.(tableDump := t.tableDump, mrtDataLen := t.next.bufLen), b.next)
  }
}
