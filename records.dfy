/**
 * The entities the MRT decoder fills in, as values. Every field is the raw
 * byte image the source `memcpy`s into it (nothing is byte-swapped); the few
 * fields the decoder itself interprets are read back with `HostValue`.
 * Type and sub-type codes are those of RFC 6396 (sections 4, 4.3 and 4.4).
 */
module Records {
  import opened Wire
  import opened Text

  // MRT types (RFC 6396 section 4).
  const OSPF_V2: int := 11
  const TABLE_DUMP: int := 12
  const TABLE_DUMP_V2: int := 13
  const BGP4MP: int := 16
  const BGP4MP_ET: int := 17
  const ISIS: int := 32
  const ISIS_ET: int := 33
  const OSPF_V3: int := 48
  const OSPF_V3_ET: int := 49

  // TABLE_DUMP sub-types double as address families (RFC 6396 section 4.2).
  const AFI_IPV4: int := 1
  const AFI_IPV6: int := 2

  // TABLE_DUMP_V2 sub-types (RFC 6396 section 4.3).
  const PEER_INDEX_TABLE: int := 1
  const RIB_IPV4_UNICAST: int := 2
  const RIB_IPV4_MULTICAST: int := 3
  const RIB_IPV6_UNICAST: int := 4
  const RIB_IPV6_MULTICAST: int := 5
  const RIB_GENERIC: int := 6

  // BGP4MP sub-types (RFC 6396 section 4.4).
  const BGP4MP_STATE_CHANGE: int := 0
  const BGP4MP_MESSAGE: int := 1
  const BGP4MP_MESSAGE_AS4: int := 4
  const BGP4MP_STATE_CHANGE_AS4: int := 5
  const BGP4MP_MESSAGE_LOCAL: int := 6
  const BGP4MP_MESSAGE_AS4_LOCAL: int := 7

  /** The three types whose header carries a microsecond timestamp. */
  predicate IsExtendedType(t: nat)
  {
    t == BGP4MP_ET || t == ISIS_ET || t == OSPF_V3_ET
  }

  /** The field whose read came up short. */
  datatype Field =
    | HeaderFields | MicrosecondTimestamp | Body
    | ViewNumber | Sequence | Prefix | PrefixLength | EntryStatus | OriginatedTime
    | PeerAddress | PeerAs | AttributeLength
    | CollectorBgpId | ViewNameLength | ViewName | PeerCount | PeerType
    | SequenceNumber | RibPrefixLength | RibPrefix | EntryCount | PeerIndex | Attribute

  /** What the source throws (or how it stops) instead of returning. */
  datatype Failure =
    | Truncated(field: Field)       // a `throw "Error in parsing ..."` after a short read
    | BodyTooLarge                  // the record does not fit `mrt_data`
    | UnexpectedType                // an MRT type outside the switch of parseMsg
    | UnexpectedAddressFamily       // a TABLE_DUMP sub-type other than AFI_IPv4/AFI_IPv6
    | UnsupportedBgp4mpSubtype      // a BGP4MP sub-type outside the switch of parseBGP4MP
    | Terminated                    // `throw;` with no active exception: std::terminate
    | NegativeCopyLength            // `memcpy` asked for a negative length: undefined behaviour

  datatype Status = Ok | Fail(failure: Failure)

  datatype Family = Inet4 | Inet6

  /**
   * The content of a character-array address member: never written, the
   * `snprintf("%d.%d.%d.%d", ...)` text of four bytes, or what `inet_ntop`
   * writes for an address family and the bytes it was meant to convert
   * (two of its calls read from a 4-byte buffer or from a pointer the
   * prefix bytes overwrote; the model keeps the bytes). The dotted text is
   * kept as the four bytes it is printed from; `Text()` spells it out, and
   * DottedQuadRoundTrip shows that nothing is lost either way.
   */
  datatype AddressText = NoText | Dotted(quad: seq<byte>) | Ntop(family: Family, raw: seq<byte>)
  {
    /** The characters `snprintf` writes; `inet_ntop` output is not modelled. */
    function Text(): Option<string>
    {
      if Dotted? && |quad| == 4 then Some(DottedQuad(quad)) else None
    }
  }

  /** `c_hdr`: the RFC 6396 section 2 common header, plus the section 3 microseconds. */
  datatype CommonHeader = CommonHeader(timeStamp: seq<byte>, mrtType: seq<byte>, subType: seq<byte>,
                                       len: seq<byte>, microsecondTimestamp: seq<byte>)
  {
    predicate WellFormed()
    {
      |timeStamp| == 4 && |mrtType| == 2 && |subType| == 2 && |len| == 4 && |microsecondTimestamp| == 4
    }

    /** The 12 bytes of the struct that one `memcpy` fills. */
    function Raw(): seq<byte>
    {
      timeStamp + mrtType + subType + len
    }

    /** The struct after its first 12 bytes are replaced by `raw`. */
    function WithRaw(raw: seq<byte>): (h: CommonHeader)
      requires |raw| >= 12
      ensures WellFormed() && |raw| == 12 ==> h.WellFormed() && h.Raw() == raw
    {
      CommonHeader(raw[0..4], raw[4..6], raw[6..8], raw[8..12], microsecondTimestamp)
    }
  }

  /** `table_dump`: the legacy TABLE_DUMP record of RFC 6396 section 4.2. */
  datatype TableDump = TableDump(viewNumber: seq<byte>, sequence: seq<byte>, prefix: AddressText,
                                 prefixLen: seq<byte>, status: seq<byte>, originatedTime: seq<byte>,
                                 peerIp: AddressText, peerAs: seq<byte>, attributeLen: seq<byte>)
  {
    /** Every byte member has its declared width. */
    predicate WellFormed()
    {
      |viewNumber| == 2 && |sequence| == 2 && |prefixLen| == 1 && |status| == 1
      && |originatedTime| == 4 && |peerAs| == 2 && |attributeLen| == 2
    }
  }

  /** `peer_entry`: one entry of the Peer Index Table. */
  datatype PeerEntry = PeerEntry(peerType: seq<byte>, peerIp: AddressText, peerAs32: seq<byte>)

  /** `peerIndexTable`: RFC 6396 section 4.3.1. `peerEntries` is the vector entries are pushed onto. */
  datatype PeerIndexTable = PeerIndexTable(collectorBgpId: seq<byte>, viewNameLength: seq<byte>,
                                           viewName: seq<byte>, peerCount: seq<byte>,
                                           peerEntries: seq<PeerEntry>)
  {
    predicate WellFormed()
    {
      |collectorBgpId| == 4 && |viewNameLength| == 2 && |peerCount| == 2
    }
  }

  /** `RIB_entry`: one entry of a RIB record. */
  datatype RibEntry = RibEntry(peerIndex: seq<byte>, originatedTime: seq<byte>,
                               attributeLen: seq<byte>, bgpAttribute: seq<byte>)

  /** `ribEntryHeader`: RFC 6396 section 4.3.2. `ribEntries` is the vector entries are pushed onto. */
  datatype RibEntryHeader = RibEntryHeader(sequenceNumber: seq<byte>, prefixLength: seq<byte>,
                                           prefix: AddressText, entryCount: seq<byte>,
                                           ribEntries: seq<RibEntry>)
  {
    predicate WellFormed()
    {
      |sequenceNumber| == 4 && |prefixLength| == 1 && |entryCount| == 2
    }
  }

  /**
   * One BGP4MP struct: `asnFields` are the leading peer AS, local AS,
   * interface index and address family bytes (12 for the AS4 variants, 8
   * otherwise), followed by the two addresses and either the two states or
   * the BGP message.
   */
  datatype Bgp4mpRecord = Bgp4mpRecord(asnFields: seq<byte>, peerIp: seq<byte>, localIp: seq<byte>,
                                       oldState: seq<byte>, newState: seq<byte>, bgpMessage: seq<byte>)
  {
    /** The two state members are 2 bytes wide. */
    predicate WellFormed()
    {
      |oldState| == 2 && |newState| == 2
    }
  }

  /** `s[i..j]` when it exists, else no bytes. */
  function Bytes(s: seq<byte>, i: nat, j: nat): (r: seq<byte>)
    ensures i <= j <= |s| ==> r == s[i..j]
  {
    if i <= j <= |s| then s[i..j] else []
  }

  /** The `address_family` member of a struct: after 2+2+2 bytes, or 4+4+2 for AS4 layouts. */
  function AddressFamily(r: Bgp4mpRecord, isAs4: bool, littleEndianHost: bool): nat
  {
    if isAs4 then HostValue(Bytes(r.asnFields, 10, 12), littleEndianHost)
    else HostValue(Bytes(r.asnFields, 6, 8), littleEndianHost)
  }

  /** The `peer_AS_number` member: the first 2 bytes, or 4 for AS4 layouts. */
  function PeerAsNumber(r: Bgp4mpRecord, isAs4: bool): seq<byte>
  {
    Bytes(r.asnFields, 0, if isAs4 then 4 else 2)
  }

  /** The five BGP4MP member structs the source writes. */
  datatype Slot = StateChangeAs4 | Msg | MsgAs4 | MsgLocal | MsgAs4Local

  datatype Bgp4mpStructs = Bgp4mpStructs(stateChangeAs4: Bgp4mpRecord, msg: Bgp4mpRecord,
                                         msgAs4: Bgp4mpRecord, msgLocal: Bgp4mpRecord,
                                         msgAs4Local: Bgp4mpRecord)
  {
    predicate WellFormed()
    {
      stateChangeAs4.WellFormed() && msg.WellFormed() && msgAs4.WellFormed()
      && msgLocal.WellFormed() && msgAs4Local.WellFormed()
    }

    function Get(slot: Slot): Bgp4mpRecord
    {
      match slot
      case StateChangeAs4 => stateChangeAs4
      case Msg => msg
      case MsgAs4 => msgAs4
      case MsgLocal => msgLocal
      case MsgAs4Local => msgAs4Local
    }

    function Set(slot: Slot, r: Bgp4mpRecord): (s: Bgp4mpStructs)
      ensures s.Get(slot) == r
      ensures forall other :: other != slot ==> s.Get(other) == Get(other)
    {
      match slot
      case StateChangeAs4 => this.(stateChangeAs4 := r)
      case Msg => this.(msg := r)
      case MsgAs4 => this.(msgAs4 := r)
      case MsgLocal => this.(msgLocal := r)
      case MsgAs4Local => this.(msgAs4Local := r)
    }
  }

  /**
   * A call into code outside this model: the external BGP decoder
   * (`new parseBGP(...)` then `parseBGPfromMRT(mrt_data, mrt_data_len, ...)`),
   * or `parseRIB_GENERIC`, whose body is not part of this model.
   */
  datatype Handoff =
    | BgpMessage(peerIp: seq<byte>, peerAs: seq<byte>, isIpv4: bool, timeStamp: seq<byte>,
                 microsecondTimestamp: seq<byte>, pdu: seq<byte>, local: bool)
    | RibGeneric(subType: nat, data: seq<byte>)

  /** The members of `parseMRT` as one value; `mrtData` is the content of the fixed buffer. */
  datatype ParserState = ParserState(cHdr: CommonHeader, mrtLen: int, mrtData: seq<byte>, mrtDataLen: int,
                                     tableDump: TableDump, peerIndexTable: PeerIndexTable,
                                     ribEntryHeader: RibEntryHeader, bgp4mp: Bgp4mpStructs,
                                     handoffs: seq<Handoff>)
  {
    predicate Valid()
    {
      cHdr.WellFormed() && 0 <= mrtDataLen <= |mrtData| && tableDump.WellFormed()
      && peerIndexTable.WellFormed() && ribEntryHeader.WellFormed() && bgp4mp.WellFormed()
    }
  }

  const EMPTY_RECORD_4: Bgp4mpRecord := Bgp4mpRecord(Zeros(8), Zeros(16), Zeros(16), Zeros(2), Zeros(2), [])
  const EMPTY_RECORD_AS4: Bgp4mpRecord := Bgp4mpRecord(Zeros(12), Zeros(16), Zeros(16), Zeros(2), Zeros(2), [])

  /**
   * The state right after the constructor: `mrt_len` and `mrt_data_len` are
   * 0; members the constructor leaves alone are modelled as zero bytes.
   */
  function InitialState(capacity: nat): (s: ParserState)
    ensures s.Valid() && s.mrtLen == 0 && s.mrtDataLen == 0 && |s.mrtData| == capacity
    ensures s.peerIndexTable.peerEntries == [] && s.ribEntryHeader.ribEntries == [] && s.handoffs == []
  {
    ParserState(
      CommonHeader(Zeros(4), Zeros(2), Zeros(2), Zeros(4), Zeros(4)),
      0, Zeros(capacity), 0,
      TableDump(Zeros(2), Zeros(2), NoText, Zeros(1), Zeros(1), Zeros(4), NoText, Zeros(2), Zeros(2)),
      PeerIndexTable(Zeros(4), Zeros(2), [], Zeros(2), []),
      RibEntryHeader(Zeros(4), Zeros(1), NoText, Zeros(2), []),
      Bgp4mpStructs(EMPTY_RECORD_AS4, EMPTY_RECORD_4, EMPTY_RECORD_AS4, EMPTY_RECORD_4, EMPTY_RECORD_AS4),
      [])
  }
}
