/**
 * Where the decoder reads differently from RFC 6396. Each lemma sets an
 * independent reference definition from the RFC against what the decoder
 * does and says exactly when the two agree.
 */
module Divergences {
  import opened Wire
  import opened Records
  import opened Decode
  import opened Properties
  import opened PeerTableProperties
  import opened RibProperties
  import opened Bgp4mpProperties

  // ------------------------------------------------------ Peer Index Table

  /** RFC 6396 section 4.3.1: bit 0x02 of the peer type says the AS number is 4 bytes. */
  function RfcAsWidth(peerType: byte): nat
  {
    if HasBits(peerType, 0x02) then 4 else 2
  }

  /** RFC 6396 section 4.3.1: bit 0x01 says the peer address is an IPv6 address of 16 bytes. */
  function RfcAddressLength(peerType: byte): nat
  {
    if HasBits(peerType, 0x01) then 16 else 4
  }

  /** RFC 6396 section 4.3.1: peer type (1), peer BGP ID (4), peer address, peer AS. */
  function RfcPeerEntryLength(peerType: byte): nat
  {
    1 + 4 + RfcAddressLength(peerType) + RfcAsWidth(peerType)
  }

  /**
   * The mask 0x16 also tests bits 0x04 and 0x10: the AS width agrees with
   * the RFC exactly when bit 0x02 is set or neither of those two is.
   */
  lemma AsWidthAgainstRfc(peerType: byte)
    ensures AsWidth(peerType) == RfcAsWidth(peerType)
            <==> HasBits(peerType, 0x02) || !HasBits(peerType, 0x14)
    ensures AsWidth(peerType) >= RfcAsWidth(peerType)
  {
    var b := peerType as bv8;
    assert b & 0x16 == (b & 0x02) | (b & 0x14);
  }

  /** Types 0x04 and 0x10 (no AS4 bit) are read with a 4-byte AS number. */
  lemma AsWidthMisreadTypes()
    ensures AsWidth(0x04) == 4 && RfcAsWidth(0x04) == 2
    ensures AsWidth(0x10) == 4 && RfcAsWidth(0x10) == 2
  {
    assert (0x04 as bv8) & 0x16 == 0x04;
    assert (0x10 as bv8) & 0x16 == 0x10;
    assert (0x04 as bv8) & 0x02 == 0 && (0x10 as bv8) & 0x02 == 0;
  }

  /**
   * A peer entry consumes 5 + AsWidth bytes: the type, the RFC's peer BGP ID
   * (kept as the entry's address) and an AS number read from where the RFC
   * puts the peer address. That is always less than the RFC's entry length;
   * when the AS widths agree the whole peer address is missing from the
   * count, so the next entry is read that many bytes too early.
   */
  lemma PeerEntryLengthAgainstRfc(c: Cursor, localAddr: seq<byte>)
    requires c.Valid() && |localAddr| == 4 && c.bufLen >= 5 && c.bufLen >= 5 + AsWidth(c.mem[c.buffer])
    ensures var t := c.mem[c.buffer];
            var o := PeerEntryStep(c, localAddr);
            o.status == Ok && o.next == Skip(c, 5 + AsWidth(t)) && o.localAddr == At(c, 1, 4)
            && 5 + AsWidth(t) < RfcPeerEntryLength(t)
            && (AsWidth(t) == RfcAsWidth(t) ==> RfcPeerEntryLength(t) == 5 + AsWidth(t) + RfcAddressLength(t))
  {
    PeerEntryLayout(c, localAddr);
  }

  // ------------------------------------------------------------ RIB records

  /** RFC 6396 section 4.3.2: the prefix field holds as many bytes as the prefix length needs bits. */
  function RfcPrefixBytes(prefixLength: nat): nat
  {
    (prefixLength + 7) / 8
  }

  /**
   * The fixed part of an RIB record takes `prefix_length` bytes of prefix:
   * the RFC's length only for prefix lengths 0 and 1, more than it for
   * every longer prefix.
   */
  lemma RibPrefixAgainstRfc(h: RibEntryHeader, subType: nat, c: Cursor, le: bool)
    requires c.Valid() && |h.sequenceNumber| == 4 && |h.prefixLength| == 1 && |h.entryCount| == 2
    requires c.bufLen >= 5 && c.bufLen >= 7 + c.mem[c.buffer + 4] as nat
    ensures var n := c.mem[c.buffer + 4] as nat;
            var o := RibHeaderSpec(h, subType, c, le);
            o.status == Ok && o.next == Skip(c, 7 + n)
            && (n == RfcPrefixBytes(n) <==> n <= 1)
            && (n > 1 ==> n > RfcPrefixBytes(n))
  {
    var n := c.mem[c.buffer + 4] as nat;
    RibHeaderLayout(h, subType, c, le, n, 5 + n, 7 + n);
  }

  // ---------------------------------------------------------- Common header

  /**
   * The type code goes back to parseMsg through a signed `char`: codes below
   * 128 survive, and types 256 apart are indistinguishable (type 268 is
   * decoded as a TABLE_DUMP record).
   */
  lemma TypeCodeNarrowing(v: nat)
    ensures CharOf(v) == v <==> v < 128
    ensures CharOf(v + 256) == CharOf(v)
    ensures CharOf(256 + TABLE_DUMP) == TABLE_DUMP
  {
  }

  /**
   * Every case label of parseMsg lies in 0..127, and against such a label
   * the signed `char` matches exactly the codes an unsigned `char` would:
   * those congruent to it modulo 256.
   */
  lemma LabelMatchIgnoresCharSignedness(v: nat, caseValue: int)
    requires 0 <= caseValue < 128
    ensures CharOf(v) == caseValue <==> v % 256 == caseValue
  {
  }

  /** A header whose type field says 268 dispatches as a TABLE_DUMP record. */
  lemma Type268ReadsAsTableDump(s: ParserState, c: Cursor, le: bool)
    requires s.Valid() && c.Valid() && c.bufLen >= 12 && HostValue(At(c, 4, 2), le) == 256 + TABLE_DUMP
    ensures HeaderSpec(s, c, le).status == Ok && HeaderSpec(s, c, le).mrtType == TABLE_DUMP
  {
    HeaderLayout(s, c, le);
    TypeCodeNarrowing(TABLE_DUMP);
  }

  // ----------------------------------------------------------------- BGP4MP

  /**
   * RFC 6396 section 4.4.2: a message record's addresses are as long as its
   * own address family says. The decoder only looks at
   * `bgp4mp_msg_as4.address_family`: a BGP4MP_MESSAGE record of family IPv6
   * is read with 4-byte addresses while that struct says IPv4.
   */
  lemma OwnAddressFamilyIgnored(rec: Bgp4mpRecord, msgAs4: Bgp4mpRecord, mrtDataLen: int, c: Cursor, le: bool)
    requires c.Valid() && 8 <= c.bufLen && IpAddrLen(msgAs4, le) == 4
    requires 16 <= mrtDataLen <= c.bufLen
    ensures var o := Bgp4mpRecordSpec(rec, Variant(Msg, false, false), msgAs4, mrtDataLen, c, le);
            o.status == Ok && o.next == Skip(c, mrtDataLen)
            && o.rec.peerIp == Overwrite(rec.peerIp, At(c, 8, 4))
            && o.rec.localIp == Overwrite(rec.localIp, At(c, 12, 4))
  {
    MessageRecordLayout(rec, Variant(Msg, false, false), msgAs4, mrtDataLen, c, le, 4, 8, 12, 16, mrtDataLen - 16);
  }
}
