/**
 * The BGP4MP decoder: which struct each sub-type fills, the byte layout
 * of a message record and of a state-change record, the failure of every
 * message record whose `mrt_data_len` is too small for its fixed fields,
 * and what is handed to the external BGP decoder.
 */
module Bgp4mpProperties {
  import opened Wire
  import opened Records
  import opened Decode
  import opened Properties

  /**
   * The switch of parseBGP4MP accepts exactly sub-types 0, 1, 4, 5, 6 and
   * 7; the AS4 layouts are 4, 5 and 7, the state changes 0 and 5, and both
   * state changes share one struct.
   */
  lemma Bgp4mpVariantDomain(st: nat)
    ensures Bgp4mpVariant(st).Some? <==> st in {0, 1, 4, 5, 6, 7}
    ensures Bgp4mpVariant(st).Some? ==>
              (Bgp4mpVariant(st).value.isAs4 <==> st in {4, 5, 7})
              && (Bgp4mpVariant(st).value.isStateChange <==> st in {0, 5})
              && (Bgp4mpVariant(st).value.slot == StateChangeAs4 <==> st in {0, 5})
  {
  }

  /** The AS fields, then the rest of the record with the address length they leave in force. */
  lemma RecordComposes(rec: Bgp4mpRecord, v: Variant, msgAs4: Bgp4mpRecord, mrtDataLen: int, c: Cursor, le: bool,
                       asnFields: seq<byte>, c1: Cursor, ipLen: nat, bgpMsgLen: int)
    requires c.Valid() && c1.Valid() && Take(c, AsnLen(v.isAs4), rec.asnFields) == Took(asnFields, c1)
    requires ipLen == IpAddrLen(if v.slot == MsgAs4 then rec.(asnFields := asnFields) else msgAs4, le)
    requires bgpMsgLen == mrtDataLen - AsnLen(v.isAs4) - 2 * ipLen
    ensures Bgp4mpRecordSpec(rec, v, msgAs4, mrtDataLen, c, le)
            == Bgp4mpTailSpec(rec.(asnFields := asnFields), v.isStateChange, bgpMsgLen, ipLen, c1)
  {
  }

  /** Three reads that succeed make a message tail of their three fields. */
  lemma MessageTailComposes(rec: Bgp4mpRecord, bgpMsgLen: int, ipLen: nat, c: Cursor, c1: Cursor, c2: Cursor, c3: Cursor,
                            peerIp: seq<byte>, localIp: seq<byte>, bgpMessage: seq<byte>)
    requires c.Valid() && c1.Valid() && c2.Valid() && 0 <= bgpMsgLen
    requires Take(c, ipLen, rec.peerIp) == Took(peerIp, c1)
    requires Take(c1, ipLen, rec.localIp) == Took(localIp, c2)
    requires Take(c2, bgpMsgLen, rec.bgpMessage) == Took(bgpMessage, c3)
    ensures Bgp4mpTailSpec(rec, false, bgpMsgLen, ipLen, c)
            == RecordStep(Ok, rec.(peerIp := peerIp, localIp := localIp, bgpMessage := bgpMessage), c3)
  {
  }

  /** Four reads that succeed make a state-change tail of their four fields. */
  lemma StateTailComposes(rec: Bgp4mpRecord, bgpMsgLen: int, ipLen: nat, c: Cursor, c1: Cursor, c2: Cursor, c3: Cursor,
                          c4: Cursor, peerIp: seq<byte>, localIp: seq<byte>, oldState: seq<byte>, newState: seq<byte>)
    requires c.Valid() && c1.Valid() && c2.Valid() && c3.Valid()
    requires Take(c, ipLen, rec.peerIp) == Took(peerIp, c1)
    requires Take(c1, ipLen, rec.localIp) == Took(localIp, c2)
    requires Take(c2, 2, rec.oldState) == Took(oldState, c3)
    requires Take(c3, 2, rec.newState) == Took(newState, c4)
    ensures Bgp4mpTailSpec(rec, true, bgpMsgLen, ipLen, c)
            == RecordStep(Ok, rec.(peerIp := peerIp, localIp := localIp, oldState := oldState, newState := newState), c4)
  {
  }

  /** Both addresses read, a negative message length: `memcpy` would be handed it. */
  lemma NegativeTailComposes(rec: Bgp4mpRecord, bgpMsgLen: int, ipLen: nat, c: Cursor, c1: Cursor, c2: Cursor,
                             peerIp: seq<byte>, localIp: seq<byte>)
    requires c.Valid() && c1.Valid() && bgpMsgLen < 0
    requires Take(c, ipLen, rec.peerIp) == Took(peerIp, c1)
    requires Take(c1, ipLen, rec.localIp) == Took(localIp, c2)
    ensures Bgp4mpTailSpec(rec, false, bgpMsgLen, ipLen, c).status == Fail(NegativeCopyLength)
  {
  }

  /**
   * After the AS fields, `i` bytes in: two addresses of `ipLen` bytes and
   * `bgpMsgLen` message bytes; the record ends `2 * ipLen + bgpMsgLen`
   * bytes further on.
   */
  lemma MessageTailLayout(rec: Bgp4mpRecord, bgpMsgLen: int, ipLen: nat, c: Cursor, i: nat, j: nat, k: nat, end: nat)
    requires c.Valid() && 0 <= bgpMsgLen && j == i + ipLen && k == j + ipLen && end == k + bgpMsgLen && end <= c.bufLen
    ensures Bgp4mpTailSpec(rec, false, bgpMsgLen, ipLen, Skip(c, i))
            == RecordStep(Ok, rec.(peerIp := Overwrite(rec.peerIp, At(c, i, ipLen)),
                                   localIp := Overwrite(rec.localIp, At(c, j, ipLen)),
                                   bgpMessage := Overwrite(rec.bgpMessage, At(c, k, bgpMsgLen))),
                          Skip(c, end))
  {
    TakeAt(c, i, ipLen, rec.peerIp);
    TakeAt(c, j, ipLen, rec.localIp);
    TakeAt(c, k, bgpMsgLen, rec.bgpMessage);
    MessageTailComposes(rec, bgpMsgLen, ipLen, Skip(c, i), Skip(c, j), Skip(c, k), Skip(c, end),
                        Overwrite(rec.peerIp, At(c, i, ipLen)), Overwrite(rec.localIp, At(c, j, ipLen)),
                        Overwrite(rec.bgpMessage, At(c, k, bgpMsgLen)));
  }

  /**
   * After the AS fields, `i` bytes in: two addresses of `ipLen` bytes (the
   * local one at `h`) and the two 2-byte states (at `j` and `k`).
   */
  lemma StateTailLayout(rec: Bgp4mpRecord, bgpMsgLen: int, ipLen: nat, c: Cursor, i: nat, h: nat, j: nat, k: nat, end: nat)
    requires c.Valid() && |rec.oldState| == 2 && |rec.newState| == 2
    requires h == i + ipLen && j == h + ipLen && k == j + 2 && end == k + 2 && end <= c.bufLen
    ensures Bgp4mpTailSpec(rec, true, bgpMsgLen, ipLen, Skip(c, i))
            == RecordStep(Ok, rec.(peerIp := Overwrite(rec.peerIp, At(c, i, ipLen)),
                                   localIp := Overwrite(rec.localIp, At(c, h, ipLen)),
                                   oldState := At(c, j, 2), newState := At(c, k, 2)),
                          Skip(c, end))
  {
    TakeAt(c, i, ipLen, rec.peerIp);
    TakeAt(c, h, ipLen, rec.localIp);
    TakeAt(c, j, 2, rec.oldState);
    TakeAt(c, k, 2, rec.newState);
    assert Overwrite(rec.oldState, At(c, j, 2)) == At(c, j, 2);
    assert Overwrite(rec.newState, At(c, k, 2)) == At(c, k, 2);
    StateTailComposes(rec, bgpMsgLen, ipLen, Skip(c, i), Skip(c, h), Skip(c, j), Skip(c, k), Skip(c, end),
                      Overwrite(rec.peerIp, At(c, i, ipLen)), Overwrite(rec.localIp, At(c, h, ipLen)),
                      At(c, j, 2), At(c, k, 2));
  }

  /**
   * A message record (sub-types 1, 4, 6, 7) whose `mrt_data_len` covers its
   * fixed fields and lies in the buffer consumes exactly `mrt_data_len`
   * bytes: `asn_len` (`a`) AS bytes, the peer address, the local address
   * at `l`, and from `m` on the remaining `b` bytes as BGP message. `ipLen` is 16 exactly
   * when the `address_family` of `bgp4mp_msg_as4` says IPv6 (for sub-type 4
   * that struct has just been read).
   */
  lemma MessageRecordLayout(rec: Bgp4mpRecord, v: Variant, msgAs4: Bgp4mpRecord, mrtDataLen: int, c: Cursor,
                            le: bool, ipLen: nat, a: nat, l: nat, m: nat, b: nat)
    requires c.Valid() && !v.isStateChange && a == AsnLen(v.isAs4) && l == a + ipLen && m == l + ipLen
    requires mrtDataLen == m + b && mrtDataLen <= c.bufLen
    requires ipLen == IpAddrLen(if v.slot == MsgAs4 then rec.(asnFields := Overwrite(rec.asnFields, At(c, 0, a)))
                                else msgAs4, le)
    ensures Bgp4mpRecordSpec(rec, v, msgAs4, mrtDataLen, c, le)
            == RecordStep(Ok, rec.(asnFields := Overwrite(rec.asnFields, At(c, 0, a)),
                                   peerIp := Overwrite(rec.peerIp, At(c, a, ipLen)),
                                   localIp := Overwrite(rec.localIp, At(c, l, ipLen)),
                                   bgpMessage := Overwrite(rec.bgpMessage, At(c, m, b))),
                          Skip(c, mrtDataLen))
  {
    var asnFields := Overwrite(rec.asnFields, At(c, 0, a));
    TakeReads(c, a, rec.asnFields);
    assert Skip(c, a).Valid();
    RecordComposes(rec, v, msgAs4, mrtDataLen, c, le, asnFields, Skip(c, a), ipLen, b);
    MessageTailLayout(rec.(asnFields := asnFields), b, ipLen, c, a, l, m, mrtDataLen);
  }

  /**
   * A state-change record (sub-types 0 and 5) consumes `asn_len` (`a`) AS
   * bytes, both addresses (the local one at `l`) and the two 2-byte states
   * (at `o` and `n`), whatever `mrt_data_len` says.
   */
  lemma StateChangeRecordLayout(rec: Bgp4mpRecord, v: Variant, msgAs4: Bgp4mpRecord, mrtDataLen: int, c: Cursor,
                                le: bool, ipLen: nat, a: nat, l: nat, o: nat, n: nat, end: nat)
    requires c.Valid() && v.isStateChange && v.slot != MsgAs4 && ipLen == IpAddrLen(msgAs4, le)
    requires |rec.oldState| == 2 && |rec.newState| == 2
    requires a == AsnLen(v.isAs4) && l == a + ipLen && o == l + ipLen && n == o + 2 && end == n + 2 && end <= c.bufLen
    ensures Bgp4mpRecordSpec(rec, v, msgAs4, mrtDataLen, c, le)
            == RecordStep(Ok, rec.(asnFields := Overwrite(rec.asnFields, At(c, 0, a)),
                                   peerIp := Overwrite(rec.peerIp, At(c, a, ipLen)),
                                   localIp := Overwrite(rec.localIp, At(c, l, ipLen)),
                                   oldState := At(c, o, 2), newState := At(c, n, 2)),
                          Skip(c, end))
  {
    var asnFields := Overwrite(rec.asnFields, At(c, 0, a));
    TakeReads(c, a, rec.asnFields);
    RecordComposes(rec, v, msgAs4, mrtDataLen, c, le, asnFields, Skip(c, a), ipLen, mrtDataLen - a - 2 * ipLen);
    StateTailLayout(rec.(asnFields := asnFields), mrtDataLen - a - 2 * ipLen, ipLen, c, a, l, o, n, end);
  }

  /**
   * A message record whose `mrt_data_len` is smaller than its fixed fields
   * gives `memcpy` a negative length once the fixed fields have been read.
   */
  lemma NegativeMessageLengthThrows(rec: Bgp4mpRecord, v: Variant, msgAs4: Bgp4mpRecord, mrtDataLen: int, c: Cursor,
                                    le: bool, ipLen: nat)
    requires c.Valid() && !v.isStateChange && AsnLen(v.isAs4) <= c.bufLen
    requires ipLen == IpAddrLen(if v.slot == MsgAs4 then rec.(asnFields := Overwrite(rec.asnFields, At(c, 0, AsnLen(v.isAs4))))
                                else msgAs4, le)
    requires AsnLen(v.isAs4) + 2 * ipLen <= c.bufLen && mrtDataLen < AsnLen(v.isAs4) + 2 * ipLen
    ensures Bgp4mpRecordSpec(rec, v, msgAs4, mrtDataLen, c, le).status == Fail(NegativeCopyLength)
  {
    var a := AsnLen(v.isAs4);
    var asnFields := Overwrite(rec.asnFields, At(c, 0, a));
    var rec1 := rec.(asnFields := asnFields);
    TakeReads(c, a, rec.asnFields);
    RecordComposes(rec, v, msgAs4, mrtDataLen, c, le, asnFields, Skip(c, a), ipLen, mrtDataLen - a - 2 * ipLen);
    TakeAt(c, a, ipLen, rec1.peerIp);
    TakeAt(c, a + ipLen, ipLen, rec1.localIp);
    NegativeTailComposes(rec1, mrtDataLen - a - 2 * ipLen, ipLen, Skip(c, a), Skip(c, a + ipLen), Skip(c, a + 2 * ipLen),
                         Overwrite(rec1.peerIp, At(c, a, ipLen)), Overwrite(rec1.localIp, At(c, a + ipLen, ipLen)));
  }

  /**
   * BGP4MP bodies are never buffered, so `mrt_data_len` is what the last
   * TABLE_DUMP body left (0 on a fresh parser): with fewer than 16 bytes
   * there, every message sub-type fails once 44 bytes of the record have
   * been read, whatever the record holds.
   */
  lemma StaleLengthRejectsMessages(s: ParserState, c: Cursor, le: bool)
    requires s.Valid() && c.Valid() && c.bufLen >= 44 && s.mrtDataLen < 16
    requires HostValue(s.cHdr.subType, le) in {BGP4MP_MESSAGE, BGP4MP_MESSAGE_AS4, BGP4MP_MESSAGE_LOCAL, BGP4MP_MESSAGE_AS4_LOCAL}
    ensures Bgp4mpSpec(s, c, le) == Outcome(Fail(NegativeCopyLength), Bgp4mpSpec(s, c, le).state, c)
    ensures Bgp4mpSpec(s, c, le).state.handoffs == s.handoffs
  {
    var v := Bgp4mpVariant(HostValue(s.cHdr.subType, le)).value;
    var rec := s.bgp4mp.Get(v.slot);
    var a := AsnLen(v.isAs4);
    var ipLen := IpAddrLen(if v.slot == MsgAs4 then rec.(asnFields := Overwrite(rec.asnFields, At(c, 0, a)))
                           else s.bgp4mp.msgAs4, le);
    NegativeMessageLengthThrows(rec, v, s.bgp4mp.msgAs4, s.mrtDataLen, c, le, ipLen);
  }

  /** A sub-type outside the switch throws before anything is read. */
  lemma Bgp4mpUnknownSubtypeThrows(s: ParserState, c: Cursor, le: bool)
    requires s.Valid() && c.Valid() && HostValue(s.cHdr.subType, le) !in {0, 1, 4, 5, 6, 7}
    ensures Bgp4mpSpec(s, c, le) == Outcome(Fail(UnsupportedBgp4mpSubtype), s, c)
  {
    Bgp4mpVariantDomain(HostValue(s.cHdr.subType, le));
  }

  /**
   * One BGP4MP record changes only the struct its sub-type selects, and it
   * hands exactly one message to the BGP decoder when it is a message
   * sub-type that decoded, none otherwise. The bytes handed over are
   * `mrt_data[..mrt_data_len]`, left by the last buffered body and not the
   * message just read, and the message is local exactly for sub-types 6
   * and 7.
   */
  lemma Bgp4mpHandsOff(s: ParserState, c: Cursor, le: bool)
    requires s.Valid() && c.Valid()
    ensures var st := HostValue(s.cHdr.subType, le);
            var o := Bgp4mpSpec(s, c, le);
            Bgp4mpVariant(st).Some? ==>
              var v := Bgp4mpVariant(st).value;
              (forall other :: other != v.slot ==> o.state.bgp4mp.Get(other) == s.bgp4mp.Get(other))
              && (if o.status.Ok? && !v.isStateChange
                  then o.state.handoffs == s.handoffs + [BgpMessage(o.state.bgp4mp.Get(v.slot).peerIp,
                                                                    PeerAsNumber(o.state.bgp4mp.Get(v.slot), v.isAs4),
                                                                    AddressFamily(o.state.bgp4mp.Get(v.slot), v.isAs4, le) == AFI_IPV4,
                                                                    s.cHdr.timeStamp, s.cHdr.microsecondTimestamp,
                                                                    s.mrtData[..s.mrtDataLen], st == 6 || st == 7)]
                  else o.state.handoffs == s.handoffs)
  {
    var st := HostValue(s.cHdr.subType, le);
    if Bgp4mpVariant(st).Some? {
      Bgp4mpVariantDomain(st);
    }
  }
}
