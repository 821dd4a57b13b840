/**
 * The RIB_IPV4_UNICAST / RIB_IPV6_UNICAST decoder against an encoder of the
 * byte layout it reads: the fixed part takes `prefix_length` BYTES of prefix,
 * and the entry loop runs `peer_count` times (the count of the last Peer
 * Index Table), each entry being 2 + 4 + 2 bytes followed by its attributes.
 */
module RibProperties {
  import opened Wire
  import opened Records
  import opened Decode
  import opened Properties

  /** One RIB entry on the wire: peer index, time, attribute length in host order, attributes. */
  datatype WireRibEntry = WireRibEntry(peerIndex: seq<byte>, originatedTime: seq<byte>,
                                       attributeLen: seq<byte>, attribute: seq<byte>)
  {
    predicate WellFormed(le: bool)
    {
      |peerIndex| == 2 && |originatedTime| == 4 && |attributeLen| == 2 && HostValue(attributeLen, le) == |attribute|
    }

    function Encoding(): (e: seq<byte>)
      ensures |e| == |peerIndex| + |originatedTime| + |attributeLen| + |attribute|
    {
      peerIndex + originatedTime + attributeLen + attribute
    }

    function Decoded(): RibEntry
    {
      RibEntry(peerIndex, originatedTime, attributeLen, attribute)
    }
  }

  predicate AllWellFormed(rs: seq<WireRibEntry>, le: bool)
  {
    forall i :: 0 <= i < |rs| ==> rs[i].WellFormed(le)
  }

  function EncodeRibEntries(rs: seq<WireRibEntry>): seq<byte>
  {
    if rs == [] then [] else EncodeRibEntries(rs[..|rs| - 1]) + rs[|rs| - 1].Encoding()
  }

  function DecodedRibEntries(rs: seq<WireRibEntry>): (r: seq<RibEntry>)
    ensures |r| == |rs|
  {
    if rs == [] then [] else DecodedRibEntries(rs[..|rs| - 1]) + [rs[|rs| - 1].Decoded()]
  }

  /** One entry: 8 fixed bytes, then as many attribute bytes as its length field says. */
  lemma RibEntryLayout(c: Cursor, le: bool)
    requires c.Valid() && c.bufLen >= 8 && c.bufLen >= 8 + HostValue(At(c, 6, 2), le)
    ensures var n := HostValue(At(c, 6, 2), le);
            RibEntryStep(c, le) == RibStep(Ok, RibEntry(At(c, 0, 2), At(c, 2, 4), At(c, 6, 2), At(c, 8, n)), Skip(c, 8 + n))
  {
    TakeCopies(c, 2, FRESH_RIB_ENTRY.peerIndex);
    TakeCopies(Skip(c, 2), 4, FRESH_RIB_ENTRY.originatedTime);
    TakeCopies(Skip(c, 6), 2, FRESH_RIB_ENTRY.attributeLen);
  }

  /** An encoded entry decodes to itself. */
  lemma RibEntryRoundTrip(c: Cursor, le: bool, r: WireRibEntry)
    requires c.Valid() && r.WellFormed(le)
    requires |r.Encoding()| <= c.bufLen && At(c, 0, |r.Encoding()|) == r.Encoding()
    ensures RibEntryStep(c, le) == RibStep(Ok, r.Decoded(), Skip(c, |r.Encoding()|))
  {
    SplitAt(c, 0, r.peerIndex + r.originatedTime + r.attributeLen, r.attribute);
    SplitAt(c, 0, r.peerIndex + r.originatedTime, r.attributeLen);
    SplitAt(c, 0, r.peerIndex, r.originatedTime);
    RibEntryLayout(c, le);
  }

  /** An encoded entry `i` bytes in decodes to itself, and the next entry starts at `end`. */
  lemma RibEntryRoundTripAt(c: Cursor, i: nat, le: bool, r: WireRibEntry, end: nat)
    requires c.Valid() && r.WellFormed(le) && end == i + |r.Encoding()| && end <= c.bufLen
    requires At(c, i, |r.Encoding()|) == r.Encoding()
    ensures RibEntryStep(Skip(c, i), le) == RibStep(Ok, r.Decoded(), Skip(c, end))
  {
    AtSkip(c, i, 0, |r.Encoding()|);
    RibEntryRoundTrip(Skip(c, i), le, r);
    SkipSkip(c, i, |r.Encoding()|);
  }

  /** One more iteration that decodes `entry` appends it to what the loop had. */
  lemma RibLoopStepComposes(c: Cursor, vec: seq<RibEntry>, k: nat, le: bool, entries: seq<RibEntry>, next: Cursor,
                            entry: RibEntry, next2: Cursor)
    requires c.Valid() && RibEntriesSpec(c, vec, k, le) == RibLoop(Ok, entries, next)
    requires RibEntryStep(next, le) == RibStep(Ok, entry, next2)
    ensures RibEntriesSpec(c, vec, k + 1, le) == RibLoop(Ok, entries + [entry], next2)
  {
  }

  /** The round trip of the entry loop: `k` encoded entries are appended in order and the loop ends past them. */
  lemma {:induction false} RibEntriesRoundTrip(c: Cursor, vec: seq<RibEntry>, rs: seq<WireRibEntry>, le: bool)
    requires c.Valid() && AllWellFormed(rs, le)
    requires |EncodeRibEntries(rs)| <= c.bufLen && At(c, 0, |EncodeRibEntries(rs)|) == EncodeRibEntries(rs)
    ensures RibEntriesSpec(c, vec, |rs|, le) == RibLoop(Ok, vec + DecodedRibEntries(rs), Skip(c, |EncodeRibEntries(rs)|))
    decreases |rs|
  {
    if rs == [] {
      assert vec + [] == vec;
    } else {
      var init, r := rs[..|rs| - 1], rs[|rs| - 1];
      RibEntriesSplit(c, rs, le);
      RibEntriesRoundTrip(c, vec, init, le);
      RibEntriesStep(c, vec, init, r, le, |EncodeRibEntries(init)|, |EncodeRibEntries(rs)|);
      assert vec + DecodedRibEntries(rs) == vec + DecodedRibEntries(init) + [r.Decoded()];
    }
  }

  /** The encoding of all entries but the last, followed by the last one. */
  lemma RibEntriesSplit(c: Cursor, rs: seq<WireRibEntry>, le: bool)
    requires c.Valid() && rs != [] && AllWellFormed(rs, le)
    requires |EncodeRibEntries(rs)| <= c.bufLen && At(c, 0, |EncodeRibEntries(rs)|) == EncodeRibEntries(rs)
    ensures var init, r := rs[..|rs| - 1], rs[|rs| - 1];
            AllWellFormed(init, le) && r.WellFormed(le)
            && |EncodeRibEntries(rs)| == |EncodeRibEntries(init)| + |r.Encoding()|
            && At(c, 0, |EncodeRibEntries(init)|) == EncodeRibEntries(init)
            && At(c, |EncodeRibEntries(init)|, |r.Encoding()|) == r.Encoding()
            && DecodedRibEntries(rs) == DecodedRibEntries(init) + [r.Decoded()]
  {
    var init, r := rs[..|rs| - 1], rs[|rs| - 1];
    assert AllWellFormed(init, le) by {
      forall i | 0 <= i < |init| ensures init[i].WellFormed(le) {
        assert init[i] == rs[i];
      }
    }
    assert EncodeRibEntries(rs) == EncodeRibEntries(init) + r.Encoding();
    SplitAt(c, 0, EncodeRibEntries(init), r.Encoding());
  }

  /** The step of the round trip: entry `r`, encoded at `i`, is decoded after the entries before it. */
  lemma RibEntriesStep(c: Cursor, vec: seq<RibEntry>, init: seq<WireRibEntry>, r: WireRibEntry, le: bool, i: nat, end: nat)
    requires c.Valid() && r.WellFormed(le) && end == i + |r.Encoding()| && end <= c.bufLen
    requires At(c, i, |r.Encoding()|) == r.Encoding()
    requires RibEntriesSpec(c, vec, |init|, le) == RibLoop(Ok, vec + DecodedRibEntries(init), Skip(c, i))
    ensures RibEntriesSpec(c, vec, |init| + 1, le) == RibLoop(Ok, vec + DecodedRibEntries(init) + [r.Decoded()], Skip(c, end))
  {
    RibEntryRoundTripAt(c, i, le, r, end);
    RibLoopStepComposes(c, vec, |init|, le, vec + DecodedRibEntries(init), Skip(c, i), r.Decoded(), Skip(c, end));
  }

  /** A one-byte field read into a host integer is that byte, in either byte order. */
  lemma OneByteValue(b: seq<byte>, le: bool)
    requires |b| == 1
    ensures HostValue(b, le) == b[0] as nat
  {
    assert b[1..] == [] && b[..0] == [];
    if le {
      assert LittleEndian(b) == b[0] as nat + 256 * LittleEndian(b[1..]);
    } else {
      assert BigEndian(b) == BigEndian(b[..0]) * 256 + b[0] as nat;
    }
  }

  /** The two reads of the fixed part up to the prefix length, and what follows them. */
  lemma RibHeaderComposes(h: RibEntryHeader, subType: nat, c: Cursor, le: bool, sequenceNumber: seq<byte>, c1: Cursor,
                          prefixLength: seq<byte>, c2: Cursor)
    requires c.Valid() && c1.Valid() && c2.Valid()
    requires Take(c, 4, h.sequenceNumber) == Took(sequenceNumber, c1)
    requires Take(c1, 1, h.prefixLength) == Took(prefixLength, c2)
    ensures RibHeaderSpec(h, subType, c, le)
            == RibPrefixSpec(h.(sequenceNumber := sequenceNumber, prefixLength := prefixLength), subType,
                             HostValue(prefixLength, le), c2)
  {
  }

  /** The prefix read and the entry count read, when both succeed. */
  lemma RibPrefixComposes(h: RibEntryHeader, subType: nat, n: nat, c: Cursor, prefix: seq<byte>, c1: Cursor,
                          entryCount: seq<byte>, c2: Cursor)
    requires c.Valid() && c1.Valid()
    requires Take(c, n, Zeros(n)) == Took(prefix, c1)
    requires Take(c1, 2, h.entryCount) == Took(entryCount, c2)
    ensures RibPrefixSpec(h, subType, n, c)
            == RibOutcome(Ok, h.(prefix := RibPrefixText(subType, prefix, h.prefix), entryCount := entryCount), c2)
  {
  }

  /** `i` bytes in, after the prefix length `n`: `n` prefix bytes, then (at `e`) the 2-byte entry count. */
  lemma RibPrefixLayout(h: RibEntryHeader, subType: nat, n: nat, c: Cursor, i: nat, e: nat, end: nat)
    requires c.Valid() && |h.entryCount| == 2 && e == i + n && end == e + 2 && end <= c.bufLen
    ensures RibPrefixSpec(h, subType, n, Skip(c, i))
            == RibOutcome(Ok, h.(prefix := RibPrefixText(subType, At(c, i, n), h.prefix), entryCount := At(c, e, 2)),
                          Skip(c, end))
  {
    TakeAt(c, i, n, Zeros(n));
    TakeAt(c, e, 2, h.entryCount);
    assert Overwrite(Zeros(n), At(c, i, n)) == At(c, i, n);
    assert Overwrite(h.entryCount, At(c, e, 2)) == At(c, e, 2);
    RibPrefixComposes(h, subType, n, Skip(c, i), At(c, i, n), Skip(c, e), At(c, e, 2), Skip(c, end));
  }

  /**
   * The fixed part of an RIB record: sequence number (4), prefix length (1),
   * then as many prefix BYTES as the prefix length `n`, then (at `e`) the
   * entry count (2); it ends at `end`. The prefix text is `inet_ntop` of the
   * family the sub-type names.
   */
  lemma RibHeaderLayout(h: RibEntryHeader, subType: nat, c: Cursor, le: bool, n: nat, e: nat, end: nat)
    requires c.Valid() && |h.sequenceNumber| == 4 && |h.prefixLength| == 1 && |h.entryCount| == 2
    requires c.bufLen >= 5 && n == c.mem[c.buffer + 4] as nat && e == 5 + n && end == e + 2 && end <= c.bufLen
    ensures RibHeaderSpec(h, subType, c, le)
            == RibOutcome(Ok, h.(sequenceNumber := At(c, 0, 4), prefixLength := At(c, 4, 1),
                                 prefix := RibPrefixText(subType, At(c, 5, n), h.prefix),
                                 entryCount := At(c, e, 2)), Skip(c, end))
  {
    TakeReads(c, 4, h.sequenceNumber);
    TakeAt(c, 4, 1, h.prefixLength);
    assert Overwrite(h.sequenceNumber, At(c, 0, 4)) == At(c, 0, 4);
    assert Overwrite(h.prefixLength, At(c, 4, 1)) == At(c, 4, 1);
    assert At(c, 4, 1)[0] == c.mem[c.buffer + 4];
    OneByteValue(At(c, 4, 1), le);
    RibHeaderComposes(h, subType, c, le, At(c, 0, 4), Skip(c, 4), At(c, 4, 1), Skip(c, 5));
    RibPrefixLayout(h.(sequenceNumber := At(c, 0, 4), prefixLength := At(c, 4, 1)), subType, n, c, 5, e, end);
  }

  /**
   * A whole unicast RIB record: `peerCount` (the last Peer Index Table's
   * count) encoded entries after the fixed part (which ends at `m`) are
   * appended in order, whatever the record's own entry count field (at
   * `e`) says, and the record ends just past them, at `end`.
   */
  lemma RibUnicastLayout(h: RibEntryHeader, subType: nat, peerCount: nat, c: Cursor, le: bool,
                         rs: seq<WireRibEntry>, n: nat, e: nat, m: nat, end: nat)
    requires c.Valid() && |h.sequenceNumber| == 4 && |h.prefixLength| == 1 && |h.entryCount| == 2
    requires c.bufLen >= 5 && n == c.mem[c.buffer + 4] as nat && e == 5 + n && m == e + 2
    requires AllWellFormed(rs, le) && |rs| == peerCount
    requires end == m + |EncodeRibEntries(rs)| && end <= c.bufLen
    requires At(c, m, |EncodeRibEntries(rs)|) == EncodeRibEntries(rs)
    ensures RibUnicastSpec(h, subType, peerCount, c, le)
            == RibOutcome(Ok, h.(sequenceNumber := At(c, 0, 4), prefixLength := At(c, 4, 1),
                                 prefix := RibPrefixText(subType, At(c, 5, n), h.prefix),
                                 entryCount := At(c, e, 2), ribEntries := h.ribEntries + DecodedRibEntries(rs)),
                          Skip(c, end))
  {
    var k := |EncodeRibEntries(rs)|;
    RibHeaderLayout(h, subType, c, le, n, e, m);
    assert RibEntriesSpec(Skip(c, m), h.ribEntries, peerCount, le)
        == RibLoop(Ok, h.ribEntries + DecodedRibEntries(rs), Skip(Skip(c, m), k)) by {
      AtSkip(c, m, 0, k);
      RibEntriesRoundTrip(Skip(c, m), h.ribEntries, rs, le);
    }
    RibUnicastComposes(h, subType, peerCount, c, le, m, k, h.ribEntries + DecodedRibEntries(rs));
  }

  /** A fixed part of `m` bytes followed by a loop over `n` bytes is a record of `m + n` bytes. */
  lemma RibUnicastComposes(h: RibEntryHeader, subType: nat, peerCount: nat, c: Cursor, le: bool,
                           m: nat, n: nat, entries: seq<RibEntry>)
    requires c.Valid() && m + n <= c.bufLen
    requires RibHeaderSpec(h, subType, c, le).status == Ok && RibHeaderSpec(h, subType, c, le).next == Skip(c, m)
    requires RibEntriesSpec(Skip(c, m), h.ribEntries, peerCount, le) == RibLoop(Ok, entries, Skip(Skip(c, m), n))
    ensures var o := RibUnicastSpec(h, subType, peerCount, c, le);
            o == RibOutcome(Ok, RibHeaderSpec(h, subType, c, le).header.(ribEntries := entries), Skip(c, m + n))
  {
    SkipSkip(c, m, n);
  }

  /**
   * Whenever a unicast RIB record decodes, exactly `peerCount` entries have
   * been appended after those already in the vector.
   */
  lemma RibUnicastAppendsPeerCount(h: RibEntryHeader, subType: nat, peerCount: nat, c: Cursor, le: bool)
    requires c.Valid()
    ensures var o := RibUnicastSpec(h, subType, peerCount, c, le);
            |h.ribEntries| <= |o.header.ribEntries| && o.header.ribEntries[..|h.ribEntries|] == h.ribEntries
            && (o.status.Ok? ==> |o.header.ribEntries| == |h.ribEntries| + peerCount)
  {
  }
}
