/**
 * The Peer Index Table decoder against an encoder of the byte layout it
 * reads: each entry is a type byte, four address bytes and an AS number of
 * AsWidth(type) bytes, and decoding `peer_count` encoded entries appends
 * exactly those entries, in order.
 */
module PeerTableProperties {
  import opened Wire
  import opened Records
  import opened Decode
  import opened Properties

  /** One peer entry as the decoder lays it out on the wire. */
  datatype WirePeer = WirePeer(peerType: byte, addr: seq<byte>, asn: seq<byte>)
  {
    predicate WellFormed()
    {
      |addr| == 4 && |asn| == AsWidth(peerType)
    }

    function Encoding(): (e: seq<byte>)
      ensures |e| == 1 + |addr| + |asn|
    {
      [peerType] + addr + asn
    }

    /** The `peer_entry` the decoder builds: a 2-byte AS fills the first half of `peerAS32`. */
    function Decoded(): PeerEntry
      requires WellFormed()
    {
      PeerEntry([peerType], PeerAddressText(peerType, addr), asn + Zeros(4 - |asn|))
    }
  }

  predicate AllWellFormed(ps: seq<WirePeer>)
  {
    forall i :: 0 <= i < |ps| ==> ps[i].WellFormed()
  }

  function EncodePeers(ps: seq<WirePeer>): seq<byte>
  {
    if ps == [] then [] else EncodePeers(ps[..|ps| - 1]) + ps[|ps| - 1].Encoding()
  }

  function DecodedPeers(ps: seq<WirePeer>): (r: seq<PeerEntry>)
    requires AllWellFormed(ps)
    ensures |r| == |ps|
  {
    if ps == [] then [] else DecodedPeers(ps[..|ps| - 1]) + [ps[|ps| - 1].Decoded()]
  }

  /**
   * One entry: 1 + 4 + AsWidth(type) bytes, whatever address family the
   * type names; the 4 address bytes stay in the loop's local buffer.
   */
  lemma PeerEntryLayout(c: Cursor, localAddr: seq<byte>)
    requires c.Valid() && |localAddr| == 4 && c.bufLen >= 5 && c.bufLen >= 5 + AsWidth(c.mem[c.buffer])
    ensures var t := c.mem[c.buffer];
            var w := AsWidth(t);
            var o := PeerEntryStep(c, localAddr);
            o.status == Ok && o.next == Skip(c, 5 + w) && o.localAddr == At(c, 1, 4)
            && o.entry == PeerEntry([t], PeerAddressText(t, At(c, 1, 4)), At(c, 5, w) + Zeros(4 - w))
  {
    var t := c.mem[c.buffer];
    var w := AsWidth(t);
    TakeCopies(c, 1, FRESH_PEER_ENTRY.peerType);
    assert At(c, 0, 1) == [t];
    TakeCopies(Skip(c, 1), 4, localAddr);
    assert Take(Skip(c, 5), w, Zeros(4)) == Took(At(c, 5, w) + Zeros(4 - w), Skip(c, 5 + w)) by {
      assert Zeros(4)[w..] == Zeros(4 - w);
    }
  }

  /** An encoded entry decodes to itself, and the loop's local buffer keeps its address. */
  lemma PeerEntryRoundTrip(c: Cursor, localAddr: seq<byte>, p: WirePeer)
    requires c.Valid() && |localAddr| == 4 && p.WellFormed()
    requires |p.Encoding()| <= c.bufLen && At(c, 0, |p.Encoding()|) == p.Encoding()
    ensures PeerEntryStep(c, localAddr) == PeerStep(Ok, p.Decoded(), Skip(c, |p.Encoding()|), p.addr)
  {
    SplitAt(c, 0, [p.peerType] + p.addr, p.asn);
    SplitAt(c, 0, [p.peerType], p.addr);
    assert c.mem[c.buffer] == At(c, 0, 1)[0] == p.peerType;
    PeerEntryLayout(c, localAddr);
  }

  /** An encoded entry `i` bytes in decodes to itself, and the next entry starts at `end`. */
  lemma PeerEntryRoundTripAt(c: Cursor, i: nat, localAddr: seq<byte>, p: WirePeer, end: nat)
    requires c.Valid() && |localAddr| == 4 && p.WellFormed() && end == i + |p.Encoding()| && end <= c.bufLen
    requires At(c, i, |p.Encoding()|) == p.Encoding()
    ensures PeerEntryStep(Skip(c, i), localAddr) == PeerStep(Ok, p.Decoded(), Skip(c, end), p.addr)
  {
    AtSkip(c, i, 0, |p.Encoding()|);
    PeerEntryRoundTrip(Skip(c, i), localAddr, p);
    SkipSkip(c, i, |p.Encoding()|);
  }

  /** One more iteration that decodes `entry` appends it to what the loop had. */
  lemma PeerLoopStepComposes(c: Cursor, localAddr: seq<byte>, vec: seq<PeerEntry>, k: nat, entries: seq<PeerEntry>,
                             next: Cursor, addr: seq<byte>, entry: PeerEntry, next2: Cursor, addr2: seq<byte>)
    requires c.Valid() && |localAddr| == 4
    requires PeerEntriesSpec(c, localAddr, vec, k) == PeerLoop(Ok, entries, next, addr)
    requires PeerEntryStep(next, addr) == PeerStep(Ok, entry, next2, addr2)
    ensures PeerEntriesSpec(c, localAddr, vec, k + 1) == PeerLoop(Ok, entries + [entry], next2, addr2)
  {
  }

  /**
   * The round trip of the entry loop: `k` encoded entries decode to
   * themselves, appended in order after what the vector held, and the loop
   * ends just past their bytes.
   */
  lemma {:induction false} PeerEntriesRoundTrip(c: Cursor, localAddr: seq<byte>, vec: seq<PeerEntry>, ps: seq<WirePeer>)
    requires c.Valid() && |localAddr| == 4 && AllWellFormed(ps)
    requires |EncodePeers(ps)| <= c.bufLen && At(c, 0, |EncodePeers(ps)|) == EncodePeers(ps)
    ensures var o := PeerEntriesSpec(c, localAddr, vec, |ps|);
            o.status == Ok && o.entries == vec + DecodedPeers(ps) && o.next == Skip(c, |EncodePeers(ps)|)
            && o.localAddr == (if ps == [] then localAddr else ps[|ps| - 1].addr)
    decreases |ps|
  {
    if ps == [] {
      assert vec + [] == vec;
    } else {
      var init, p := ps[..|ps| - 1], ps[|ps| - 1];
      PeerEntriesSplit(c, ps);
      PeerEntriesRoundTrip(c, localAddr, vec, init);
      var addr := PeerEntriesSpec(c, localAddr, vec, |init|).localAddr;
      PeerEntriesStep(c, localAddr, vec, init, p, addr, |EncodePeers(init)|, |EncodePeers(ps)|);
      assert vec + DecodedPeers(ps) == vec + DecodedPeers(init) + [p.Decoded()];
    }
  }

  /** The encoding of all entries but the last, followed by the last one. */
  lemma PeerEntriesSplit(c: Cursor, ps: seq<WirePeer>)
    requires c.Valid() && ps != [] && AllWellFormed(ps)
    requires |EncodePeers(ps)| <= c.bufLen && At(c, 0, |EncodePeers(ps)|) == EncodePeers(ps)
    ensures var init, p := ps[..|ps| - 1], ps[|ps| - 1];
            AllWellFormed(init) && p.WellFormed()
            && |EncodePeers(ps)| == |EncodePeers(init)| + |p.Encoding()|
            && At(c, 0, |EncodePeers(init)|) == EncodePeers(init)
            && At(c, |EncodePeers(init)|, |p.Encoding()|) == p.Encoding()
            && DecodedPeers(ps) == DecodedPeers(init) + [p.Decoded()]
  {
    var init, p := ps[..|ps| - 1], ps[|ps| - 1];
    assert AllWellFormed(init) by {
      forall i | 0 <= i < |init| ensures init[i].WellFormed() {
        assert init[i] == ps[i];
      }
    }
    assert EncodePeers(ps) == EncodePeers(init) + p.Encoding();
    SplitAt(c, 0, EncodePeers(init), p.Encoding());
  }

  /** The step of the round trip: entry `p`, encoded at `i`, is decoded after the entries before it. */
  lemma PeerEntriesStep(c: Cursor, localAddr: seq<byte>, vec: seq<PeerEntry>, init: seq<WirePeer>, p: WirePeer,
                        addr: seq<byte>, i: nat, end: nat)
    requires c.Valid() && |localAddr| == 4 && |addr| == 4 && AllWellFormed(init) && p.WellFormed()
    requires end == i + |p.Encoding()| && end <= c.bufLen
    requires At(c, i, |p.Encoding()|) == p.Encoding()
    requires PeerEntriesSpec(c, localAddr, vec, |init|) == PeerLoop(Ok, vec + DecodedPeers(init), Skip(c, i), addr)
    ensures PeerEntriesSpec(c, localAddr, vec, |init| + 1)
            == PeerLoop(Ok, vec + DecodedPeers(init) + [p.Decoded()], Skip(c, end), p.addr)
  {
    PeerEntryRoundTripAt(c, i, addr, p, end);
    PeerLoopStepComposes(c, localAddr, vec, |init|, vec + DecodedPeers(init), Skip(c, i), addr,
                         p.Decoded(), Skip(c, end), p.addr);
  }

  /**
   * The fixed part of a Peer Index Table: collector BGP ID (4), view name
   * length (2) and peer count (2). The entry loop starts at byte 8 whatever
   * the view name length says, and the view name is never written (line 197
   * reads it only when its length is zero).
   */
  lemma PeerIndexTableHeader(t: PeerIndexTable, c: Cursor, le: bool)
    requires c.Valid() && |t.collectorBgpId| == 4 && |t.viewNameLength| == 2 && |t.peerCount| == 2
    requires c.bufLen >= 8
    ensures var loop := PeerEntriesSpec(Skip(c, 8), Zeros(4), t.peerEntries, HostValue(At(c, 6, 2), le));
            PeerIndexTableSpec(t, c, le)
              == PeerIndexTableOutcome(loop.status, t.(collectorBgpId := At(c, 0, 4), viewNameLength := At(c, 4, 2),
                                                       peerCount := At(c, 6, 2), peerEntries := loop.entries), loop.next)
  {
    TakeCopies(c, 4, t.collectorBgpId);
    TakeCopies(Skip(c, 4), 2, t.viewNameLength);
    TakeCopies(Skip(c, 6), 2, t.peerCount);
  }

  /** A whole Peer Index Table whose `peer_count` entries are encoded after the 8 fixed bytes: they are appended in order. */
  lemma PeerIndexTableLayout(t: PeerIndexTable, c: Cursor, le: bool, ps: seq<WirePeer>, end: nat)
    requires c.Valid() && |t.collectorBgpId| == 4 && |t.viewNameLength| == 2 && |t.peerCount| == 2
    requires AllWellFormed(ps) && c.bufLen >= 8 && HostValue(At(c, 6, 2), le) == |ps|
    requires end == 8 + |EncodePeers(ps)| && end <= c.bufLen && At(c, 8, |EncodePeers(ps)|) == EncodePeers(ps)
    ensures var o := PeerIndexTableSpec(t, c, le);
            o.status == Ok && o.next == Skip(c, end)
            && o.table == t.(collectorBgpId := At(c, 0, 4), viewNameLength := At(c, 4, 2), peerCount := At(c, 6, 2),
                             peerEntries := t.peerEntries + DecodedPeers(ps))
  {
    var k := |EncodePeers(ps)|;
    var c8 := Skip(c, 8);
    PeerIndexTableHeader(t, c, le);
    assert At(c8, 0, k) == EncodePeers(ps) && k <= c8.bufLen by {
      AtSkip(c, 8, 0, k);
    }
    PeerEntriesRoundTrip(c8, Zeros(4), t.peerEntries, ps);
    SkipSkip(c, 8, k);
  }

  /**
   * Every table adds at most `peer_count` entries to the vector, exactly
   * that many when it succeeds, and never removes one: the vector grows
   * across records.
   */
  lemma PeerIndexTableAppends(t: PeerIndexTable, c: Cursor, le: bool)
    requires c.Valid() && |t.collectorBgpId| == 4 && |t.viewNameLength| == 2 && |t.peerCount| == 2
    ensures var o := PeerIndexTableSpec(t, c, le);
            |t.peerEntries| <= |o.table.peerEntries| && o.table.peerEntries[..|t.peerEntries|] == t.peerEntries
            && (o.status.Ok? && c.bufLen >= 8 ==>
                  |o.table.peerEntries| == |t.peerEntries| + HostValue(At(c, 6, 2), le))
  {
    match Take(c, 4, t.collectorBgpId)
    case Short =>
    case Took(_, c1) =>
      match Take(c1, 2, t.viewNameLength)
      case Short =>
      case Took(_, c2) =>
        match Take(c2, 2, t.peerCount)
        case Short =>
        case Took(peerCount, c3) =>
          if c.bufLen >= 8 {
            TakeCopies(c, 4, t.collectorBgpId);
            TakeCopies(Skip(c, 4), 2, t.viewNameLength);
            TakeCopies(Skip(c, 6), 2, t.peerCount);
          }
  }
}
