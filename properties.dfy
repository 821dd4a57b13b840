/**
 * What the reference definitions of module Decode imply about the decoder:
 * how many bytes each record consumes and where each field comes from, the
 * error cases, the round trip of the peer entry loop, and the places where
 * the code departs from RFC 6396.
 */
module Properties {
  import opened Wire
  import opened Text
  import opened Records
  import opened Decode

  // ------------------------------------------------------------- one read

  /** memcpy into a field at least as long as the copy: the copied bytes, then the field's tail. */
  lemma OverwritePrefix(dst: seq<byte>, src: seq<byte>)
    requires |src| <= |dst|
    ensures Overwrite(dst, src)[..|src|] == src
    ensures Overwrite(dst, src)[|src|..] == dst[|src|..]
  {
  }

  /** A read of `n` bytes that are there copies them and advances by exactly `n`. */
  lemma TakeCopies(c: Cursor, n: nat, dst: seq<byte>)
    requires c.Valid() && n <= c.bufLen && n == |dst|
    ensures Take(c, n, dst) == Took(c.mem[c.buffer..c.buffer + n], Cursor(c.mem, c.buffer + n, c.bufLen - n))
  {
  }

  /**
   * extractFromBuffer on an exhausted buffer returns `outputLen` as if it had
   * succeeded: the caller's test passes, nothing is copied, nothing advances.
   */
  lemma TakeOnEmptyBufferSucceedsSilently(c: Cursor, n: nat, dst: seq<byte>)
    requires c.Valid() && c.bufLen == 0
    ensures Take(c, n, dst) == Took(dst, c)
  {
  }

  /** A read that finds some but not enough bytes throws. */
  lemma TakeShortThrows(c: Cursor, n: nat, dst: seq<byte>)
    requires c.Valid() && 0 < c.bufLen < n
    ensures Take(c, n, dst).Short?
  {
  }

  /** The link between the method and its reference: the return value decides success. */
  lemma ExtractResultDecidesSuccess(c: Cursor, n: nat, dst: seq<byte>)
    requires c.Valid()
    ensures Take(c, n, dst).Took? <==> (n <= c.bufLen || c.bufLen == 0)
  {
  }

  // ------------------------------------------------- positions in the buffer

  /** The `n` bytes found `i` bytes past the pointer. */
  function At(c: Cursor, i: nat, n: nat): seq<byte>
    requires c.Valid() && i + n <= c.bufLen
  {
    c.mem[c.buffer + i..c.buffer + i + n]
  }

  /** Bytes that spell `a + b` spell `a`, then `b`. */
  lemma SplitAt(c: Cursor, i: nat, a: seq<byte>, b: seq<byte>)
    requires c.Valid() && i + |a| + |b| <= c.bufLen && At(c, i, |a + b|) == a + b
    ensures At(c, i, |a|) == a && At(c, i + |a|, |b|) == b
  {
    assert (a + b)[..|a|] == a && (a + b)[|a|..] == b;
    assert At(c, i, |a|) == At(c, i, |a + b|)[..|a|];
    assert At(c, i + |a|, |b|) == At(c, i, |a + b|)[|a|..];
  }

  /** The cursor `n` bytes further on. */
  function Skip(c: Cursor, n: nat): Cursor
    requires n <= c.bufLen
  {
    Cursor(c.mem, c.buffer + n, c.bufLen - n)
  }

  /** Two skips are one. */
  lemma SkipSkip(c: Cursor, i: nat, j: nat)
    requires c.Valid() && i + j <= c.bufLen
    ensures Skip(Skip(c, i), j) == Skip(c, i + j)
  {
  }

  /** Reading past a skipped stretch is reading further on. */
  lemma AtSkip(c: Cursor, i: nat, j: nat, n: nat)
    requires c.Valid() && i + j + n <= c.bufLen
    ensures At(Skip(c, i), j, n) == At(c, i + j, n)
  {
  }

  /** A read of `n` bytes that are there overwrites the first `n` bytes of the field and advances by `n`. */
  lemma TakeReads(c: Cursor, n: nat, dst: seq<byte>)
    requires c.Valid() && n <= c.bufLen
    ensures Take(c, n, dst) == Took(Overwrite(dst, At(c, 0, n)), Skip(c, n))
  {
  }

  /**
   * A read of `n` bytes, `i` bytes past the pointer, that are there: the
   * first `n` bytes of the field are replaced by them and the pointer moves
   * past them.
   */
  lemma TakeAt(c: Cursor, i: nat, n: nat, dst: seq<byte>)
    requires c.Valid() && i + n <= c.bufLen
    ensures Take(Skip(c, i), n, dst) == Took(Overwrite(dst, At(c, i, n)), Skip(c, i + n))
  {
    AtSkip(c, i, 0, n);
    SkipSkip(c, i, n);
  }

  // --------------------------------------------------------------- header

  /**
   * With 12 bytes available (16 for the `_ET` types) the common header is
   * read field for field from the first 12, the type is returned through a
   * `char`, and exactly 16 bytes are consumed for the `_ET` types and 12
   * otherwise, the microseconds then being zero.
   */
  lemma HeaderLayout(s: ParserState, c: Cursor, le: bool)
    requires s.Valid() && c.Valid() && c.bufLen >= 12
    requires IsExtendedType(HostValue(At(c, 4, 2), le)) ==> c.bufLen >= 16
    ensures var o := HeaderSpec(s, c, le);
            var t := HostValue(At(c, 4, 2), le);
            o.status == Ok && o.mrtType == CharOf(t)
            && o.state.cHdr.timeStamp == At(c, 0, 4) && o.state.cHdr.mrtType == At(c, 4, 2)
            && o.state.cHdr.subType == At(c, 6, 2) && o.state.cHdr.len == At(c, 8, 4)
            && o.next.buffer == c.buffer + (if IsExtendedType(t) then 16 else 12)
            && o.state.cHdr.microsecondTimestamp == (if IsExtendedType(t) then At(c, 12, 4) else Zeros(4))
  {
    var raw := c.mem[c.buffer..c.buffer + 12];
    TakeCopies(c, 12, s.cHdr.Raw());
    assert raw[0..4] == At(c, 0, 4) && raw[4..6] == At(c, 4, 2);
    assert raw[6..8] == At(c, 6, 2) && raw[8..12] == At(c, 8, 4) by {
      assert raw[6..8] == c.mem[c.buffer + 6..c.buffer + 8];
    }
    if IsExtendedType(HostValue(At(c, 4, 2), le)) {
      var c1 := Cursor(c.mem, c.buffer + 12, c.bufLen - 12);
      TakeCopies(c1, 4, s.cHdr.microsecondTimestamp);
    }
  }

  /**
   * `mrt_len` is the body length: the length field, less the 4 microsecond
   * bytes for the `_ET` types (RFC 6396 section 3), as long as the field is
   * below 2^31; a length field below 4 gives an `_ET` record a negative
   * `mrt_len`.
   */
  lemma HeaderBodyLength(s: ParserState, c: Cursor, le: bool)
    requires s.Valid() && c.Valid() && c.bufLen >= 12
    requires IsExtendedType(HostValue(At(c, 4, 2), le)) ==> c.bufLen >= 16
    requires HostValue(At(c, 8, 4), le) < TWO_TO_31
    ensures var len := HostValue(At(c, 8, 4), le);
            HeaderSpec(s, c, le).state.mrtLen
              == if IsExtendedType(HostValue(At(c, 4, 2), le)) then len - 4 else len
  {
    HeaderLayout(s, c, le);
  }

  /** Fewer than 12 bytes, but some: the header read throws and nothing advances. */
  lemma HeaderShortThrows(s: ParserState, c: Cursor, le: bool)
    requires s.Valid() && c.Valid() && 0 < c.bufLen < 12
    ensures HeaderSpec(s, c, le) == HeaderOutcome(Fail(Truncated(HeaderFields)), 0, s, c)
  {
  }

  /** When 12 to 15 bytes hold an `_ET` header, the microsecond read throws. */
  lemma HeaderMicrosecondsShortThrows(s: ParserState, c: Cursor, le: bool)
    requires s.Valid() && c.Valid() && 12 < c.bufLen < 16
    requires IsExtendedType(HostValue(At(c, 4, 2), le))
    ensures HeaderSpec(s, c, le).status == Fail(Truncated(MicrosecondTimestamp))
  {
    TakeCopies(c, 12, s.cHdr.Raw());
    var raw := c.mem[c.buffer..c.buffer + 12];
    assert raw[4..6] == At(c, 4, 2);
  }

  /**
   * An exhausted buffer is not an error for parseCommonHeader: the previous
   * header stays in `c_hdr` and its type is returned again.
   */
  lemma HeaderOnEmptyBufferRepeatsPreviousType(s: ParserState, c: Cursor, le: bool)
    requires s.Valid() && c.Valid() && c.bufLen == 0
    ensures var o := HeaderSpec(s, c, le);
            o.status == Ok && o.next == c && o.mrtType == CharOf(HostValue(s.cHdr.mrtType, le))
            && o.state.cHdr.Raw() == s.cHdr.Raw()
  {
    RawRoundTrip(s.cHdr);
  }

  /** Re-reading a header's own 12 bytes gives the header back. */
  lemma RawRoundTrip(h: CommonHeader)
    requires h.WellFormed()
    ensures h.WithRaw(h.Raw()) == h
  {
    var r := h.Raw();
    assert r[0..4] == h.timeStamp;
    assert r[4..6] == h.mrtType;
    assert r[6..8] == h.subType;
    assert r[8..12] == h.len;
  }

  // ---------------------------------------------------------- body buffer

  /** `mrt_len <= 0` (including a wrapped length field): nothing happens. */
  lemma BufferNothingWhenNoBody(s: ParserState, c: Cursor)
    requires s.Valid() && c.Valid() && s.mrtLen <= 0
    ensures BufferSpec(s, c) == Outcome(Ok, s, c)
  {
  }

  /** A body larger than `mrt_data` throws before anything is read. */
  lemma BufferTooLargeThrows(s: ParserState, c: Cursor)
    requires s.Valid() && c.Valid() && s.mrtLen > |s.mrtData|
    ensures BufferSpec(s, c) == Outcome(Fail(BodyTooLarge), s, c)
  {
  }

  /**
   * A body that fits and is there: its bytes are the prefix of `mrt_data`,
   * the rest of the buffer is untouched, `mrt_data_len` is the old `mrt_len`,
   * `mrt_len` is 0 and the cursor moves past the body.
   */
  lemma BufferCopiesBody(s: ParserState, c: Cursor)
    requires s.Valid() && c.Valid() && 0 < s.mrtLen <= |s.mrtData| && s.mrtLen <= c.bufLen
    ensures var o := BufferSpec(s, c);
            o.status == Ok && o.state.mrtDataLen == s.mrtLen && o.state.mrtLen == 0
            && o.state.mrtData[..s.mrtLen] == c.mem[c.buffer..c.buffer + s.mrtLen]
            && o.state.mrtData[s.mrtLen..] == s.mrtData[s.mrtLen..]
            && o.next == Cursor(c.mem, c.buffer + s.mrtLen, c.bufLen - s.mrtLen)
  {
    OverwritePrefix(s.mrtData, c.mem[c.buffer..c.buffer + s.mrtLen]);
  }

  /**
   * A truncated body throws, but `mrt_data_len` has already been set to the
   * extraction's return value, the number of missing bytes.
   */
  lemma BufferShortLeavesMissingCount(s: ParserState, c: Cursor)
    requires s.Valid() && c.Valid() && 0 < c.bufLen < s.mrtLen <= |s.mrtData|
    ensures var o := BufferSpec(s, c);
            o.status == Fail(Truncated(Body)) && o.state.mrtDataLen == s.mrtLen - c.bufLen && o.next == c
  {
  }

  /**
   * An exhausted buffer passes the extraction test: `mrt_data_len` becomes
   * `mrt_len` and `mrt_len` 0, but nothing is copied, so `mrt_data` still
   * holds the previous body and the decoder that follows reads those bytes.
   */
  lemma BufferOnEmptyBufferKeepsStaleBody(s: ParserState, c: Cursor)
    requires s.Valid() && c.Valid() && 0 < s.mrtLen <= |s.mrtData| && c.bufLen == 0
    ensures BufferSpec(s, c) == Outcome(Ok, s.(mrtDataLen := s.mrtLen, mrtLen := 0), c)
  {
  }

  // ------------------------------------------------------------- dispatch

  /** OSPF and IS-IS records: parseMsg does nothing after the header. */
  lemma SkippedTypesConsumeOnlyHeader(s: ParserState, c: Cursor, le: bool)
    requires s.Valid() && c.Valid()
    requires var h := HeaderSpec(s, c, le); h.status.Ok? && IsSkippedType(h.mrtType)
    ensures var h := HeaderSpec(s, c, le); MsgSpec(s, c, le) == Outcome(Ok, h.state, h.next)
  {
  }

  /** A type code outside the switch of parseMsg throws and changes nothing the header did not. */
  lemma UnknownTypeThrows(s: ParserState, code: int, c: Cursor, le: bool)
    requires s.Valid() && c.Valid()
    requires !IsSkippedType(code) && code !in {TABLE_DUMP, TABLE_DUMP_V2, BGP4MP, BGP4MP_ET}
    ensures DispatchSpec(s, code, c, le) == Outcome(Fail(UnexpectedType), s, c)
  {
  }

  /**
   * BGP4MP records are decoded from a copy of the caller's pointer and a
   * reference to its length: the pointer stays where the header ended.
   */
  lemma Bgp4mpLeavesCursorAfterHeader(s: ParserState, c: Cursor, le: bool)
    requires s.Valid() && c.Valid()
    requires var h := HeaderSpec(s, c, le); h.status.Ok? && h.mrtType in {BGP4MP, BGP4MP_ET}
    ensures var h := HeaderSpec(s, c, le);
            var g := Bgp4mpSpec(h.state, h.next, le);
            MsgSpec(s, c, le) == Outcome(g.status, g.state, h.next)
  {
  }

  /**
   * TABLE_DUMP and TABLE_DUMP_V2 records: the caller's cursor moves past the
   * buffered body whatever the body decoder reads, and `mrt_data_len` is
   * left holding the number of body bytes that decoder did not read.
   */
  lemma TableDumpBodiesAreBuffered(s: ParserState, c: Cursor, le: bool)
    requires s.Valid() && c.Valid()
    requires var h := HeaderSpec(s, c, le); h.status.Ok? && h.mrtType in {TABLE_DUMP, TABLE_DUMP_V2}
    requires var h := HeaderSpec(s, c, le); BufferSpec(h.state, h.next).status.Ok?
    ensures var h := HeaderSpec(s, c, le);
            var b := BufferSpec(h.state, h.next);
            var o := MsgSpec(s, c, le);
            o.next == b.next
            && o.state.mrtLen == b.state.mrtLen && o.state.mrtData == b.state.mrtData
            && 0 <= o.state.mrtDataLen <= b.state.mrtDataLen
  {
  }

  /** TABLE_DUMP_V2 sub-types outside the switch are ignored: nothing changes, nothing is read. */
  lemma TableDumpV2UnknownSubtypeIgnored(s: ParserState, c: Cursor, le: bool)
    requires s.Valid() && c.Valid()
    requires HostValue(s.cHdr.subType, le) !in {PEER_INDEX_TABLE, RIB_IPV4_UNICAST, RIB_IPV4_MULTICAST,
                                                RIB_IPV6_UNICAST, RIB_IPV6_MULTICAST, RIB_GENERIC}
    ensures TableDumpV2Spec(s, c, le) == Outcome(Ok, s, c)
  {
  }

  /** Multicast and generic RIB records hand the whole remaining body to parseRIB_GENERIC. */
  lemma TableDumpV2GenericHandsOffBody(s: ParserState, c: Cursor, le: bool)
    requires s.Valid() && c.Valid()
    requires HostValue(s.cHdr.subType, le) in {RIB_IPV4_MULTICAST, RIB_IPV6_MULTICAST, RIB_GENERIC}
    ensures var o := TableDumpV2Spec(s, c, le);
            o.status == Ok && o.next == c
            && o.state == s.(handoffs := s.handoffs + [RibGeneric(HostValue(s.cHdr.subType, le), c.Remaining())])
  {
  }

  // ------------------------------------------------------- legacy TABLE_DUMP

  /** The 26 bytes after the prefix: prefix length, status, time, peer address, peer AS, attribute length. */
  lemma TableDumpEntryLayout(td: TableDump, subType: nat, localAddr: seq<byte>, c: Cursor)
    requires c.Valid() && |localAddr| == 16 && td.WellFormed() && c.bufLen >= 26
    requires subType == AFI_IPV4 || subType == AFI_IPV6
    ensures var o := TableDumpFromPrefixLen(td, subType, localAddr, c);
            o.status == Ok && o.next == Skip(c, 26)
            && o.tableDump == td.(prefixLen := At(c, 0, 1), status := At(c, 1, 1), originatedTime := At(c, 2, 4),
                                  peerIp := LegacyAddress(subType, At(c, 6, 16)), peerAs := At(c, 22, 2),
                                  attributeLen := At(c, 24, 2))
  {
    TakeCopies(c, 1, td.prefixLen);
    TakeCopies(Skip(c, 1), 1, td.status);
    TakeCopies(Skip(c, 2), 4, td.originatedTime);
    TakeCopies(Skip(c, 6), 16, localAddr);
    TakeCopies(Skip(c, 22), 2, td.peerAs);
    TakeCopies(Skip(c, 24), 2, td.attributeLen);
  }

  /**
   * With 46 bytes available and an address-family sub-type, a TABLE_DUMP
   * body is read in RFC 6396 section 4.2 order and exactly 46 bytes are
   * consumed; both addresses are 16-byte fields.
   */
  lemma TableDumpLayout(td: TableDump, subType: nat, c: Cursor)
    requires c.Valid() && td.WellFormed() && c.bufLen >= 46
    requires subType == AFI_IPV4 || subType == AFI_IPV6
    ensures var o := TableDumpSpec(td, subType, c);
            o.status == Ok && o.next == Skip(c, 46)
            && o.tableDump == td.(viewNumber := At(c, 0, 2), sequence := At(c, 2, 2),
                                  prefix := LegacyAddress(subType, At(c, 4, 16)),
                                  prefixLen := At(c, 20, 1), status := At(c, 21, 1), originatedTime := At(c, 22, 4),
                                  peerIp := LegacyAddress(subType, At(c, 26, 16)), peerAs := At(c, 42, 2),
                                  attributeLen := At(c, 44, 2))
  {
    TakeCopies(c, 2, td.viewNumber);
    TakeCopies(Skip(c, 2), 2, td.sequence);
    TakeCopies(Skip(c, 4), 16, Zeros(16));
    var prefix := At(c, 4, 16);
    var td2 := td.(viewNumber := At(c, 0, 2), sequence := At(c, 2, 2), prefix := LegacyAddress(subType, prefix));
    TableDumpEntryLayout(td2, subType, prefix, Skip(c, 20));
  }

  /**
   * For AFI_IPv4 the dotted text of both addresses is printed from the last
   * four bytes of their 16-byte fields (bytes 16..20 and 38..42 of the body).
   */
  lemma TableDumpIpv4Text(td: TableDump, c: Cursor)
    requires c.Valid() && td.WellFormed() && c.bufLen >= 46
    ensures var o := TableDumpSpec(td, AFI_IPV4, c);
            o.tableDump.prefix.Text() == Some(DottedQuad(At(c, 16, 4)))
            && o.tableDump.peerIp.Text() == Some(DottedQuad(At(c, 38, 4)))
  {
    TableDumpLayout(td, AFI_IPV4, c);
    assert At(c, 4, 16)[12..16] == At(c, 16, 4);
    assert At(c, 26, 16)[12..16] == At(c, 38, 4);
  }

  /**
   * Any other sub-type throws once the view number, sequence and prefix
   * (20 bytes) have been read; the prefix text is not written.
   */
  lemma TableDumpBadSubtypeThrows(td: TableDump, subType: nat, c: Cursor)
    requires c.Valid() && td.WellFormed() && c.bufLen >= 20
    requires subType != AFI_IPV4 && subType != AFI_IPV6
    ensures var o := TableDumpSpec(td, subType, c);
            o.status == Fail(UnexpectedAddressFamily) && o.next == Skip(c, 20)
            && o.tableDump == td.(viewNumber := At(c, 0, 2), sequence := At(c, 2, 2))
  {
    TakeCopies(c, 2, td.viewNumber);
    TakeCopies(Skip(c, 2), 2, td.sequence);
    TakeCopies(Skip(c, 4), 16, Zeros(16));
  }
}
