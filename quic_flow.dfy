/** The flow state the QUIC dissector updates in place, and the dissector
    itself, `ndpi_search_quic`, proved to have the effect QuicSearch.Search
    describes.
 */
module QuicFlow {
  import opened QuicWire
  import opened QuicHeader
  import opened QuicSearch

  /** The flow's detected protocol, as far as this dissector sets it. */
  datatype Protocol = ProtoUnknown | ProtoQuic

  class Flow {
    /** The detected protocol, set by `ndpi_set_detected_protocol`. */
    var detected: Protocol
    /** QUIC is excluded for this flow (`NDPI_EXCLUDE_PROTO`). */
    var excluded: bool
    /** `host_server_name`, a fixed-capacity byte buffer. */
    const hostName: array<bv8>
    /** The names handed to `ndpi_match_host_subprotocol`, oldest first. */
    ghost var matchLog: seq<seq<bv8>>

    /** The buffer has room and ends with a zero byte, so `strlen` stops
        inside it. */
    ghost predicate Valid()
      reads this, hostName
    {
      1 <= hostName.Length && hostName[hostName.Length - 1] == 0
    }

    /** A new flow: nothing detected, nothing excluded, a cleared buffer. */
    constructor (capacity: nat)
      requires 1 <= capacity
      ensures Valid() && fresh(hostName)
      ensures detected == ProtoUnknown && !excluded && matchLog == []
      ensures hostName.Length == capacity && forall k :: 0 <= k < capacity ==> hostName[k] == 0
    {
      detected := ProtoUnknown;
      excluded := false;
      hostName := new bv8[capacity](_ => 0);
      matchLog := [];
    }

    /** The bounded copy of the server name: at most `len` bytes, at most
        `hostName.Length - 1`, from offset `s` while it stays inside the
        payload.  No terminator is written. */
    method CopyServerName(p: seq<bv8>, s: int, len: int)
      requires Valid() && -0x8000_0000 <= s < 0x8000_0000 && |p| < TWO_16
      modifies hostName
      ensures Valid()
      ensures hostName[..] == Overwrite(old(hostName[..]), CopiedBytes(p, s, len, hostName.Length))
    {
      var maxLen := hostName.Length - 1;
      var n := len;
      var j := 0;
      var sniOffset := s;
      if n > maxLen {
        n := maxLen;
      }
      ghost var w := CopiedBytes(p, s, len, hostName.Length);
      UnsignedBelow(sniOffset, |p|);
      while n > 0 && U32(sniOffset) < |p|
        invariant 0 <= j <= |w|
        invariant sniOffset == s + j
        invariant j == 0 || 0 < sniOffset <= |p|
        invariant n == (if len > maxLen then maxLen else len) - j
        invariant n > 0 && 0 <= sniOffset < |p| ==> j < |w|
        invariant forall k :: 0 <= k < j ==> hostName[k] == w[k]
        invariant forall k :: j <= k < hostName.Length ==> hostName[k] == old(hostName[k])
        decreases n
      {
        hostName[j] := p[sniOffset];
        j := j + 1;
        sniOffset := sniOffset + 1;
        n := n - 1;
      }
      assert j == |w|;
      assert hostName[..] == Overwrite(old(hostName[..]), w);
    }

    /** Where the value of the `SNI` tag at `i` starts and how long it is:
        the 32-bit words around the tag give its length and, plus `i` plus
        one, its offset, from which the leading dashes are skipped. */
    static method LocateSniValue(p: seq<bv8>, trailer: Trailer, i: nat) returns (sniOffset: int, len: int)
      requires 4 <= i && i + 4 <= |p| < TWO_16
      ensures sniOffset == SniStart(p, trailer, i) && len == SniLen(p, trailer, i)
    {
      // raw 32-bit reads in host order; the one after the tag may pass the payload's end
      var offset: int := Le32(p, trailer, i + 4);
      var prevOffset: int := Le32(p, trailer, i - 4);
      len := I32(offset - prevOffset);
      assert len == SniLen(p, trailer, i);
      sniOffset := I32(i + prevOffset + 1);
      sniOffset := SkipDashRun(p, sniOffset);
    }

    /** The loop that steps over `'-'` bytes of the payload from `s`.  Its
        test `sni_offset < udp_len` compares the `int` as unsigned. */
    static method SkipDashRun(p: seq<bv8>, s: int) returns (sniOffset: int)
      requires -0x8000_0000 <= s < 0x8000_0000 && |p| < TWO_16
      ensures sniOffset == SkipDashes(p, s)
    {
      sniOffset := s;
      UnsignedBelow(sniOffset, |p|);
      while U32(sniOffset) < |p| && p[sniOffset] == DASH
        invariant s <= sniOffset
        invariant -0x8000_0000 <= sniOffset < 0x8000_0000
        invariant U32(sniOffset) < |p| <==> 0 <= sniOffset < |p|
        invariant SkipDashes(p, sniOffset) == SkipDashes(p, s)
        decreases |p| - sniOffset
      {
        sniOffset := sniOffset + 1;
        UnsignedBelow(sniOffset, |p|);
      }
    }

    /** What `ndpi_search_quic` does with the first `SNI` tag, at `i`: when
        the located value passes the range test and metadata export is on,
        copy it and call the host matcher. */
    method HandleSniTag(p: seq<bv8>, trailer: Trailer, i: nat, disableMetadataExport: bool)
      requires Valid() && 4 <= i && i + 4 <= |p| < TWO_16
      modifies this`matchLog, hostName
      ensures Valid()
      ensures var r := TagCopy(p, trailer, i, hostName.Length, disableMetadataExport);
              && hostName[..] == (if r.Some? then Overwrite(old(hostName[..]), r.value.name) else old(hostName[..]))
              && matchLog == (if r.Some? then old(matchLog) + [UpToZero(hostName[..])] else old(matchLog))
    {
      var sniOffset, len := LocateSniValue(p, trailer, i);
      ghost var r := TagCopy(p, trailer, i, hostName.Length, disableMetadataExport);
      if U32(sniOffset + len) < |p| && !disableMetadataExport {
        assert r == Some(Copy(sniOffset, CopiedBytes(p, sniOffset, len, hostName.Length)));
        CopyServerName(p, sniOffset, len);
        matchLog := matchLog + [UpToZero(hostName[..])];
      } else {
        assert r == None;
      }
    }

    /** The client-hello part of `ndpi_search_quic`, once the header length
        `quicHlen` is settled: look for the first `SNI` tag and handle it. */
    method ScanClientHello(p: seq<bv8>, trailer: Trailer, quicHlen: nat, disableMetadataExport: bool)
      requires Valid() && |p| < TWO_16
      modifies this`matchLog, hostName
      ensures Valid()
      ensures var r := Scan(p, trailer, quicHlen, hostName.Length, disableMetadataExport);
              && hostName[..] == (if r.Some? then Overwrite(old(hostName[..]), r.value.name) else old(hostName[..]))
              && matchLog == (if r.Some? then old(matchLog) + [UpToZero(hostName[..])] else old(matchLog))
    {
      var udpLen := |p|;
      if udpLen > quicHlen + 16 + 4 && p[quicHlen + 16..quicHlen + 20] == CHLO {
        var i := quicHlen + 12;
        while i < udpLen - 3
          invariant quicHlen + 12 <= i
          invariant FindSni(p, i) == FindSni(p, quicHlen + 12)
          invariant hostName[..] == old(hostName[..]) && matchLog == old(matchLog)
          decreases udpLen - i
        {
          if p[i] == CHAR_S && p[i + 1] == CHAR_N && p[i + 2] == CHAR_I && p[i + 3] == 0 {
            HandleSniTag(p, trailer, i, disableMetadataExport);
            break;
          }
          i := i + 1;
        }
      }
    }

    /** The header checks at the start of `ndpi_search_quic`: the decoded
        header length, the legacy `Q046` override, the version-tag and flags
        tests, the STUN lookalike test and the header-length adjustment. */
    static method ClassifyPacket(pkt: Packet, trailer: Trailer) returns (v: Verdict)
      requires PacketOk(pkt)
      ensures v == Classify(pkt, trailer)
    {
      var p := pkt.payload;
      var udpLen := |p|;
      var sh := DecodeFlags(p[0]);
      var versionLen, cidLen := sh.versionLen, sh.cidLen;
      var quicHlen := 1 + versionLen + sh.seqLen + cidLen;

      if !(pkt.hasUdp && udpLen > quicHlen + 4 && QuicPorts(pkt.sport, pkt.dport)) {
        return Exclude;
      }
      if p[1] == CHAR_Q && p[2] == CHAR_0 && p[3] == CHAR_4 && p[4] == CHAR_6
         && versionLen == 1 {
        return Proceed(false, Q046_HEADER_LEN);
      }
      var potentialStunLen := Be16(p, 2);
      if versionLen > 0 && p[1 + cidLen] != VERSION_TAG {
        return Exclude;
      }
      if versionLen == 0 && p[0] & 0xC3 != 0 {
        return Exclude;
      }
      if potentialStunLen < udpLen && potentialStunLen + STUN_OVERHEAD > udpLen {
        return Skip;
      }
      // this read may pass the payload's end: only udpLen > quicHlen + 4 is known
      if ByteAt(p, trailer, quicHlen + 12) != HEADER_MARK {
        quicHlen := quicHlen + 1;
      }
      return Proceed(true, quicHlen);
    }

    /** `ndpi_search_quic` on one packet of this flow.  `trailer` stands for
        the memory after the payload, which two reads can reach, and
        `disableMetadataExport` for the module's setting of that name. */
    method SearchQuic(pkt: Packet, trailer: Trailer, disableMetadataExport: bool)
      requires Valid() && PacketOk(pkt)
      modifies this, hostName
      ensures Valid()
      ensures var e := Search(pkt, trailer, hostName.Length, disableMetadataExport);
              && excluded == (old(excluded) || e.exclude)
              && detected == (if e.detect then ProtoQuic else old(detected))
              && hostName[..] == (if e.copy.Some? then Overwrite(old(hostName[..]), e.copy.value.name)
                                  else old(hostName[..]))
              && matchLog == (if e.copy.Some? then old(matchLog) + [UpToZero(hostName[..])]
                              else old(matchLog))
    {
      var v := ClassifyPacket(pkt, trailer);
      match v {
        case Exclude =>
          excluded := true;
        case Skip =>
        case Proceed(detect, quicHlen) =>
          if detect {
            detected := ProtoQuic;
          }
          ScanClientHello(pkt.payload, trailer, quicHlen, disableMetadataExport);
      }
    }
  }
}
