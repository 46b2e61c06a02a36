/** What one call of `ndpi_search_quic` does to a flow, as pure functions of
    the packet, the memory after its payload, the host-name buffer's capacity
    and the `disable_metadata_export` setting.

    The call first classifies the packet (Classify): exclude QUIC for the
    flow, skip the packet (it may be STUN), or go on, marking the flow as
    QUIC.  Going on, it looks for a client hello (`CHLO`) holding an `SNI`
    tag and copies the server name it locates into the flow's buffer, then
    hands the buffer to the host matcher (Scan).
 */
module QuicSearch {
  import opened QuicWire
  import opened QuicHeader

  datatype Option<T> = None | Some(value: T)

  /** The parts of the packet the dissector reads.  The ports are only
      meaningful when the packet has a UDP header. */
  datatype Packet = Packet(payload: seq<bv8>, hasUdp: bool, sport: Port, dport: Port)

  /** The framework calls the dissector only for packets with a payload, and
      keeps the payload length in 16 bits. */
  predicate PacketOk(pkt: Packet)
  {
    1 <= |pkt.payload| < TWO_16
  }

  // ASCII codes of the characters the dissector compares payload bytes with
  const CHAR_Q: bv8 := 0x51
  const CHAR_0: bv8 := 0x30
  const CHAR_4: bv8 := 0x34
  const CHAR_6: bv8 := 0x36
  const CHAR_S: bv8 := 0x53
  const CHAR_N: bv8 := 0x4E
  const CHAR_I: bv8 := 0x49
  const DASH: bv8 := 0x2D
  /** The first byte of a gQUIC version tag ("Q043", say). */
  const VERSION_TAG: bv8 := CHAR_Q
  /** The byte at `quic_hlen+12` that keeps the header length as decoded. */
  const HEADER_MARK: bv8 := 0xA0
  /** The dissector's own assumed maximum STUN overhead: a packet 1 to 24
      bytes longer than the value at bytes 2-3, read as STUN's Message
      Length (section 6 of RFC 5389), is taken to be STUN. */
  const STUN_OVERHEAD: nat := 25
  /** The legacy header length forced for version `Q046`. */
  const Q046_HEADER_LEN: nat := 18
  /** "CHLO", the client hello message tag. */
  const CHLO: seq<bv8> := [0x43, 0x48, 0x4C, 0x4F]

  /** The 16-bit big-endian value at bytes 2-3, read as a STUN Message Length. */
  function StunLength(p: seq<bv8>): (r: nat)
    requires 4 <= |p|
    ensures r < TWO_16
  {
    Be16(p, 2)
  }

  /** The STUN-lookalike test: the packet is a little longer than the length
      at bytes 2-3, by less than the assumed STUN overhead. */
  predicate StunLookalike(p: seq<bv8>)
    requires 4 <= |p|
  {
    StunLength(p) < |p| && StunLength(p) + STUN_OVERHEAD > |p|
  }

  /** How a packet is classified: exclude QUIC from the flow, skip the packet,
      or proceed to the client-hello scan with the header length `hlen`,
      marking the flow as QUIC when `detect` holds. */
  datatype Verdict = Exclude | Skip | Proceed(detect: bool, hlen: nat)

  function Classify(pkt: Packet, trailer: Trailer): Verdict
    requires PacketOk(pkt)
  {
    var p := pkt.payload;
    var sh := DecodeFlags(p[0]);
    var hlen := sh.HeaderLen();
    if !(pkt.hasUdp && |p| > hlen + 4 && QuicPorts(pkt.sport, pkt.dport)) then
      Exclude
    else if p[1] == CHAR_Q && p[2] == CHAR_0 && p[3] == CHAR_4 && p[4] == CHAR_6
            && sh.versionLen == 1 then
      Proceed(false, Q046_HEADER_LEN)
    else if sh.versionLen > 0 && p[1 + sh.cidLen] != VERSION_TAG then
      Exclude
    else if sh.versionLen == 0 && p[0] & 0xC3 != 0 then
      Exclude
    else if StunLookalike(p) then
      Skip
    else
      // this byte may lie past the payload: only |p| > hlen + 4 is known
      Proceed(true, if ByteAt(p, trailer, hlen + 12) != HEADER_MARK then hlen + 1 else hlen)
  }

  /** The payload's structure rules QUIC out for the whole flow. */
  predicate Malformed(pkt: Packet)
    requires PacketOk(pkt)
  {
    var p := pkt.payload;
    var sh := DecodeFlags(p[0]);
    || !pkt.hasUdp
    || |p| <= sh.HeaderLen() + 4
    || !QuicPorts(pkt.sport, pkt.dport)
    || (sh.versionLen > 0 && p[1 + sh.cidLen] != VERSION_TAG)
    || (sh.versionLen == 0 && p[0] & 0xC3 != 0)
  }

  /** An `SNI` tag, `'S' 'N' 'I' 0`, begins at `i`. */
  predicate IsSniTag(p: seq<bv8>, i: nat)
  {
    i + 4 <= |p| && p[i] == CHAR_S && p[i + 1] == CHAR_N && p[i + 2] == CHAR_I && p[i + 3] == 0
  }

  /** The first `SNI` tag at or after `from`. */
  function FindSni(p: seq<bv8>, from: nat): (r: Option<nat>)
    decreases |p| - from
    ensures r.Some? ==> from <= r.value && IsSniTag(p, r.value)
    ensures forall j :: from <= j && (r.None? || j < r.value) ==> !IsSniTag(p, j)
  {
    if |p| < from + 4 then None
    else if IsSniTag(p, from) then Some(from)
    else FindSni(p, from + 1)
  }

  /** The offset reached from `s` by stepping over `'-'` bytes of the payload. */
  function SkipDashes(p: seq<bv8>, s: int): (r: int)
    decreases |p| - s
    ensures s <= r
    ensures !(0 <= r < |p| && p[r] == DASH)
    ensures s < r ==> r <= |p|
  {
    if 0 <= s < |p| && p[s] == DASH then SkipDashes(p, s + 1) else s
  }

  /** Every byte SkipDashes steps over is a dash of the payload. */
  lemma {:induction false} SkippedAreDashes(p: seq<bv8>, s: int, k: int)
    requires s <= k < SkipDashes(p, s)
    ensures 0 <= k < |p| && p[k] == DASH
    decreases |p| - s
  {
    if s < k {
      SkippedAreDashes(p, s + 1, k);
    }
  }

  /** The bytes copied into a buffer of capacity `cap` from offset `s`: at
      most `len` of them, at most `cap - 1`, and only from inside the payload. */
  function CopiedBytes(p: seq<bv8>, s: int, len: int, cap: nat): (w: seq<bv8>)
    requires 1 <= cap
    ensures |w| <= cap - 1
    ensures w != [] ==> |w| <= len && 0 <= s && s + |w| <= |p| && w == p[s..s + |w|]
    ensures 0 < len && 0 <= s < |p| && 1 < cap ==> |w| == cap - 1 || |w| == len || s + |w| == |p|
    ensures len <= 0 || !(0 <= s < |p|) ==> w == []
  {
    var n := if len > cap - 1 then cap - 1 else len;
    if n <= 0 || !(0 <= s < |p|) then []
    else if n <= |p| - s then p[s..s + n]
    else p[s..]
  }

  /** A copy the dissector makes into the flow's host-name buffer: `name` is
      written at the buffer's start, read from the payload at `from`. */
  datatype Copy = Copy(from: int, name: seq<bv8>)

  /** The value length of the tag at `i`: the difference of the 32-bit words
      after and before it, taken as an `int`. */
  function SniLen(p: seq<bv8>, trailer: Trailer, i: nat): int
    requires 4 <= i && i + 4 <= |p| < TWO_16
  {
    I32(Le32(p, trailer, i + 4) - Le32(p, trailer, i - 4))
  }

  /** Where the value of the tag at `i` starts once the leading dashes are
      skipped: `i` plus the word before the tag plus one, taken as an `int`. */
  function SniStart(p: seq<bv8>, trailer: Trailer, i: nat): int
    requires 4 <= i && i + 4 <= |p| < TWO_16
  {
    SkipDashes(p, I32(i + Le32(p, trailer, i - 4) + 1))
  }

  /** The test on the tag at `i` that comes before the copy: start plus
      length, as unsigned, lies before the payload's end. */
  predicate SniInRange(p: seq<bv8>, trailer: Trailer, i: nat)
    requires 4 <= i && i + 4 <= |p| < TWO_16
  {
    U32(SniStart(p, trailer, i) + SniLen(p, trailer, i)) < |p|
  }

  /** The client hello marker lies at `hlen + 16`, with room after it. */
  predicate HasChlo(p: seq<bv8>, hlen: nat)
  {
    |p| > hlen + 16 + 4 && p[hlen + 16..hlen + 20] == CHLO
  }

  /** The range test and the copy for a value at `s` of length `len`: Some(c)
      when the buffer receives `c.name` and the host matcher is called, None
      when neither happens. */
  function CopyAt(p: seq<bv8>, s: int, len: int, cap: nat, disable: bool): (r: Option<Copy>)
    requires -0x8000_0000 <= s < 0x8000_0000 && -0x8000_0000 <= len < 0x8000_0000 && 1 <= cap
  {
    if U32(s + len) < |p| && !disable then Some(Copy(s, CopiedBytes(p, s, len, cap))) else None
  }

  /** What the dissector does with the `SNI` tag at `i`. */
  function TagCopy(p: seq<bv8>, trailer: Trailer, i: nat, cap: nat, disable: bool): (r: Option<Copy>)
    requires 4 <= i && i + 4 <= |p| < TWO_16 && 1 <= cap
  {
    CopyAt(p, SniStart(p, trailer, i), SniLen(p, trailer, i), cap, disable)
  }

  /** The client-hello scan: only the first `SNI` tag is handled. */
  function Scan(p: seq<bv8>, trailer: Trailer, hlen: nat, cap: nat, disable: bool): (r: Option<Copy>)
    requires |p| < TWO_16 && 1 <= cap
  {
    if !HasChlo(p, hlen) then None
    else match FindSni(p, hlen + 12)
      case None => None
      case Some(i) => TagCopy(p, trailer, i, cap, disable)
  }

  /** The effect of one call on the flow: QUIC excluded, flow marked as QUIC,
      and the copy made into the host-name buffer before the matcher call. */
  datatype Effect = Effect(exclude: bool, detect: bool, copy: Option<Copy>)

  const NoEffect: Effect := Effect(false, false, None)

  function Search(pkt: Packet, trailer: Trailer, cap: nat, disable: bool): Effect
    requires PacketOk(pkt) && 1 <= cap
  {
    match Classify(pkt, trailer)
    case Exclude => Effect(true, false, None)
    case Skip => NoEffect
    case Proceed(detect, hlen) => Effect(false, detect, Scan(pkt.payload, trailer, hlen, cap, disable))
  }

  /** Proof aid: Search in terms of the verdict alone, so that the lemmas
      below need not unfold Classify. */
  lemma SearchByVerdict(pkt: Packet, trailer: Trailer, cap: nat, disable: bool)
    requires PacketOk(pkt) && 1 <= cap
    ensures var v := Classify(pkt, trailer);
            var e := Search(pkt, trailer, cap, disable);
            && e.exclude == v.Exclude?
            && e.detect == (v.Proceed? && v.detect)
            && e.copy == (if v.Proceed? then Scan(pkt.payload, trailer, v.hlen, cap, disable) else None)
  {
  }

  // ---------------------------------------------------------------------
  // Properties of one call

  /** QUIC is excluded for the flow exactly when the packet is malformed, and
      then nothing else happens. */
  lemma ExcludedExactly(pkt: Packet, trailer: Trailer, cap: nat, disable: bool)
    requires PacketOk(pkt) && 1 <= cap
    ensures Search(pkt, trailer, cap, disable).exclude <==> Malformed(pkt)
    ensures Malformed(pkt) ==> Search(pkt, trailer, cap, disable) == Effect(true, false, None)
  {
    VersionLenNeverOne(pkt.payload[0]);
  }

  /** The legacy `Q046` branch is dead: every packet that proceeds marks the
      flow as QUIC. */
  lemma Q046OverrideDead(pkt: Packet, trailer: Trailer)
    requires PacketOk(pkt)
    ensures Classify(pkt, trailer).Proceed? ==> Classify(pkt, trailer).detect
  {
    VersionLenNeverOne(pkt.payload[0]);
  }

  /** The packet is skipped, leaving the flow untouched, exactly when it is
      well formed and its bytes 2-3 hold a value `L` with
      `|payload| - 24 <= L <= |payload| - 1`. */
  lemma SkippedExactly(pkt: Packet, trailer: Trailer, cap: nat, disable: bool)
    requires PacketOk(pkt) && 1 <= cap
    ensures Search(pkt, trailer, cap, disable) == NoEffect
            <==> !Malformed(pkt) && |pkt.payload| - 24 <= StunLength(pkt.payload) <= |pkt.payload| - 1
  {
    Q046OverrideDead(pkt, trailer);
  }

  /** The flow is marked as QUIC exactly when the packet is well formed and
      not STUN-like; the header length then grows by one exactly when the
      byte at `quic_hlen + 12` is not 0xA0. */
  lemma DetectedExactly(pkt: Packet, trailer: Trailer, cap: nat, disable: bool)
    requires PacketOk(pkt) && 1 <= cap
    ensures Search(pkt, trailer, cap, disable).detect <==> !Malformed(pkt) && !StunLookalike(pkt.payload)
    ensures Search(pkt, trailer, cap, disable).detect ==>
              var hlen := DecodeFlags(pkt.payload[0]).HeaderLen();
              Classify(pkt, trailer) == Proceed(true, if ByteAt(pkt.payload, trailer, hlen + 12) == HEADER_MARK then hlen else hlen + 1)
  {
    Q046OverrideDead(pkt, trailer);
  }

  /** The read at `quic_hlen + 12` decides nothing outside the payload when
      the payload is long enough to hold it ... */
  lemma MarkReadInBounds(pkt: Packet, b1: Trailer, b2: Trailer)
    requires PacketOk(pkt)
    requires |pkt.payload| > DecodeFlags(pkt.payload[0]).HeaderLen() + 12
    ensures Classify(pkt, b1) == Classify(pkt, b2)
  {
  }

  /** ... but a packet that passes every earlier test can be shorter, and
      then the header length the scan uses depends on the memory after the
      payload.  Here the header is 3 bytes and the payload 8. */
  lemma MarkReadOverrun()
    ensures var pkt := Packet([0x00, 0, 0, 16, 0, 0, 0, 0], true, HTTPS_PORT, 50000);
            && PacketOk(pkt)
            && !Malformed(pkt) && !StunLookalike(pkt.payload)
            && |pkt.payload| <= DecodeFlags(pkt.payload[0]).HeaderLen() + 12
            && Classify(pkt, Fill(HEADER_MARK)) == Proceed(true, 3)
            && Classify(pkt, Fill(0)) == Proceed(true, 4)
  {
    var pkt := Packet([0x00, 0, 0, 16, 0, 0, 0, 0], true, HTTPS_PORT, 50000);
    assert DecodeFlags(0x00).HeaderLen() == 3;
    assert StunLength(pkt.payload) == 16;
  }

  /** In general, every packet that passes every earlier test but is too
      short to hold byte `quic_hlen + 12` is classified differently
      depending on the memory after the payload. */
  lemma MarkReadPastPayload(pkt: Packet)
    requires PacketOk(pkt)
    requires !Malformed(pkt) && !StunLookalike(pkt.payload)
    requires |pkt.payload| <= DecodeFlags(pkt.payload[0]).HeaderLen() + 12
    ensures Classify(pkt, Fill(HEADER_MARK)) != Classify(pkt, Fill(0))
  {
    VersionLenNeverOne(pkt.payload[0]);
  }

  /** With metadata export disabled, the buffer is never written and the
      matcher never called. */
  lemma DisabledNoCopy(pkt: Packet, trailer: Trailer, cap: nat)
    requires PacketOk(pkt) && 1 <= cap
    ensures Search(pkt, trailer, cap, true).copy == None
  {
  }

  /** A copy (and matcher call) happens only for a detected packet with a
      client hello, and it is the one made for the first `SNI` tag, whose
      value passes the range test. */
  lemma CopyFromFirstSniTag(pkt: Packet, trailer: Trailer, cap: nat, disable: bool)
    requires PacketOk(pkt) && 1 <= cap
    requires Search(pkt, trailer, cap, disable).copy.Some?
    ensures var v := Classify(pkt, trailer);
            var p := pkt.payload;
            && Search(pkt, trailer, cap, disable).detect
            && !disable
            && v.Proceed? && HasChlo(p, v.hlen)
            && FindSni(p, v.hlen + 12).Some?
            && var i := FindSni(p, v.hlen + 12).value;
               && SniInRange(p, trailer, i)
               && Search(pkt, trailer, cap, disable).copy == TagCopy(p, trailer, i, cap, disable)
  {
    SearchByVerdict(pkt, trailer, cap, disable);
    Q046OverrideDead(pkt, trailer);
  }

  /** Conversely, once the first tag passes the range test, the matcher is
      called, even when the tag's length is zero or negative and nothing is
      copied. */
  lemma MatcherCalledOnRange(pkt: Packet, trailer: Trailer, cap: nat, i: nat)
    requires PacketOk(pkt) && 1 <= cap
    requires Classify(pkt, trailer).Proceed?
    requires HasChlo(pkt.payload, Classify(pkt, trailer).hlen)
    requires FindSni(pkt.payload, Classify(pkt, trailer).hlen + 12) == Some(i)
    requires SniInRange(pkt.payload, trailer, i)
    ensures Search(pkt, trailer, cap, false).copy.Some?
    ensures SniLen(pkt.payload, trailer, i) <= 0 ==> Search(pkt, trailer, cap, false).copy.value.name == []
  {
    SearchByVerdict(pkt, trailer, cap, false);
  }

  /** The bytes copied for a value whose leading dashes, from `x` on, were
      skipped never fill the buffer's last slot, come from inside the
      payload, and start at a byte that is not a dash. */
  lemma CopyWithinPayload(p: seq<bv8>, x: int, len: int, cap: nat, disable: bool)
    requires -0x8000_0000 <= x < 0x8000_0000 && -0x8000_0000 <= len < 0x8000_0000
    requires |p| < TWO_16 && 1 <= cap
    requires CopyAt(p, SkipDashes(p, x), len, cap, disable).Some?
    ensures var c := CopyAt(p, SkipDashes(p, x), len, cap, disable).value;
            && |c.name| <= cap - 1
            && (c.name != [] ==> 0 <= c.from && c.from + |c.name| <= |p|
                                 && c.name == p[c.from..c.from + |c.name|] && p[c.from] != DASH)
  {
  }

  /** When the word after the tag at `i` fits in the payload, what is done
      with the tag does not depend on the memory after the payload ... */
  lemma TagCopyInBounds(p: seq<bv8>, b1: Trailer, b2: Trailer, i: nat, cap: nat, disable: bool)
    requires 4 <= i && i + 8 <= |p| < TWO_16 && 1 <= cap
    ensures TagCopy(p, b1, i, cap, disable) == TagCopy(p, b2, i, cap, disable)
  {
    SniLenInBounds(p, b1, b2, i);
    SniStartInBounds(p, b1, b2, i);
  }

  /** The value's length is computed from two words that lie wholly
      inside the payload ... */
  lemma SniLenInBounds(p: seq<bv8>, b1: Trailer, b2: Trailer, i: nat)
    requires 4 <= i && i + 8 <= |p| < TWO_16
    ensures SniLen(p, b1, i) == SniLen(p, b2, i)
  {
    Le32InBounds(p, b1, b2, i + 4);
    Le32InBounds(p, b1, b2, i - 4);
  }

  /** ... and so is its start. */
  lemma SniStartInBounds(p: seq<bv8>, b1: Trailer, b2: Trailer, i: nat)
    requires 4 <= i && i + 4 <= |p| < TWO_16
    ensures SniStart(p, b1, i) == SniStart(p, b2, i)
  {
    Le32InBounds(p, b1, b2, i - 4);
  }

  /** ... but for a tag the scan can reach whose following word does not
      fit in the payload (`i + 8 > |p|`), that word reaches past the payload
      and the tag's length depends on the memory there. */
  lemma SniLenOverrun(p: seq<bv8>, i: nat)
    requires 4 <= i && i + 4 <= |p| < i + 8 && |p| < TWO_16
    ensures SniLen(p, Fill(0), i) != SniLen(p, Fill(1), i)
  {
    var zero := Fill(0);
    var one := Fill(1);
    Le32InBounds(p, zero, one, i - 4);
    Le32Overrun(p, i + 4);
    OffsetsWrapApart(Le32(p, zero, i - 4), Le32(p, zero, i + 4), Le32(p, one, i + 4));
  }

  /** The 32-bit difference `offset - prev`, taken as an `int`, tells
      different unsigned words `offset` apart. */
  lemma OffsetsWrapApart(prev: int, a: int, b: int)
    requires 0 <= prev < TWO_32 && 0 <= a < b < TWO_32
    ensures I32(a - prev) != I32(b - prev)
  {
  }

  /** The skipped dashes still count in the length: a value `"--ab"` (length
      4) followed by `".c"` yields the name `"ab.c"`. */
  lemma DashesCountInLength()
    ensures var p: seq<bv8> := [DASH, DASH, 0x61, 0x62, 0x2E, 0x63, 0x00];
            CopyAt(p, SkipDashes(p, 0), 4, 256, false) == Some(Copy(2, [0x61, 0x62, 0x2E, 0x63]))
  {
    var p: seq<bv8> := [DASH, DASH, 0x61, 0x62, 0x2E, 0x63, 0x00];
    assert SkipDashes(p, 2) == 2;
    assert SkipDashes(p, 1) == 2;
    assert SkipDashes(p, 0) == 2;
    assert U32(2 + 4) == 6;
    assert CopiedBytes(p, 2, 4, 256) == p[2..6] == [0x61, 0x62, 0x2E, 0x63];
  }
}
