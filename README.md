# gQUIC classifier of nDPI, modelled in Dafny

nDPI calls `ndpi_search_quic` once for each UDP packet of a flow that is
not yet classified. The dissector does four things:

- It decodes the public flags byte of a Google QUIC (gQUIC) header into the
  header length.
- It either excludes QUIC from the flow for good, skips the packet because
  it may be STUN, or marks the flow as QUIC.
- In a client hello (`CHLO`) it looks for the first `SNI` tag, locates the
  server name through the two 32-bit words around the tag, and copies it
  into the flow's fixed-size `host_server_name` buffer.
- It hands that buffer to the host matcher.

The project has four modules:

- `QuicWire` (`quic_wire.dfy`) holds the byte reads and the 32-bit
  arithmetic. Reads past the payload go to a `Trailer`, the eight bytes of
  memory after it.
- `QuicHeader` (`quic_header.dfy`) holds `quic_ports`, `quic_len` and the
  decoding of the flags byte.
- `QuicSearch` (`quic_search.dfy`) describes one call of the dissector as
  pure functions: `Classify`, `Scan` and `Search`. The properties are
  proved about these functions.
- `QuicFlow` (`quic_flow.dfy`) holds the flow as a class. Its fields are
  the detected protocol, the exclusion flag and the `host_server_name`
  byte array. A ghost log records the names handed to the host matcher.
  `SearchQuic` keeps the dissector's loops and in-place writes, and is
  proved to have exactly the effect `Search` describes.

Behaviour of the code that the lemmas make visible:

- Leading dashes are skipped, but the value length still counts them, so
  the copy runs past the value's end (`DashesCountInLength`).
- No terminator is written after the copied bytes.
- A copy that reaches the payload's end stops there; nothing is aborted.
- The host matcher is called whenever the range test passes and metadata
  export is on, even when
  nothing was copied.
- Two reads may go past the payload:
  - the byte at `quic_hlen + 12`, which decides the header length, whenever
    the payload is at most `quic_hlen + 12` bytes long (`MarkReadPastPayload`,
    with the concrete packet of `MarkReadOverrun`);
  - the word after an `SNI` tag that starts within the payload's last
    seven bytes, that is when `i + 8 > udp_len` (`SniLenOverrun`).
- Every comparison of an `int` with the unsigned `udp_len` converts the
  `int` to unsigned (`UnsignedBelow`).

## Model

| member | source | states |
|---|---|---|
| QuicHeader.QuicPorts | src/lib/protocols/quic.c:35-42 | true exactly when 443 or 80 is one of the two ports and 123 is neither |
| QuicHeader.QuicPortsSymmetric | src/lib/protocols/quic.c:35-42 | swapping source and destination port does not change the prefilter's answer |
| QuicHeader.QuicPortsRejectsNtp | src/lib/protocols/quic.c:37-38 | a web port paired with NTP's port is rejected; web ports on their own are accepted |
| QuicHeader.QuicLen | src/lib/protocols/quic.c:46-63 | codes 0-3 give 2^code bytes, any other code gives 0 |
| QuicHeader.DecodeFlags | src/lib/protocols/quic.c:72-75 | bit 0 gives a 4-byte version or none; bits 2-3 and 4-5 give 2^code bytes of connection id and packet number; the header is 3 to 21 bytes long |
| QuicHeader.VersionLenNeverOne | src/lib/protocols/quic.c:86-92 | the version length is never 1, so the `Q046` condition can never hold |
| QuicHeader.HeaderLenExtremes | src/lib/protocols/quic.c:75 | flags 0x00 give the shortest header (3) and 0x3D the longest (21) |
| QuicWire.Be16 | src/lib/protocols/quic.c:94 | the big-endian 16-bit value at a position is below 2^16 and is zero exactly when both bytes are |
| QuicWire.Le32 | src/lib/protocols/quic.c:123-124 | a raw 32-bit read in host order is below 2^32 |
| QuicWire.Le32InBounds | src/lib/protocols/quic.c:124 | a word read wholly inside the payload does not depend on the memory after it |
| QuicWire.Le32Overrun | src/lib/protocols/quic.c:123 | a word read that reaches past the payload changes with the memory after it |
| QuicWire.U32 | src/lib/protocols/quic.c:128-138 | conversion to `u_int32_t` gives a value below 2^32 that is congruent to its input modulo 2^32 |
| QuicWire.I32 | src/lib/protocols/quic.c:125-126 | conversion to `int` gives a 32-bit signed value congruent to its input modulo 2^32 |
| QuicWire.I32Wraps | src/lib/protocols/quic.c:125-131 | converting to `int` and then to unsigned is the same as converting to unsigned |
| QuicWire.UnsignedBelow | src/lib/protocols/quic.c:128-138 | for a 32-bit `int`, `x < udp_len` compared as unsigned holds exactly when `0 <= x < udp_len` |
| QuicWire.UpToZero | src/lib/protocols/quic.c:145 | what `strlen` measures: the longest prefix without a zero byte, followed by a zero when shorter than the buffer |
| QuicWire.Overwrite | src/lib/protocols/quic.c:138-141 | the buffer after the copy: the first bytes replaced, the rest unchanged, the length the same |
| QuicWire.UpToZeroOverwrite | src/lib/protocols/quic.c:138-145 | on a buffer with a zero just after the copied bytes, the matcher receives exactly the bytes copied, when they hold no zero |
| QuicSearch.StunLength | src/lib/protocols/quic.c:94 | the value at bytes 2-3 is a 16-bit length |
| QuicSearch.ExcludedExactly | src/lib/protocols/quic.c:79-160 | QUIC is excluded exactly when the packet has no UDP header, is too short for its header, fails the port test, or fails the version-tag or flags test; an excluded packet has no other effect |
| QuicSearch.Q046OverrideDead | src/lib/protocols/quic.c:86-92 | every packet that reaches the client-hello scan has marked the flow as QUIC |
| QuicSearch.SkippedExactly | src/lib/protocols/quic.c:94-106 | a call has no effect exactly when the packet is well formed and its bytes 2-3 hold a length `L` with `udp_len - 24 <= L <= udp_len - 1` |
| QuicSearch.DetectedExactly | src/lib/protocols/quic.c:103-112 | the flow is marked as QUIC exactly when the packet is well formed and not STUN-like; the header length then grows by one exactly when the byte at `quic_hlen + 12` is not 0xA0 |
| QuicSearch.MarkReadInBounds | src/lib/protocols/quic.c:111 | when the payload holds byte `quic_hlen + 12`, the outcome does not depend on the memory after the payload |
| QuicSearch.MarkReadPastPayload | src/lib/protocols/quic.c:111-112 | for every packet that passes every earlier test but holds at most `quic_hlen + 12` bytes, the outcome changes with the memory after the payload |
| QuicSearch.MarkReadOverrun | src/lib/protocols/quic.c:111-112 | an 8-byte packet passes every test with a 3-byte header, and its header length then depends on the memory after the payload |
| QuicSearch.FindSni | src/lib/protocols/quic.c:118-122 | the result is an `SNI` tag at or after the start, and no earlier position from the start holds one; none is found only when no position does |
| QuicSearch.SkipDashes | src/lib/protocols/quic.c:128-129 | the offset never decreases, never stops on a dash inside the payload, and once it has moved it is at most the payload's end |
| QuicSearch.SkippedAreDashes | src/lib/protocols/quic.c:128-129 | every byte stepped over is a dash inside the payload |
| QuicSearch.CopiedBytes | src/lib/protocols/quic.c:133-141 | the bytes copied are a slice of the payload at the start offset, at most `len` and at most capacity−1 long; the copy stops only at one of these limits or at the payload's end; nothing is copied for a non-positive length or an offset outside the payload |
| QuicSearch.DisabledNoCopy | src/lib/protocols/quic.c:132 | with metadata export disabled, the buffer is never written and the matcher never called |
| QuicSearch.CopyFromFirstSniTag | src/lib/protocols/quic.c:115-151 | a copy happens only for a detected packet with a client hello and only for the first `SNI` tag, after that tag passes the range test |
| QuicSearch.MatcherCalledOnRange | src/lib/protocols/quic.c:131-147 | once the first tag passes the range test with export on, the matcher is called, even when the length is not positive and nothing is copied |
| QuicSearch.CopyWithinPayload | src/lib/protocols/quic.c:128-141 | the name copied never reaches the buffer's last byte, is a slice of the payload, and does not start with a dash |
| QuicSearch.TagCopyInBounds | src/lib/protocols/quic.c:123-148 | for a tag whose following word fits in the payload (`i + 8 <= udp_len`), what is done with the tag does not depend on the memory after the payload |
| QuicSearch.SniLenInBounds | src/lib/protocols/quic.c:123-125 | when both words around the tag lie inside the payload, the value length does not depend on the memory after it |
| QuicSearch.SniStartInBounds | src/lib/protocols/quic.c:124-129 | the value's start, read from the word before the tag, never depends on the memory after the payload |
| QuicSearch.SniLenOverrun | src/lib/protocols/quic.c:118-125 | for a tag the loop can reach (`i + 4 <= udp_len`) whose following word does not fit in the payload (`i + 8 > udp_len`), the value length depends on the memory after the payload |
| QuicSearch.OffsetsWrapApart | src/lib/protocols/quic.c:125 | `offset - prev_offset` taken as an `int` is one-to-one in `offset`: two different unsigned words give two different lengths |
| QuicSearch.DashesCountInLength | src/lib/protocols/quic.c:125-141 | for the value `"--ab"` followed by `".c"`, the dashes are skipped but still counted, so the name copied is `"ab.c"` |
| QuicSearch.Classify | src/lib/protocols/quic.c:71-113 | no contract of its own: the verdict of the header checks (exclude, skip, or proceed with a header length); `ExcludedExactly`, `SkippedExactly`, `DetectedExactly`, `Q046OverrideDead` and `MarkReadInBounds` state its properties, and `ClassifyPacket` is proved to compute it |
| QuicSearch.Malformed | src/lib/protocols/quic.c:79-100 | no contract of its own: the five conditions that lead to `no_quic`; `ExcludedExactly` proves exclusion happens exactly when it holds |
| QuicSearch.StunLookalike | src/lib/protocols/quic.c:104-105 | no contract of its own: the STUN length test; `SkippedExactly` restates it as `udp_len - 24 <= L <= udp_len - 1` and proves skipping happens exactly then |
| QuicSearch.HasChlo | src/lib/protocols/quic.c:115-116 | no contract of its own: the length test and the `CHLO` comparison; `CopyFromFirstSniTag` proves no copy happens without it |
| QuicSearch.IsSniTag | src/lib/protocols/quic.c:119-122 | no contract of its own: the four byte comparisons; `FindSni` is specified in terms of it |
| QuicSearch.SniLen | src/lib/protocols/quic.c:123-125 | no contract of its own: the difference of the two words as an `int`; `LocateSniValue` is proved to compute it and `SniLenOverrun` shows when it reads past the payload |
| QuicSearch.SniStart | src/lib/protocols/quic.c:124-129 | no contract of its own: the offset after the dash loop; `LocateSniValue` is proved to compute it and `SkipDashes` states where it stops |
| QuicSearch.SniInRange | src/lib/protocols/quic.c:131 | no contract of its own: the unsigned range test; `CopyFromFirstSniTag` and `MatcherCalledOnRange` prove the matcher is called exactly when it holds, with export on |
| QuicSearch.CopyAt | src/lib/protocols/quic.c:131-141 | no contract of its own: the range test, the export test and the copy; `CopyWithinPayload` and `DashesCountInLength` state its properties |
| QuicSearch.TagCopy | src/lib/protocols/quic.c:123-148 | no contract of its own: what is done with one `SNI` tag; `HandleSniTag` is proved to have exactly this effect |
| QuicSearch.Scan | src/lib/protocols/quic.c:115-154 | no contract of its own: the client-hello scan, handling only the first `SNI` tag; `CopyFromFirstSniTag` and `MatcherCalledOnRange` state its properties and `ScanClientHello` is proved to have exactly this effect |
| QuicSearch.Search | src/lib/protocols/quic.c:67-161 | no contract of its own: the effect of one call; the `QuicSearch` lemmas state its properties and `SearchQuic` is proved to have exactly this effect |
| QuicFlow.Flow.CopyServerName | src/lib/protocols/quic.c:133-141 | the copy loop leaves the buffer equal to its old contents overwritten with `CopiedBytes`, and its last byte stays zero |
| QuicFlow.Flow.SkipDashRun | src/lib/protocols/quic.c:128-129 | the dash-skipping loop ends at `SkipDashes` of its start |
| QuicFlow.Flow.LocateSniValue | src/lib/protocols/quic.c:123-129 | the two raw reads, the wrapping arithmetic and the dash loop yield the value start `SniStart` and length `SniLen` |
| QuicFlow.Flow.HandleSniTag | src/lib/protocols/quic.c:123-148 | for a tag, the buffer and the matcher log change exactly as `TagCopy` says, and otherwise stay unchanged |
| QuicFlow.Flow.ScanClientHello | src/lib/protocols/quic.c:115-154 | the client-hello scan loop changes the buffer and the matcher log exactly as `Scan` says |
| QuicFlow.Flow.ClassifyPacket | src/lib/protocols/quic.c:71-113 | the header checks, with their early exits, compute `Classify` |
| QuicFlow.Flow.SearchQuic | src/lib/protocols/quic.c:67-161 | one call updates the exclusion flag, the detected protocol, the buffer and the matcher log exactly as `Search` says, and keeps the buffer's last byte zero |

## Left out

- `init_quic_dissector` registers the dissector with the framework; it is configuration, not classification.
- `ndpi_set_detected_protocol`, `NDPI_EXCLUDE_PROTO` and `ndpi_match_host_subprotocol` are foreign calls. The model records their effect on the flow: the detected protocol, an exclusion flag, and a log of the names passed to the matcher. Sub-protocol refinement by the matcher is not modelled.
- `ntohs` on the UDP ports: the ports enter the model already in host order.
- The logging macros are not modelled.
- Memory after the payload is modelled as eight arbitrary bytes, because no read reaches further. What a real out-of-bounds read would return, or whether it would fault, is not modelled.
- QuicWire.Le32: host byte order is fixed as little-endian; on a big-endian host the two raw reads give other values.
- QuicWire.U32, QuicWire.I32: these are defined only for values within one wrap of the 32-bit range. Every sum and difference the dissector forms lies in that range, because the payload length is below 2^16.
- QuicSearch.PacketOk: the payload length is taken to fit in 16 bits (`payload_packet_len`) and to be at least 1, as the framework guarantees before calling the dissector.
- Signed overflow in `sni_offset + len` is modelled as two's-complement wrap-around, which the comparison with the unsigned `udp_len` then reduces modulo 2^32.
