/** The pure helpers of the QUIC dissector: the port prefilter (`quic_ports`),
    the length-code table (`quic_len`) and the decoding of the public flags
    byte, the first payload byte, into the lengths of the header fields.
 */
module QuicHeader {

  /** A transport port, already in host order. */
  type Port = x: int | 0 <= x < 0x1_0000

  const HTTPS_PORT: Port := 443
  const HTTP_PORT: Port := 80
  /** NTP's port: a flow that touches it is never QUIC. */
  const NTP_PORT: Port := 123

  /** `quic_ports`: some port of the flow is a web port and none is NTP's. */
  function QuicPorts(sport: Port, dport: Port): (r: bool)
    ensures r <==> (HTTPS_PORT in {sport, dport} || HTTP_PORT in {sport, dport}) && NTP_PORT !in {sport, dport}
  {
    (sport == HTTPS_PORT || dport == HTTPS_PORT || sport == HTTP_PORT || dport == HTTP_PORT)
    && sport != NTP_PORT && dport != NTP_PORT
  }

  /** The prefilter does not care which side of the flow a port is on. */
  lemma QuicPortsSymmetric(sport: Port, dport: Port)
    ensures QuicPorts(sport, dport) == QuicPorts(dport, sport)
  {
  }

  /** A web port paired with NTP's port is rejected. */
  lemma QuicPortsRejectsNtp()
    ensures !QuicPorts(HTTPS_PORT, NTP_PORT) && !QuicPorts(NTP_PORT, HTTP_PORT)
    ensures QuicPorts(HTTPS_PORT, HTTPS_PORT) && QuicPorts(50000, HTTP_PORT)
  {
  }

  /** 2^n, the reference definition `quic_len` is stated against. */
  function Pow2(n: nat): (r: nat)
    ensures r >= 1
  {
    if n == 0 then 1 else 2 * Pow2(n - 1)
  }

  /** `quic_len`: a 2-bit code `l` stands for 2^l bytes; any other code
      (never passed by the dissector) yields 0. */
  function QuicLen(l: bv8): (r: nat)
    ensures l < 4 ==> r == Pow2(l as nat)
    ensures 4 <= l ==> r == 0
  {
    if l == 0 then 1
    else if l == 1 then 2
    else if l == 2 then 4
    else if l == 3 then 8
    else 0
  }

  /** The lengths of the public header's fields, decoded from the flags byte. */
  datatype Shape = Shape(versionLen: nat, cidLen: nat, seqLen: nat)
  {
    /** `quic_hlen`: flags byte, version, packet number and connection id. */
    function HeaderLen(): nat
    {
      1 + versionLen + seqLen + cidLen
    }
  }

  /** Decoding of the flags byte: bit 0 says a 4-byte version is present,
      bits 2-3 code the connection-id length and bits 4-5 the packet-number
      length.  Nothing but the flags byte enters the result. */
  function DecodeFlags(flags: bv8): (sh: Shape)
    ensures sh.versionLen == (if flags & 0x01 == 0 then 0 else 4)
    ensures sh.cidLen == Pow2(((flags & 0x0C) >> 2) as nat) && sh.cidLen in {1, 2, 4, 8}
    ensures sh.seqLen == Pow2(((flags & 0x30) >> 4) as nat) && sh.seqLen in {1, 2, 4, 8}
    ensures 3 <= sh.HeaderLen() <= 21
  {
    Shape(if flags & 0x01 == 0 then 0 else 4,
          QuicLen((flags & 0x0C) >> 2),
          QuicLen((flags & 0x30) >> 4))
  }

  /** The version length is never 1, which is what the legacy `Q046` test
      requires of it: that override can never fire. */
  lemma VersionLenNeverOne(flags: bv8)
    ensures DecodeFlags(flags).versionLen != 1
  {
  }

  /** Both ends of the header-length range are reached. */
  lemma HeaderLenExtremes()
    ensures DecodeFlags(0x00).HeaderLen() == 3
    ensures DecodeFlags(0x3D).HeaderLen() == 21
  {
  }
}
