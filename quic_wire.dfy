/** Byte-level reads and the fixed-width integer arithmetic of the QUIC dissector.

    The dissector indexes its payload directly, and two of its reads can go
    past the payload's end, by at most eight bytes.  Reads go through ByteAt,
    which returns a payload byte inside the payload and otherwise a byte of
    `trailer`, arbitrary contents standing for the memory that follows it.
 */
module QuicWire {

  const TWO_16: int := 0x1_0000
  const TWO_31: int := 0x8000_0000
  const TWO_32: int := 0x1_0000_0000

  /** The eight bytes of memory that follow a payload. */
  type Trailer = t: seq<bv8> | |t| == 8 witness [0, 0, 0, 0, 0, 0, 0, 0]

  /** A trailer filled with the byte `b`. */
  function Fill(b: bv8): (t: Trailer)
    ensures forall j :: 0 <= j < 8 ==> t[j] == b
  {
    [b, b, b, b, b, b, b, b]
  }

  /** Byte `k` as the dissector sees it: inside the payload, the payload's
      byte; past its end, the byte of the memory that follows it. */
  function ByteAt(p: seq<bv8>, trailer: Trailer, k: nat): bv8
    requires k < |p| + 8
  {
    if k < |p| then p[k] else trailer[k - |p|]
  }

  /** A 16-bit big-endian field at `k` (a `u_int16_t` read passed through `ntohs`). */
  function Be16(p: seq<bv8>, k: nat): (r: nat)
    requires k + 2 <= |p|
    ensures r < TWO_16
    ensures r == 0 <==> p[k] == 0 && p[k + 1] == 0
  {
    p[k] as nat * 256 + p[k + 1] as nat
  }

  /** A raw 32-bit read at `k` in host order.  The model fixes the host as
      little-endian: the byte at `k` is the least significant. */
  function Le32(p: seq<bv8>, trailer: Trailer, k: nat): (r: nat)
    requires k + 4 <= |p| + 8
    ensures r < TWO_32
  {
    ByteAt(p, trailer, k) as nat
    + 0x100 * ByteAt(p, trailer, k + 1) as nat
    + 0x1_0000 * ByteAt(p, trailer, k + 2) as nat
    + 0x100_0000 * ByteAt(p, trailer, k + 3) as nat
  }

  /** Conversion of an integer to `u_int32_t`, for the sums and differences
      of two 32-bit values the dissector forms: these lie within one
      multiple of 2^32 of the 32-bit range, so one wrap reduces them. */
  function U32(x: int): (r: nat)
    requires -0x1_0000_0000 <= x < 0x2_0000_0000
    ensures r < 0x1_0000_0000
    ensures r == x || r == x + 0x1_0000_0000 || r == x - 0x1_0000_0000
  {
    if x < 0 then x + 0x1_0000_0000
    else if x >= 0x1_0000_0000 then x - 0x1_0000_0000
    else x
  }

  /** Conversion of such an integer to a 32-bit two's-complement `int`. */
  function I32(x: int): (r: int)
    requires -0x1_0000_0000 <= x < 0x1_8000_0000
    ensures -0x8000_0000 <= r < 0x8000_0000
    ensures r == x || r == x + 0x1_0000_0000 || r == x - 0x1_0000_0000
  {
    if x < -0x8000_0000 then x + 0x1_0000_0000
    else if x >= 0x8000_0000 then x - 0x1_0000_0000
    else x
  }

  /** Taking a value as an `int` and then back as unsigned gives the same as
      taking it as unsigned straight away. */
  lemma I32Wraps(x: int)
    requires -0x1_0000_0000 <= x < 0x1_8000_0000
    ensures U32(I32(x)) == U32(x)
  {
  }

  /** A C comparison `x < n` between an `int` and an unsigned length converts
      `x` to unsigned: for any 32-bit `x` it holds exactly when `0 <= x < n`. */
  lemma UnsignedBelow(x: int, n: nat)
    requires -0x8000_0000 <= x < 0x8000_0000 && n <= 0x8000_0000
    ensures U32(x) < n <==> 0 <= x < n
  {
  }

  /** What `strlen` sees of a buffer: the bytes before its first zero. */
  function UpToZero(b: seq<bv8>): (r: seq<bv8>)
    ensures |r| <= |b| && r == b[..|r|]
    ensures forall k :: 0 <= k < |r| ==> r[k] != 0
    ensures |r| < |b| ==> b[|r|] == 0
  {
    if b == [] || b[0] == 0 then [] else [b[0]] + UpToZero(b[1..])
  }

  /** `b` with its first `|w|` bytes replaced by `w`. */
  function Overwrite(b: seq<bv8>, w: seq<bv8>): (r: seq<bv8>)
    requires |w| <= |b|
    ensures |r| == |b|
    ensures forall k :: 0 <= k < |w| ==> r[k] == w[k]
    ensures forall k :: |w| <= k < |b| ==> r[k] == b[k]
  {
    w + b[|w|..]
  }

  /** A read of four bytes that all lie inside the payload does not depend on
      the memory that follows it. */
  lemma Le32InBounds(p: seq<bv8>, b1: Trailer, b2: Trailer, k: nat)
    requires k + 4 <= |p|
    ensures Le32(p, b1, k) == Le32(p, b2, k)
  {
  }

  /** Conversely, once the last of the four bytes lies past the payload, some
      contents of the following memory change the value read. */
  lemma Le32Overrun(p: seq<bv8>, k: nat)
    requires |p| < k + 4 <= |p| + 8
    ensures Le32(p, Fill(0), k) < Le32(p, Fill(1), k)
  {
    FilledByteBelow(p, k);
    FilledByteBelow(p, k + 1);
    FilledByteBelow(p, k + 2);
    FilledByteBelow(p, k + 3);
  }

  /** A byte read through a zero-filled trailer is at most the one read
      through a trailer of ones, and below it past the payload. */
  lemma FilledByteBelow(p: seq<bv8>, k: nat)
    requires k < |p| + 8
    ensures ByteAt(p, Fill(0), k) as nat <= ByteAt(p, Fill(1), k) as nat
    ensures |p| <= k ==> ByteAt(p, Fill(0), k) as nat + 1 == ByteAt(p, Fill(1), k) as nat
  {
  }

  /** The name the host matcher receives after an overwrite: the bytes
      written, when they hold no zero and the old byte right after them is a
      zero (a cleared buffer, say). */
  lemma {:induction false} UpToZeroOverwrite(b: seq<bv8>, w: seq<bv8>)
    requires |w| < |b| && b[|w|] == 0
    requires forall k :: 0 <= k < |w| ==> w[k] != 0
    ensures UpToZero(Overwrite(b, w)) == w
  {
    if w != [] {
      var r := Overwrite(b, w);
      assert r[0] == w[0] != 0;
      assert r[1..] == Overwrite(b[1..], w[1..]);
      UpToZeroOverwrite(b[1..], w[1..]);
    } else {
      assert Overwrite(b, w)[0] == 0;
    }
  }
}
