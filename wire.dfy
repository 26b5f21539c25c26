/**
 * Byte-level layout of the frames the echo responder handles: the machine
 * integer types, the fixed offsets of the Ethernet/IPv4/UDP overlay on the
 * raw frame buffer, and the byte order of 16-bit fields on the (little-endian)
 * host the responder runs on.
 */
module Wire {

  type byte = x: int | 0 <= x < 0x100
  type uint16 = x: int | 0 <= x < 0x1_0000
  type uint32 = x: int | 0 <= x < 0x1_0000_0000

  /** Size of the frame buffer (the maximum Ethernet frame). */
  const ETH_LEN: nat := 1518
  const ETH_ALEN: nat := 6
  const IPV4_LEN: nat := 4
  /** Ether-type of IPv4, as a host value. */
  const ETH_P_IP: uint16 := 0x0800

  // Ethernet header
  const ETH_DST: nat := 0
  const ETH_SRC: nat := 6
  const ETH_TYPE: nat := 12
  // IPv4 header, without options
  const IP_HDR: nat := 14
  const IP_HDR_LEN: nat := 20
  const IP_PROTO: nat := 23
  const IP_SUM: nat := 24
  const IP_SRC: nat := 26
  const IP_DST: nat := 30
  // UDP header
  const UDP_SRC: nat := 34
  const UDP_DST: nat := 36
  const UDP_SUM: nat := 40
  const UDP_HDR_END: nat := 42

  /** The 16-bit value a little-endian host reads from the bytes `lo`, `hi`. */
  function LoadU16(lo: byte, hi: byte): uint16 {
    lo + hi * 0x100
  }

  /** The two bytes, in memory order, in which a little-endian host stores `v`. */
  function StoreU16(v: uint16): (b: seq<byte>)
    ensures |b| == 2
  {
    [v % 0x100, v / 0x100]
  }

  lemma LoadStoreRoundTrip(lo: byte, hi: byte, v: uint16)
    ensures StoreU16(LoadU16(lo, hi)) == [lo, hi]
    ensures LoadU16(StoreU16(v)[0], StoreU16(v)[1]) == v
  {
  }

  /** `htons` (and `ntohs`) on a little-endian host: the two bytes change places. */
  function Htons(v: uint16): (r: uint16)
    ensures StoreU16(r) == [StoreU16(v)[1], StoreU16(v)[0]]
  {
    (v % 0x100) * 0x100 + v / 0x100
  }

  /** `ntohs` is the inverse of `htons`; since the byte swap undoes itself,
      `ntohs` is `Htons` too, which is how the model reads it. */
  lemma HtonsInvolutive(v: uint16)
    ensures Htons(Htons(v)) == v
  {
  }

  /** A value converted by `Htons` and then stored lies in memory big-endian:
      high byte first, then low byte. */
  lemma StoreHtonsIsBigEndian(v: uint16)
    ensures StoreU16(Htons(v)) == [v / 0x100, v % 0x100]
  {
  }

  /** `f` with the bytes `b` written over it from index `off` on: the effect of
      a `memcpy` or of a field store into a buffer holding `f`. */
  function Write(f: seq<byte>, off: nat, b: seq<byte>): (g: seq<byte>)
    requires off + |b| <= |f|
    ensures |g| == |f|
  {
    f[..off] + b + f[off + |b|..]
  }

  /** Byte `i` of a `Write`: from `b` inside the written range, from `f`
      outside it. */
  lemma WriteAt(f: seq<byte>, off: nat, b: seq<byte>, i: nat)
    requires off + |b| <= |f| && i < |f|
    ensures Write(f, off, b)[i] == if off <= i < off + |b| then b[i - off] else f[i]
  {
  }

  /** Two slices are equal when they agree index by index. */
  lemma SliceEq(r: seq<byte>, f: seq<byte>, lo: nat, hi: nat, lo2: nat)
    requires lo <= hi <= |r| && lo2 + (hi - lo) <= |f|
    requires forall i :: lo <= i < hi ==> r[i] == f[lo2 + (i - lo)]
    ensures r[lo..hi] == f[lo2..lo2 + (hi - lo)]
  {
  }
}
