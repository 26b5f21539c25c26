/**
 * The IPv4 header checksum (section 3.1 of RFC 791), computed as section 1
 * of RFC 1071 describes: the one's-complement of the one's-complement sum of
 * the ten 16-bit words of a 20-byte header.
 */
module Checksum {
  import opened Wire

  /** The `k`-th big-endian 16-bit word of `h`. */
  function Word(h: seq<byte>, k: nat): uint16
    requires 2 * k + 1 < |h|
  {
    h[2 * k] as int * 0x100 + h[2 * k + 1]
  }

  /** Plain (carry-keeping) sum of the first `n` words of `h`. */
  function WordsSum(h: seq<byte>, n: nat): (s: nat)
    requires 2 * n <= |h|
    ensures s <= n * 0xFFFF
  {
    if n == 0 then 0 else WordsSum(h, n - 1) + Word(h, n - 1)
  }

  /** Sum of the ten words of a 20-byte header; it fits in 20 bits, so a
      32-bit accumulator never wraps. */
  function HeaderSum(h: seq<byte>): (s: nat)
    requires |h| == IP_HDR_LEN
    ensures s < 0x10_0000
  {
    WordsSum(h, IP_HDR_LEN / 2)
  }

  /** One folding step takes the carries above bit 15 back into the low 16 bits;
      it makes the value smaller and keeps it modulo 0xFFFF. */
  lemma FoldStep(s: nat)
    requires s >= 0x1_0000
    ensures 0 < s % 0x1_0000 + s / 0x1_0000 < s
    ensures (s % 0x1_0000 + s / 0x1_0000) % 0xFFFF == s % 0xFFFF
  {
    var q, m := s / 0x1_0000, s % 0x1_0000;
    assert s == 0xFFFF * q + (m + q);
    SameModAfterMultiple(m + q, q);
  }

  lemma SameModAfterMultiple(a: nat, q: nat)
    ensures (0xFFFF * q + a) % 0xFFFF == a % 0xFFFF
  {
  }

  /** The one's-complement fold: carries are added back in until the value
      fits in 16 bits. */
  function Fold(s: nat): (r: uint16)
    ensures r % 0xFFFF == s % 0xFFFF
    ensures r == 0 <==> s == 0
    decreases s
  {
    if s < 0x1_0000 then s
    else FoldStep(s); Fold(s % 0x1_0000 + s / 0x1_0000)
  }

  /** The fold is the end-around-carry reduction: 0 stays 0 and every other
      value becomes its residue modulo 0xFFFF in the range 1..0xFFFF. */
  lemma FoldIsEndAroundCarry(s: nat)
    ensures Fold(s) == if s == 0 then 0 else (s - 1) % 0xFFFF + 1
  {
    if s != 0 {
      var r := Fold(s);
      assert r % 0xFFFF == s % 0xFFFF && 0 < r;
      ResidueInRange(s, r);
    }
  }

  lemma ResidueInRange(s: nat, r: nat)
    requires 0 < s && 0 < r <= 0xFFFF && r % 0xFFFF == s % 0xFFFF
    ensures r == (s - 1) % 0xFFFF + 1
  {
    var k := (s - 1) / 0xFFFF;
    assert s - 1 == 0xFFFF * k + (s - 1) % 0xFFFF;
    assert s == 0xFFFF * k + ((s - 1) % 0xFFFF + 1);
    SameModAfterMultiple((s - 1) % 0xFFFF + 1, k);
  }

  /** The value `ipHdrChksum` computes from `h` as given, before `htons`.  It
      is the IPv4 header checksum only when bytes 10-11 of `h` are zero. */
  function IpChecksum(h: seq<byte>): (c: uint16)
    requires |h| == IP_HDR_LEN
    ensures (HeaderSum(h) + c) % 0xFFFF == 0
  {
    0xFFFF - Fold(HeaderSum(h))
  }

  /**
   * `ipHdrChksum`: reads the 20 bytes of `packet` from `start` on (and
   * nothing else, and writes nothing), and returns the checksum in network
   * byte order.  It sums bytes 10 and 11 of the header like the others, so
   * the caller has to zero the checksum field first.
   */
  method IpHdrChksum(packet: array<byte>, start: nat) returns (r: uint16)
    requires start + IP_HDR_LEN <= packet.Length
    ensures r == Htons(IpChecksum(packet[start..start + IP_HDR_LEN]))
  {
    ghost var h := packet[start..start + IP_HDR_LEN];
    var sum: uint32 := 0;
    var i: nat := 0;
    while i < IP_HDR_LEN
      invariant i <= IP_HDR_LEN && i % 2 == 0
      invariant sum == WordsSum(h, i / 2)
    {
      // ((uint32_t)packet[i] << 8) | packet[i + 1]: the two bytes occupy disjoint bits
      sum := sum + (packet[start + i] as int * 0x100 + packet[start + i + 1]);
      i := i + 2;
    }
    ghost var total := sum;
    while sum / 0x1_0000 != 0
      invariant Fold(sum) == Fold(total)
      decreases sum
    {
      sum := sum % 0x1_0000 + sum / 0x1_0000;
    }
    assert sum == Fold(total) && sum < 0x1_0000;
    // ~sum, then & 0xffff
    var folded := (0xFFFF_FFFF - sum) % 0x1_0000;
    r := Htons(folded);
  }

  /** Replacing one word of `h` changes the sum of the words that include it
      by the difference of the two words. */
  lemma {:induction false} WordsSumReplace(h: seq<byte>, h': seq<byte>, j: nat, n: nat)
    requires |h| == |h'| && 2 * n <= |h| && 2 * j + 1 < |h|
    requires forall i :: 0 <= i < |h| && i != 2 * j && i != 2 * j + 1 ==> h[i] == h'[i]
    ensures WordsSum(h', n) == WordsSum(h, n) + (if j < n then Word(h', j) - Word(h, j) else 0)
  {
    if n > 0 {
      WordsSumReplace(h, h', j, n - 1);
      if n - 1 != j {
        assert Word(h, n - 1) == Word(h', n - 1);
      }
    }
  }

  /** The checksum field (word 5) is summed as given: a header's sum is that of
      the same header with the field zeroed, plus the field's value. */
  lemma ChecksumFieldIsSummed(h: seq<byte>)
    requires |h| == IP_HDR_LEN
    ensures HeaderSum(h) == HeaderSum(h[10 := 0][11 := 0]) + Word(h, 5)
  {
    WordsSumReplace(h[10 := 0][11 := 0], h, 5, 10);
  }

  /** Verification by the receiver (section 1 of RFC 1071): once the checksum
      of a header with a zeroed field is stored there high byte first, the
      folded sum of the 20 bytes is 0xFFFF, so its complement is 0. */
  lemma ChecksumVerifies(h: seq<byte>)
    requires |h| == IP_HDR_LEN && h[10] == 0 && h[11] == 0
    ensures var c := IpChecksum(h);
            var h' := h[10 := c / 0x100][11 := c % 0x100];
            Fold(HeaderSum(h')) == 0xFFFF && IpChecksum(h') == 0
  {
    var c := IpChecksum(h);
    var h' := h[10 := c / 0x100][11 := c % 0x100];
    WordsSumReplace(h, h', 5, 10);
    var s := HeaderSum(h');
    assert s == HeaderSum(h) + c;
    assert s % 0xFFFF == 0;
    assert s > 0 by {
      if HeaderSum(h) == 0 { assert Fold(0) == 0; }
    }
    FoldIsEndAroundCarry(s);
    var k := s / 0xFFFF;
    assert s == 0xFFFF * k;
    assert (s - 1) % 0xFFFF == 0xFFFF - 1 by {
      assert s - 1 == 0xFFFF * (k - 1) + (0xFFFF - 1);
      SameModAfterMultiple(0xFFFF - 1, k - 1);
    }
  }

  /** A sample header (a UDP datagram from 192.168.0.1 to 192.168.0.199):
      45 00 00 73 00 00 40 00 40 11 [00 00] c0 a8 00 01 c0 a8 00 c7 has the
      checksum 0xB861, sent as b8 61. */
  lemma SampleHeader(h: seq<byte>)
    requires h == [0x45, 0x00, 0x00, 0x73, 0x00, 0x00, 0x40, 0x00, 0x40, 0x11,
                   0x00, 0x00, 0xc0, 0xa8, 0x00, 0x01, 0xc0, 0xa8, 0x00, 0xc7]
    ensures IpChecksum(h) == 0xB861 && StoreU16(Htons(IpChecksum(h))) == [0xb8, 0x61]
  {
    assert WordsSum(h, 2) == 0x4573;
    assert WordsSum(h, 4) == 0x8573;
    assert WordsSum(h, 6) == 0xC584;
    assert WordsSum(h, 8) == 0x1862D;
    assert HeaderSum(h) == WordsSum(h, 10) == 0x2479C;
    assert Fold(0x2479C) == Fold(0x479E) == 0x479E;
  }
}
