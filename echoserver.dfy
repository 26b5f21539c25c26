/**
 * The UDP echo responder (RFC 862, port 7) on a raw socket: the test that
 * decides whether an inbound frame is an echo request for this host, the
 * construction of the reply frame, and one receive/build/send step of the
 * server loop.
 */
module EchoServer {
  import opened Wire
  import opened Checksum

  const PROTO_UDP: byte := 17
  const DST_PORT: uint16 := 7

  type MacAddr = s: seq<byte> | |s| == ETH_ALEN witness [0, 0, 0, 0, 0, 0]
  type Ipv4Addr = s: seq<byte> | |s| == IPV4_LEN witness [0, 0, 0, 0]

  /** The local interface's addresses, fixed once the socket is set up. */
  datatype Identity = Identity(thisMac: MacAddr, thisIp: Ipv4Addr)

  /** What one loop step hands to `sendto`: the bytes, their count and the
      link-layer destination. */
  datatype Transmit = Transmit(bytes: seq<byte>, length: nat, destMac: MacAddr)

  datatype Option<T> = None | Some(value: T)

  // The five tests of an echo request, each on the frame's wire bytes.

  /** The ether-type field, loaded as a host value, equals `ntohs(ETH_P_IP)`:
      on the wire it reads 08 00. */
  predicate EtherTypeIsIp(f: seq<byte>): (b: bool)
    requires |f| == ETH_LEN
    ensures b <==> f[ETH_TYPE] == 0x08 && f[ETH_TYPE + 1] == 0x00
  {
    LoadU16(f[ETH_TYPE], f[ETH_TYPE + 1]) == Htons(ETH_P_IP)
  }

  /** `memcmp` of the destination MAC with the local MAC returns 0: the six
      bytes agree one by one. */
  predicate ToThisMac(f: seq<byte>, id: Identity): (b: bool)
    requires |f| == ETH_LEN
    ensures b <==> forall k :: 0 <= k < ETH_ALEN ==> f[ETH_DST + k] == id.thisMac[k]
  {
    f[ETH_DST..ETH_DST + ETH_ALEN] == id.thisMac
  }

  /** `memcmp` of the destination IPv4 address with the local address returns
      0: the four bytes agree one by one. */
  predicate ToThisIp(f: seq<byte>, id: Identity): (b: bool)
    requires |f| == ETH_LEN
    ensures b <==> forall k :: 0 <= k < IPV4_LEN ==> f[IP_DST + k] == id.thisIp[k]
  {
    f[IP_DST..IP_DST + IPV4_LEN] == id.thisIp
  }

  /** The UDP destination port, loaded as a host value, equals `ntohs(DST_PORT)`:
      on the wire it reads 00 07. */
  predicate ToEchoPort(f: seq<byte>): (b: bool)
    requires |f| == ETH_LEN
    ensures b <==> f[UDP_DST] == 0x00 && f[UDP_DST + 1] == 0x07
  {
    LoadU16(f[UDP_DST], f[UDP_DST + 1]) == Htons(DST_PORT)
  }

  /** The five tests of `buildEchoPacket`, in the source's order. On the wire:
      ether-type 08 00, destination MAC the local one, protocol 17, destination
      IPv4 address the local one, destination port 00 07. */
  predicate IsEchoRequest(f: seq<byte>, id: Identity): (b: bool)
    requires |f| == ETH_LEN
    ensures b <==> f[ETH_TYPE..ETH_TYPE + 2] == [0x08, 0x00]
                   && f[ETH_DST..ETH_DST + ETH_ALEN] == id.thisMac
                   && f[IP_PROTO] == 17
                   && f[IP_DST..IP_DST + IPV4_LEN] == id.thisIp
                   && f[UDP_DST..UDP_DST + 2] == [0x00, 0x07]
  {
    assert f[ETH_TYPE..ETH_TYPE + 2] == [f[ETH_TYPE], f[ETH_TYPE + 1]];
    assert f[UDP_DST..UDP_DST + 2] == [f[UDP_DST], f[UDP_DST + 1]];
    EtherTypeIsIp(f) && ToThisMac(f, id) && f[IP_PROTO] == PROTO_UDP && ToThisIp(f, id) && ToEchoPort(f)
  }

  /** The 20-byte IPv4 header of a frame. */
  function IpHeader(f: seq<byte>): (h: seq<byte>)
    requires |f| == ETH_LEN
    ensures |h| == IP_HDR_LEN
  {
    f[IP_HDR..IP_HDR + IP_HDR_LEN]
  }

  /** `g` with its IP checksum field zeroed. */
  function ZeroIpSum(g: seq<byte>): (z: seq<byte>)
    requires |g| == ETH_LEN
    ensures |z| == ETH_LEN
  {
    g[IP_SUM := 0][IP_SUM + 1 := 0]
  }

  /** Whether byte `i` belongs to the IP or the UDP checksum field. */
  predicate IsChecksumByte(i: nat) {
    IP_SUM <= i < IP_SUM + 2 || UDP_SUM <= i < UDP_SUM + 2
  }

  /** The index of the request byte that the reply carries at index `i`:
      the other half of a swapped address or port pair, else `i` itself. */
  function Partner(i: nat): nat {
    if ETH_DST <= i < ETH_SRC then i + ETH_ALEN
    else if ETH_SRC <= i < ETH_TYPE then i - ETH_ALEN
    else if IP_SRC <= i < IP_DST then i + IPV4_LEN
    else if IP_DST <= i < UDP_SRC then i - IPV4_LEN
    else if UDP_SRC <= i < UDP_DST then i + 2
    else if UDP_DST <= i < UDP_DST + 2 then i - 2
    else i
  }

  lemma PartnerInvolutive(i: nat)
    ensures Partner(Partner(i)) == i && (IsChecksumByte(i) <==> IsChecksumByte(Partner(i)))
  {
  }

  // The steps of the reply, in the order in which the responder takes them.

  /** Ethernet header: the destination MAC gets the request's source MAC and
      the source MAC the request's destination MAC. */
  function SwapMacs(f: seq<byte>): (g: seq<byte>)
    requires |f| == ETH_LEN
    ensures |g| == ETH_LEN
  {
    Write(Write(f, ETH_DST, f[ETH_SRC..ETH_SRC + ETH_ALEN]), ETH_SRC, f[ETH_DST..ETH_DST + ETH_ALEN])
  }

  /** IPv4 header: the addresses of `g` are set to the request's, swapped. */
  function SwapIps(g: seq<byte>, f: seq<byte>): (g': seq<byte>)
    requires |g| == ETH_LEN && |f| == ETH_LEN
    ensures |g'| == ETH_LEN
  {
    Write(Write(g, IP_DST, f[IP_SRC..IP_SRC + IPV4_LEN]), IP_SRC, f[IP_DST..IP_DST + IPV4_LEN])
  }

  /** The frame after the Ethernet and IPv4 swaps, before the checksum step. */
  function AddressesSwapped(f: seq<byte>): (g: seq<byte>)
    requires |f| == ETH_LEN
    ensures |g| == ETH_LEN
  {
    SwapIps(SwapMacs(f), f)
  }

  /** Recomputes the IP checksum of `g` unless its checksum field reads 0:
      the field is zeroed and then receives `ipHdrChksum` of the header. */
  function RefreshIpChecksum(g: seq<byte>): (r: seq<byte>)
    requires |g| == ETH_LEN
    ensures |r| == ETH_LEN
    ensures r[..IP_SUM] == g[..IP_SUM] && r[IP_SUM + 2..] == g[IP_SUM + 2..]
    ensures g[IP_SUM] == 0 && g[IP_SUM + 1] == 0 ==> r == g
  {
    if LoadU16(g[IP_SUM], g[IP_SUM + 1]) != 0 then
      var z := Write(g, IP_SUM, StoreU16(0));
      Write(z, IP_SUM, StoreU16(Htons(IpChecksum(IpHeader(z)))))
    else g
  }

  /** UDP header: the ports of `g` are set to the request's, swapped. */
  function SwapPorts(g: seq<byte>, f: seq<byte>): (g': seq<byte>)
    requires |g| == ETH_LEN && |f| == ETH_LEN
    ensures |g'| == ETH_LEN
  {
    Write(Write(g, UDP_DST, f[UDP_SRC..UDP_SRC + 2]), UDP_SRC, f[UDP_DST..UDP_DST + 2])
  }

  /** The UDP checksum is zeroed, not recomputed. */
  function ZeroUdpSum(g: seq<byte>): (g': seq<byte>)
    requires |g| == ETH_LEN
    ensures |g'| == ETH_LEN
  {
    Write(g, UDP_SUM, StoreU16(0))
  }

  /** The reply to an echo request `f`, built in the order the responder
      builds it: `SwapMacs`, `SwapIps`, `RefreshIpChecksum`, `SwapPorts`,
      `ZeroUdpSum`.  It is as long as the request; what it contains is stated
      by `EchoFrameBytes`, `EchoIpChecksum` and the lemmas after them. */
  function EchoFrame(f: seq<byte>): (r: seq<byte>)
    requires |f| == ETH_LEN
    ensures |r| == ETH_LEN
  {
    ZeroUdpSum(SwapPorts(RefreshIpChecksum(AddressesSwapped(f)), f))
  }

  /** The checksum step changes no byte outside the IP checksum field; when
      the field reads 0 it changes nothing, and otherwise the field receives,
      high byte first, the checksum of the header with the field zeroed. */
  lemma RefreshIpChecksumAt(g: seq<byte>, i: nat)
    requires |g| == ETH_LEN && i < ETH_LEN
    ensures !(IP_SUM <= i < IP_SUM + 2) ==> RefreshIpChecksum(g)[i] == g[i]
    ensures g[IP_SUM] == 0 && g[IP_SUM + 1] == 0 ==> RefreshIpChecksum(g) == g
    ensures !(g[IP_SUM] == 0 && g[IP_SUM + 1] == 0) ==>
              var c := IpChecksum(IpHeader(ZeroIpSum(g)));
              RefreshIpChecksum(g)[IP_SUM] == c / 0x100 && RefreshIpChecksum(g)[IP_SUM + 1] == c % 0x100
  {
    if LoadU16(g[IP_SUM], g[IP_SUM + 1]) != 0 {
      var z := Write(g, IP_SUM, StoreU16(0));
      var c := IpChecksum(IpHeader(z));
      WriteAt(g, IP_SUM, StoreU16(0), i);
      WriteAt(z, IP_SUM, StoreU16(Htons(c)), i);
      WriteAt(z, IP_SUM, StoreU16(Htons(c)), IP_SUM);
      WriteAt(z, IP_SUM, StoreU16(Htons(c)), IP_SUM + 1);
      assert z == ZeroIpSum(g);
      StoreHtonsIsBigEndian(c);
    }
  }

  /** Byte `i` of the reply, outside the checksum fields, is byte
      `Partner(i)` of the request. */
  lemma EchoFrameAt(f: seq<byte>, i: nat)
    requires |f| == ETH_LEN && i < ETH_LEN && !IsChecksumByte(i)
    ensures EchoFrame(f)[i] == f[Partner(i)]
  {
    var macs1 := Write(f, ETH_DST, f[ETH_SRC..ETH_SRC + ETH_ALEN]);
    var macs := Write(macs1, ETH_SRC, f[ETH_DST..ETH_DST + ETH_ALEN]);
    var ips1 := Write(macs, IP_DST, f[IP_SRC..IP_SRC + IPV4_LEN]);
    var ips := Write(ips1, IP_SRC, f[IP_DST..IP_DST + IPV4_LEN]);
    var summed := RefreshIpChecksum(ips);
    var ports1 := Write(summed, UDP_DST, f[UDP_SRC..UDP_SRC + 2]);
    var ports := Write(ports1, UDP_SRC, f[UDP_DST..UDP_DST + 2]);
    WriteAt(f, ETH_DST, f[ETH_SRC..ETH_SRC + ETH_ALEN], i);
    WriteAt(macs1, ETH_SRC, f[ETH_DST..ETH_DST + ETH_ALEN], i);
    WriteAt(macs, IP_DST, f[IP_SRC..IP_SRC + IPV4_LEN], i);
    WriteAt(ips1, IP_SRC, f[IP_DST..IP_DST + IPV4_LEN], i);
    RefreshIpChecksumAt(ips, i);
    WriteAt(summed, UDP_DST, f[UDP_SRC..UDP_SRC + 2], i);
    WriteAt(ports1, UDP_SRC, f[UDP_DST..UDP_DST + 2], i);
    WriteAt(ports, UDP_SUM, StoreU16(0), i);
  }

  /** Every address and port byte of the reply is taken from its partner in
      the request, every other byte outside the checksum fields is the
      request's own, and the UDP checksum is 0. */
  lemma EchoFrameBytes(f: seq<byte>)
    requires |f| == ETH_LEN
    ensures forall i {:trigger EchoFrame(f)[i]} :: 0 <= i < ETH_LEN && !IsChecksumByte(i) ==> EchoFrame(f)[i] == f[Partner(i)]
    ensures EchoFrame(f)[UDP_SUM] == 0 && EchoFrame(f)[UDP_SUM + 1] == 0
  {
    forall i | 0 <= i < ETH_LEN && !IsChecksumByte(i) ensures EchoFrame(f)[i] == f[Partner(i)] {
      EchoFrameAt(f, i);
    }
    var ports := SwapPorts(RefreshIpChecksum(AddressesSwapped(f)), f);
    WriteAt(ports, UDP_SUM, StoreU16(0), UDP_SUM);
    WriteAt(ports, UDP_SUM, StoreU16(0), UDP_SUM + 1);
  }

  /** The IP checksum of the reply stays 0 if it was 0 in the request, and
      otherwise holds, high byte first, the checksum of the reply's own
      header with that field zeroed: the header as it is after the address
      swap. */
  lemma EchoIpChecksum(f: seq<byte>)
    requires |f| == ETH_LEN
    ensures f[IP_SUM] == 0 && f[IP_SUM + 1] == 0 ==> EchoFrame(f)[IP_SUM] == 0 && EchoFrame(f)[IP_SUM + 1] == 0
    ensures !(f[IP_SUM] == 0 && f[IP_SUM + 1] == 0) ==>
              var r := EchoFrame(f);
              var c := IpChecksum(IpHeader(ZeroIpSum(r)));
              r[IP_SUM] == c / 0x100 && r[IP_SUM + 1] == c % 0x100
  {
    var macs1 := Write(f, ETH_DST, f[ETH_SRC..ETH_SRC + ETH_ALEN]);
    var macs := Write(macs1, ETH_SRC, f[ETH_DST..ETH_DST + ETH_ALEN]);
    var ips1 := Write(macs, IP_DST, f[IP_SRC..IP_SRC + IPV4_LEN]);
    var ips := Write(ips1, IP_SRC, f[IP_DST..IP_DST + IPV4_LEN]);
    var summed := RefreshIpChecksum(ips);
    var ports1 := Write(summed, UDP_DST, f[UDP_SRC..UDP_SRC + 2]);
    var ports := Write(ports1, UDP_SRC, f[UDP_DST..UDP_DST + 2]);
    var r := Write(ports, UDP_SUM, StoreU16(0));
    assert r == EchoFrame(f);
    forall i | IP_SUM <= i < IP_SUM + 2 ensures r[i] == summed[i] && ips[i] == f[i] {
      WriteAt(f, ETH_DST, f[ETH_SRC..ETH_SRC + ETH_ALEN], i);
      WriteAt(macs1, ETH_SRC, f[ETH_DST..ETH_DST + ETH_ALEN], i);
      WriteAt(macs, IP_DST, f[IP_SRC..IP_SRC + IPV4_LEN], i);
      WriteAt(ips1, IP_SRC, f[IP_DST..IP_DST + IPV4_LEN], i);
      WriteAt(summed, UDP_DST, f[UDP_SRC..UDP_SRC + 2], i);
      WriteAt(ports1, UDP_SRC, f[UDP_DST..UDP_DST + 2], i);
      WriteAt(ports, UDP_SUM, StoreU16(0), i);
    }
    RefreshIpChecksumAt(ips, IP_SUM);
    if !(f[IP_SUM] == 0 && f[IP_SUM + 1] == 0) {
      forall i | IP_HDR <= i < IP_HDR + IP_HDR_LEN ensures ZeroIpSum(r)[i] == ZeroIpSum(ips)[i] {
        if !(IP_SUM <= i < IP_SUM + 2) {
          RefreshIpChecksumAt(ips, i);
          WriteAt(summed, UDP_DST, f[UDP_SRC..UDP_SRC + 2], i);
          WriteAt(ports1, UDP_SRC, f[UDP_DST..UDP_DST + 2], i);
          WriteAt(ports, UDP_SUM, StoreU16(0), i);
        }
      }
      assert IpHeader(ZeroIpSum(r)) == IpHeader(ZeroIpSum(ips));
    }
  }

  /** memcpy(dst + dstOff, src + srcOff, n) between two distinct buffers. */
  method Memcpy(dst: array<byte>, dstOff: nat, src: array<byte>, srcOff: nat, n: nat)
    requires dst != src
    requires dstOff + n <= dst.Length && srcOff + n <= src.Length
    modifies dst
    ensures dst[..] == Write(old(dst[..]), dstOff, src[srcOff..srcOff + n])
  {
    forall i | 0 <= i < n {
      dst[dstOff + i] := src[srcOff + i];
    }
    forall i | 0 <= i < dst.Length ensures dst[..][i] == Write(old(dst[..]), dstOff, src[srcOff..srcOff + n])[i] {
      WriteAt(old(dst[..]), dstOff, src[srcOff..srcOff + n], i);
    }
  }

  /** A 16-bit field store `*(uint16_t *)(a + off) = v` on a little-endian host. */
  method StoreField16(a: array<byte>, off: nat, v: uint16)
    requires off + 2 <= a.Length
    modifies a
    ensures a[..] == Write(old(a[..]), off, StoreU16(v))
  {
    var b := StoreU16(v);
    a[off] := b[0];
    a[off + 1] := b[1];
    forall i | 0 <= i < a.Length ensures a[..][i] == Write(old(a[..]), off, b)[i] {
      WriteAt(old(a[..]), off, b, i);
    }
  }

  /** `dst_port = src_port`-style copy of a 16-bit field between two buffers:
      a little-endian load from `src` followed by a store into `dst`. */
  method CopyField16(dst: array<byte>, dstOff: nat, src: array<byte>, srcOff: nat)
    requires dst != src
    requires dstOff + 2 <= dst.Length && srcOff + 2 <= src.Length
    modifies dst
    ensures dst[..] == Write(old(dst[..]), dstOff, src[srcOff..srcOff + 2])
  {
    LoadStoreRoundTrip(src[srcOff], src[srcOff + 1], 0);
    assert src[srcOff..srcOff + 2] == [src[srcOff], src[srcOff + 1]];
    StoreField16(dst, dstOff, LoadU16(src[srcOff], src[srcOff + 1]));
  }

  /** Copy all content, then swap the Ethernet and the IPv4 addresses, each
      write reading from `packetIn`. */
  method CopyAndSwapAddresses(packetIn: array<byte>, packetOut: array<byte>)
    requires packetIn.Length == ETH_LEN && packetOut.Length == ETH_LEN && packetIn != packetOut
    modifies packetOut
    ensures packetOut[..] == AddressesSwapped(packetIn[..])
  {
    ghost var f := packetIn[..];
    Memcpy(packetOut, 0, packetIn, 0, ETH_LEN);
    assert packetOut[..] == f;
    // Ethernet header
    Memcpy(packetOut, ETH_DST, packetIn, ETH_SRC, ETH_ALEN);
    Memcpy(packetOut, ETH_SRC, packetIn, ETH_DST, ETH_ALEN);
    assert packetOut[..] == SwapMacs(f);
    // IP header
    Memcpy(packetOut, IP_DST, packetIn, IP_SRC, IPV4_LEN);
    Memcpy(packetOut, IP_SRC, packetIn, IP_DST, IPV4_LEN);
  }

  /** If the checksum field is not 0: zero it, then store `ipHdrChksum` of
      the header there. */
  method RecomputeIpChecksum(packetOut: array<byte>)
    requires packetOut.Length == ETH_LEN
    modifies packetOut
    ensures packetOut[..] == RefreshIpChecksum(old(packetOut[..]))
  {
    if LoadU16(packetOut[IP_SUM], packetOut[IP_SUM + 1]) != 0 {
      StoreField16(packetOut, IP_SUM, 0);
      var sum := IpHdrChksum(packetOut, IP_HDR);
      assert packetOut[IP_HDR..IP_HDR + IP_HDR_LEN] == IpHeader(packetOut[..]);
      StoreField16(packetOut, IP_SUM, sum);
    }
  }

  /** Swap the UDP ports, reading them from `packetIn`, and zero the UDP
      checksum. */
  method SwapUdpPorts(packetIn: array<byte>, packetOut: array<byte>)
    requires packetIn.Length == ETH_LEN && packetOut.Length == ETH_LEN && packetIn != packetOut
    modifies packetOut
    ensures packetOut[..] == ZeroUdpSum(SwapPorts(old(packetOut[..]), packetIn[..]))
  {
    CopyField16(packetOut, UDP_DST, packetIn, UDP_SRC);
    CopyField16(packetOut, UDP_SRC, packetIn, UDP_DST);
    StoreField16(packetOut, UDP_SUM, 0);
  }

  /**
   * `buildEchoPacket`: returns 1 and fills `packetOut` with the reply when
   * `packetIn` passes the five tests of an echo request for `id`; otherwise
   * returns -1 and leaves `packetOut` as it was.
   */
  method BuildEchoPacket(packetIn: array<byte>, packetOut: array<byte>, id: Identity) returns (result: int)
    requires packetIn.Length == ETH_LEN && packetOut.Length == ETH_LEN && packetIn != packetOut
    modifies packetOut
    ensures result == 1 || result == -1
    ensures result == 1 <==> IsEchoRequest(packetIn[..], id)
    ensures result == 1 ==> packetOut[..] == EchoFrame(packetIn[..])
    ensures result == -1 ==> packetOut[..] == old(packetOut[..])
  {
    result := 1;
    if IsEchoRequest(packetIn[..], id) {
      CopyAndSwapAddresses(packetIn, packetOut);
      RecomputeIpChecksum(packetOut);
      SwapUdpPorts(packetIn, packetOut);
    } else {
      result := -1;
    }
  }

  /**
   * One pass of the server loop after `recvfrom` returned `numbytes` into
   * `packetIn`: when the count is positive and the frame is an echo request,
   * the reply is built in `packetOut` and its first `numbytes` bytes are to
   * be sent to the reply's destination MAC, the request's source MAC;
   * otherwise nothing is sent and `packetOut` keeps what it held.
   */
  method ProcessOne(packetIn: array<byte>, packetOut: array<byte>, numbytes: int, id: Identity)
    returns (send: Option<Transmit>)
    requires packetIn.Length == ETH_LEN && packetOut.Length == ETH_LEN && packetIn != packetOut
    requires numbytes <= ETH_LEN
    modifies packetOut
    ensures send.Some? <==> numbytes > 0 && IsEchoRequest(packetIn[..], id)
    ensures send.Some? ==>
              packetOut[..] == EchoFrame(packetIn[..]) &&
              send.value == Transmit(packetOut[..numbytes], numbytes, packetOut[ETH_DST..ETH_DST + ETH_ALEN]) &&
              send.value.destMac == packetIn[ETH_SRC..ETH_SRC + ETH_ALEN]
    ensures send.None? ==> packetOut[..] == old(packetOut[..])
  {
    if numbytes > 0 {
      var result := BuildEchoPacket(packetIn, packetOut, id);
      if result == 1 {
        EchoSwapsMacs(packetIn[..]);
        send := Some(Transmit(packetOut[..numbytes], numbytes, packetOut[ETH_DST..ETH_DST + ETH_ALEN]));
        return;
      }
    }
    send := None;
  }

  /** A receiver of a reply whose request carried a checksum finds the reply's
      header checksum correct (section 1 of RFC 1071). */
  lemma EchoHeaderVerifies(f: seq<byte>)
    requires |f| == ETH_LEN && !(f[IP_SUM] == 0 && f[IP_SUM + 1] == 0)
    ensures IpChecksum(IpHeader(EchoFrame(f))) == 0
  {
    var r := EchoFrame(f);
    EchoIpChecksum(f);
    var h := IpHeader(ZeroIpSum(r));
    var c := IpChecksum(h);
    var hi: byte, lo: byte := c / 0x100, c % 0x100;
    ChecksumVerifies(h);
    var h': seq<byte> := h[10 := hi][11 := lo];
    assert IpHeader(r) == h';
  }

  /** Ethernet header of the reply: destination and source MAC swapped. */
  lemma EchoSwapsMacs(f: seq<byte>)
    requires |f| == ETH_LEN
    ensures EchoFrame(f)[ETH_DST..ETH_SRC] == f[ETH_SRC..ETH_TYPE]
    ensures EchoFrame(f)[ETH_SRC..ETH_TYPE] == f[ETH_DST..ETH_SRC]
  {
    var r := EchoFrame(f);
    forall i | ETH_DST <= i < ETH_TYPE ensures r[i] == f[Partner(i)] {
      EchoFrameAt(f, i);
    }
    SliceEq(r, f, ETH_DST, ETH_SRC, ETH_SRC);
    SliceEq(r, f, ETH_SRC, ETH_TYPE, ETH_DST);
  }

  /** IPv4 header of the reply: source and destination address swapped. */
  lemma EchoSwapsIps(f: seq<byte>)
    requires |f| == ETH_LEN
    ensures EchoFrame(f)[IP_DST..UDP_SRC] == f[IP_SRC..IP_DST]
    ensures EchoFrame(f)[IP_SRC..IP_DST] == f[IP_DST..UDP_SRC]
  {
    var r := EchoFrame(f);
    forall i | IP_SRC <= i < UDP_SRC ensures r[i] == f[Partner(i)] {
      EchoFrameAt(f, i);
    }
    SliceEq(r, f, IP_DST, UDP_SRC, IP_SRC);
    SliceEq(r, f, IP_SRC, IP_DST, IP_DST);
  }

  /** UDP header of the reply: ports swapped byte for byte, checksum zero. */
  lemma EchoSwapsPorts(f: seq<byte>)
    requires |f| == ETH_LEN
    ensures EchoFrame(f)[UDP_DST..UDP_DST + 2] == f[UDP_SRC..UDP_DST]
    ensures EchoFrame(f)[UDP_SRC..UDP_DST] == f[UDP_DST..UDP_DST + 2]
    ensures EchoFrame(f)[UDP_SUM..UDP_SUM + 2] == [0, 0]
  {
    var r := EchoFrame(f);
    forall i | UDP_SRC <= i < UDP_DST + 2 ensures r[i] == f[Partner(i)] {
      EchoFrameAt(f, i);
    }
    SliceEq(r, f, UDP_DST, UDP_DST + 2, UDP_SRC);
    SliceEq(r, f, UDP_SRC, UDP_DST, UDP_DST);
    EchoFrameBytes(f);
  }

  /** The reply to an echo request for `id` comes from this host: its source
      MAC and IPv4 address are the local ones, its source port is 7 (00 07 on
      the wire), and it goes back to the request's sender. */
  lemma EchoRepliesFromThisHost(f: seq<byte>, id: Identity)
    requires |f| == ETH_LEN && IsEchoRequest(f, id)
    ensures EchoFrame(f)[ETH_SRC..ETH_TYPE] == id.thisMac
    ensures EchoFrame(f)[IP_SRC..IP_DST] == id.thisIp
    ensures EchoFrame(f)[UDP_SRC..UDP_DST] == [0x00, 0x07]
    ensures EchoFrame(f)[ETH_DST..ETH_SRC] == f[ETH_SRC..ETH_TYPE]
    ensures EchoFrame(f)[IP_DST..UDP_SRC] == f[IP_SRC..IP_DST]
  {
    EchoSwapsMacs(f);
    EchoSwapsIps(f);
    EchoSwapsPorts(f);
    assert f[UDP_DST..UDP_DST + 2] == [f[UDP_DST], f[UDP_DST + 1]];
  }

  /** Everything else is the request's copy: the ether-type, the IPv4 header
      up to the checksum, the UDP length and the payload up to the end of the
      buffer. */
  lemma EchoKeepsOtherBytes(f: seq<byte>)
    requires |f| == ETH_LEN
    ensures EchoFrame(f)[ETH_TYPE..IP_SUM] == f[ETH_TYPE..IP_SUM]
    ensures EchoFrame(f)[UDP_DST + 2..UDP_SUM] == f[UDP_DST + 2..UDP_SUM]
    ensures EchoFrame(f)[UDP_HDR_END..] == f[UDP_HDR_END..]
  {
    var r := EchoFrame(f);
    forall i | ETH_TYPE <= i < IP_SUM || UDP_DST + 2 <= i < UDP_SUM || UDP_HDR_END <= i < ETH_LEN
      ensures r[i] == f[i]
    {
      EchoFrameAt(f, i);
    }
    SliceEq(r, f, ETH_TYPE, IP_SUM, ETH_TYPE);
    SliceEq(r, f, UDP_DST + 2, UDP_SUM, UDP_DST + 2);
    SliceEq(r, f, UDP_HDR_END, ETH_LEN, UDP_HDR_END);
  }

  /** Replying to a reply gives back the request, except for the two checksum
      fields. */
  lemma EchoOfEchoRestores(f: seq<byte>)
    requires |f| == ETH_LEN
    ensures forall i :: 0 <= i < ETH_LEN && !IsChecksumByte(i) ==> EchoFrame(EchoFrame(f))[i] == f[i]
  {
    var r := EchoFrame(f);
    forall i | 0 <= i < ETH_LEN && !IsChecksumByte(i)
      ensures EchoFrame(r)[i] == f[i]
    {
      var j := Partner(i);
      PartnerInvolutive(i);
      EchoFrameAt(r, i);
      EchoFrameAt(f, j);
    }
  }
}
