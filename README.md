# UDP echo responder on a raw socket — Dafny model

The responder listens on a raw Ethernet socket and answers RFC 862 Echo
requests sent to UDP port 7. It checks each inbound frame with five tests:
IPv4 ether-type, destination MAC of this interface, IP protocol UDP,
destination IPv4 address of this interface, and UDP destination port 7.
When a frame passes, it builds a reply in a second buffer and sends it back.
The reply is a copy of the request with the MACs, the IPv4 addresses and the
UDP ports swapped. The IPv4 header checksum is recomputed only when the
request carried one, and the UDP checksum is zeroed.

The model has three modules:

- `Wire` (`wire.dfy`): byte and machine-integer types, and the fixed offsets
  of the Ethernet/IPv4/UDP overlay on the frame buffer. It also holds the
  little-endian load and store of 16-bit fields, `htons`, and `Write`, the
  effect of a `memcpy` or field store on the buffer's contents.
- `Checksum` (`checksum.dfy`): `ipHdrChksum` as a method over a 20-byte
  array slice. It has two loops: the word sum, whose invariant ties the
  accumulator to `WordsSum`, and the carry fold, whose invariant keeps its
  `Fold` fixed. The method's postcondition ties its result to `IpChecksum`.
  The lemmas show the checksum is the one of section 3.1 of RFC 791, as
  section 1 of RFC 1071 computes and verifies it.
- `EchoServer` (`echoserver.dfy`): `buildEchoPacket` as a method on two
  distinct `array<byte>` buffers with `modifies packetOut`. One pass of
  `main`'s receive loop is `ProcessOne`, which returns the frame to send, if
  any. Both are proved against the function `EchoFrame`, which builds the
  reply in the source's order of steps. The lemmas state the reply byte by
  byte.

Layout and byte-order assumptions:

- The `union eth_buffer` overlay (`raw.h`) is not part of this model. The
  standard layout without options is assumed: destination MAC 0..6, source
  MAC 6..12, ether-type 12..14, IPv4 header 14..34 (protocol 23, checksum
  24..26, source 26..30, destination 30..34), UDP source port 34..36,
  destination port 36..38, checksum 40..42.
- `ETH_LEN`, the buffer size, is taken as 1518, the maximum Ethernet frame.
  The proofs only use that it is at least 42.
- The host is little-endian. A 16-bit field reads and writes its bytes low
  byte first, and `htons`/`ntohs` swap the two bytes. The tests
  `eth_type == ntohs(ETH_P_IP)` and `dst_port == ntohs(DST_PORT)` therefore
  read the wire bytes `08 00` and `00 07`.

## Model

| member | source | states |
|---|---|---|
| Checksum.IpHdrChksum | Aula06_SocketsRaw/socketUtils.c:167-181 | reads only the 20 bytes of the header slice and writes nothing; the result is `htons` of the complemented one's-complement sum of the ten big-endian words |
| Checksum.WordsSum | Aula06_SocketsRaw/socketUtils.c:172-173 | the accumulated sum of the first n big-endian words is at most n * 0xFFFF |
| Checksum.HeaderSum | Aula06_SocketsRaw/socketUtils.c:169-173 | the sum of the ten words is below 2^20, so the 32-bit accumulator never wraps |
| Checksum.FoldStep | Aula06_SocketsRaw/socketUtils.c:174-175 | one fold step strictly decreases a value of 2^16 or more, keeps it positive and keeps it modulo 0xFFFF, so the fold loop ends |
| Checksum.Fold | Aula06_SocketsRaw/socketUtils.c:174-175 | the folded value is below 2^16, congruent to the sum modulo 0xFFFF, and zero exactly when the sum is zero |
| Checksum.FoldIsEndAroundCarry | Aula06_SocketsRaw/socketUtils.c:174-175 | the fold maps 0 to 0 and any other sum to its residue modulo 0xFFFF in 1..0xFFFF (end-around carry) |
| Checksum.IpChecksum | Aula06_SocketsRaw/socketUtils.c:177-178 | the checksum `0xFFFF - Fold(sum)` added to the header sum gives a multiple of 0xFFFF |
| Wire.StoreHtonsIsBigEndian | Aula06_SocketsRaw/socketUtils.c:179-180 | a value passed through `htons` and stored occupies its high byte then its low byte |
| Wire.Htons | Aula06_SocketsRaw/socketUtils.c:179 | `htons` on a little-endian host: the stored bytes of the result are those of the argument in reverse order |
| Wire.HtonsInvolutive | Aula06_SocketsRaw/echoserver.c:26-30 | the byte swap undoes itself, so `ntohs`, the inverse of `htons`, is the same swap; this only justifies reading `ntohs` as `Htons` in the two tests |
| Wire.LoadStoreRoundTrip | Aula06_SocketsRaw/echoserver.c:50-51 | loading a 16-bit field and storing it back reproduces the two bytes, and storing then loading gives back the value |
| Checksum.ChecksumFieldIsSummed | Aula06_SocketsRaw/socketUtils.c:164-166 | the checksum field is summed as given: the header sum equals the sum with the field zeroed plus the field's word, so callers must zero it first |
| Checksum.ChecksumVerifies | Aula06_SocketsRaw/socketUtils.c:164-181 | with bytes 10-11 zero, storing the checksum there high byte first makes the folded sum 0xFFFF and the recomputed checksum 0 |
| Checksum.SampleHeader | Aula06_SocketsRaw/socketUtils.c:167-181 | a sample UDP header from 192.168.0.1 to 192.168.0.199 has checksum 0xB861, sent as `b8 61` |
| EchoServer.EtherTypeIsIp | Aula06_SocketsRaw/echoserver.c:26 | the ether-type test holds exactly when the wire bytes are `08 00` |
| EchoServer.ToEchoPort | Aula06_SocketsRaw/echoserver.c:30 | the destination-port test holds exactly when the wire bytes are `00 07` |
| EchoServer.ToThisMac | Aula06_SocketsRaw/echoserver.c:27 | the `memcmp` of the destination MAC with the local MAC gives 0 exactly when all six bytes agree |
| EchoServer.ToThisIp | Aula06_SocketsRaw/echoserver.c:29 | the `memcmp` of the destination IPv4 address with the local address gives 0 exactly when all four bytes agree |
| EchoServer.IsEchoRequest | Aula06_SocketsRaw/echoserver.c:26-30 | a frame is accepted exactly when its ether-type bytes are `08 00`, its destination MAC is the local MAC, its protocol byte is 17, its destination IPv4 address is the local address and its destination port bytes are `00 07`; failing any one of them rejects it |
| EchoServer.RefreshIpChecksum | Aula06_SocketsRaw/echoserver.c:43-47 | the checksum step changes no byte outside bytes 24-25, and changes nothing when they are both zero |
| EchoServer.EchoFrame | Aula06_SocketsRaw/echoserver.c:33-52 | the reply, built in the source's order by `SwapMacs` (lines 37-38), `SwapIps` (41-42), `RefreshIpChecksum` (43-47), `SwapPorts` (50-51) and `ZeroUdpSum` (52) over a full copy (33); it is as long as the request |
| EchoServer.BuildEchoPacket | Aula06_SocketsRaw/echoserver.c:21-61 | returns 1 exactly when all five tests hold, and -1 otherwise; on 1 the output buffer is `EchoFrame` of the input, on -1 it is unchanged |
| EchoServer.CopyAndSwapAddresses | Aula06_SocketsRaw/echoserver.c:33-42 | after the full copy and the four address `memcpy`s, reading from the input, the output is the request with MACs and IPv4 addresses swapped |
| EchoServer.RecomputeIpChecksum | Aula06_SocketsRaw/echoserver.c:43-47 | leaves the buffer alone when the checksum field reads 0; otherwise zeroes it and stores `ipHdrChksum` of the header there |
| EchoServer.SwapUdpPorts | Aula06_SocketsRaw/echoserver.c:50-52 | the UDP ports are set to the request's, swapped, and the UDP checksum is zeroed |
| EchoServer.Memcpy | Aula06_SocketsRaw/echoserver.c:33 | copying n bytes between two distinct buffers replaces exactly that range of the destination |
| EchoServer.StoreField16 | Aula06_SocketsRaw/echoserver.c:45 | a 16-bit field store replaces exactly the two bytes of the field with the value's little-endian bytes |
| EchoServer.CopyField16 | Aula06_SocketsRaw/echoserver.c:50-51 | a 16-bit field assignment between buffers copies the two bytes unchanged |
| EchoServer.ProcessOne | Aula06_SocketsRaw/echoserver.c:98-106 | sends exactly when `numbytes > 0` and the build succeeds; it then sends the first `numbytes` reply bytes to the reply's destination MAC, which is the request's source MAC; otherwise sends nothing and leaves the output buffer unchanged |
| EchoServer.RefreshIpChecksumAt | Aula06_SocketsRaw/echoserver.c:43-47 | the checksum step touches only bytes 24-25; it keeps a zero field; otherwise it stores the checksum of the header with the field zeroed, high byte first |
| EchoServer.EchoFrameAt | Aula06_SocketsRaw/echoserver.c:33-52 | outside the two checksum fields, reply byte i is request byte Partner(i), the other half of a swapped pair or i itself |
| EchoServer.EchoFrameBytes | Aula06_SocketsRaw/echoserver.c:33-52 | every reply byte outside the checksum fields comes from its partner in the request, and the UDP checksum bytes are 0 |
| EchoServer.EchoIpChecksum | Aula06_SocketsRaw/echoserver.c:43-47 | a zero inbound IP checksum stays zero; a non-zero one is replaced by the checksum of the reply's own header, after the address swap, with the field zeroed |
| EchoServer.EchoHeaderVerifies | Aula06_SocketsRaw/echoserver.c:43-47 | when the request carried an IP checksum, the reply's header verifies: its recomputed checksum is 0 |
| EchoServer.EchoSwapsMacs | Aula06_SocketsRaw/echoserver.c:37-38 | the reply's destination MAC is the request's source MAC and its source MAC the request's destination MAC |
| EchoServer.EchoSwapsIps | Aula06_SocketsRaw/echoserver.c:41-42 | the reply's destination IPv4 address is the request's source and its source the request's destination |
| EchoServer.EchoSwapsPorts | Aula06_SocketsRaw/echoserver.c:50-52 | the UDP ports are swapped byte for byte and the UDP checksum bytes are `00 00` |
| EchoServer.EchoRepliesFromThisHost | Aula06_SocketsRaw/echoserver.c:26-42 | a reply to a request accepted for an identity carries that identity's MAC and IPv4 address as source, port 7 as source port, and the sender's addresses as destination |
| EchoServer.EchoKeepsOtherBytes | Aula06_SocketsRaw/echoserver.c:33 | the ether-type, the IPv4 header before the checksum, the UDP length and everything after the UDP header are copied unchanged |
| EchoServer.EchoOfEchoRestores | Aula06_SocketsRaw/echoserver.c:33-52 | building the reply to a reply gives back the request, except for the two checksum fields |
| EchoServer.PartnerInvolutive | Aula06_SocketsRaw/echoserver.c:37-51 | the swap pairing is its own inverse and maps checksum bytes to checksum bytes |

## Left out

- `socketSetup` and `socketSetupSimpleServer` (socket creation, interface lookup, promiscuous mode): operating-system calls with no protocol logic.
- `recvfrom` and `sendto`: receiving is a given input buffer and byte count, and sending is the value `ProcessOne` returns. A failing send has no effect on the model.
- `printHelp`, the argument-count check in `main`, and the never-reached `shutdown`: console output and process exit.
- The endless `while (1)` loop: only one pass of it is modelled (`ProcessOne`). No state is carried between passes except the two buffers.
- `raw.h` is not part of this model. Its overlay layout and `ETH_LEN` are assumed as stated above.
- The `sockfd` and `sockaddr_ll` fields of `socketAux_t`: the identity is only the local MAC and IPv4 address.
- UDP checksum computation: the source leaves it unimplemented and only zeroes the field, and so does the model.
- Frame length: like the source, the build tests header bytes whatever `numbytes` is, so a short frame is tested against stale bytes of an earlier one.
- EchoServer.ProcessOne: requires `numbytes <= ETH_LEN`, which `recvfrom` guarantees because it is given `ETH_LEN` as the buffer length.
