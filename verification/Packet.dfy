/** The SYN packet with its IPv4 and TCP headers, checksums included. */
module Packet {
  import opened Bytes
  import opened Checksum

  const IP_HEADER: nat := 20
  const TCP_HEADER: nat := 20
  const PROTOCOL_TCP: byte := 6

  /** A port and an address, in network order as the socket structure holds them. */
  datatype SockAddr = SockAddr(port: bytes, addr: bytes)

  type Address = a: SockAddr | |a.port| == 2 && |a.addr| == 4 witness SockAddr([0, 0], [0, 0, 0, 0])

  function Htons(n: uint16): (r: bytes)
    ensures |r| == 2 && Word(Big, r[0], r[1]) == n
  {
    Stored(Big, n)
  }

  type uint32 = x: int | 0 <= x < 0x1_0000_0000

  function Htonl(n: uint32): (r: bytes)
    ensures |r| == 4 && Word(Big, r[0], r[1]) * 0x1_0000 + Word(Big, r[2], r[3]) == n
  {
    Htons(n / 0x1_0000) + Htons(n % 0x1_0000)
  }

  /** The IPv4 header of section 3.1 of RFC 791, its checksum still zero. */
  function IpHeader(src: Address, dst: Address): (r: bytes)
    ensures |r| == IP_HEADER
  {
    [4 * 16 + IP_HEADER / 4, 0] + Htons(IP_HEADER + TCP_HEADER) + Htons(0) + Htons(0)
    + [255, PROTOCOL_TCP, 0, 0] + src.addr + dst.addr
  }

  /** The TCP header of section 3.1 of RFC 793, its checksum still zero. */
  function TcpHeader(src: Address, dst: Address, seqNumber: uint32): (r: bytes)
    ensures |r| == TCP_HEADER
  {
    src.port + dst.port + Htonl(seqNumber) + Htonl(0) + [TCP_HEADER / 4 * 16, 2] + Htons(1460) + [0, 0] + Htons(0)
  }

  /** The pseudo-header that the TCP checksum covers besides the segment. */
  function PseudoHeader(src: Address, dst: Address): (r: bytes)
    ensures |r| == 12
  {
    src.addr + dst.addr + [0, PROTOCOL_TCP] + Htons(TCP_HEADER)
  }

  /** Copies bytes into the buffer at `k`. */
  method Put(a: array<byte>, k: nat, b: bytes)
    requires k + |b| <= a.Length
    modifies a
    ensures a[..k + |b|] == old(a[..k]) + b && forall j | k + |b| <= j < a.Length :: a[j] == old(a[j])
  {
    var i := 0;
    while i < |b|
      invariant 0 <= i <= |b|
      invariant forall j | 0 <= j < i :: a[k + j] == b[j]
      invariant forall j | 0 <= j < a.Length && !(k <= j < k + i) :: a[j] == old(a[j])
    {
      a[k + i] := b[i];
      i := i + 1;
    }
  }

  /** The flag byte is summed up bit by bit; only SYN is set. */
  method Flags() returns (flags: byte)
    ensures flags == 2
  {
    var bits: seq<nat> := [0, 1, 0, 0, 0, 0, 0, 0];
    var sum, weight, i := 0, 1, 0;
    while i < 8
      invariant 0 <= i <= 8 && weight >= 1
      invariant i <= 1 ==> weight == i + 1
      invariant sum == if i <= 1 then 0 else 2
    {
      sum := sum + bits[i] * weight;
      weight := 2 * weight;
      i := i + 1;
    }
    flags := sum;
  }

  /** Fills in the IP header field by field, in memory order. */
  method FillInIpHeader(a: array<byte>, src: Address, dst: Address)
    requires a.Length >= IP_HEADER
    modifies a
    ensures a[..IP_HEADER] == IpHeader(src, dst) && forall j | IP_HEADER <= j < a.Length :: a[j] == old(a[j])
  {
    hide Htons;
    Put(a, 0, [4 * 16 + IP_HEADER / 4, 0]);
    Put(a, 2, Htons(IP_HEADER + TCP_HEADER));
    Put(a, 4, Htons(0));
    Put(a, 6, Htons(0));
    Put(a, 8, [255, PROTOCOL_TCP, 0, 0]);
    Put(a, 12, src.addr);
    Put(a, 16, dst.addr);
  }

  method FillInTcpHeader(a: array<byte>, at: nat, src: Address, dst: Address, random: nat)
    requires a.Length >= at + TCP_HEADER
    modifies a
    ensures a[..at + TCP_HEADER] == old(a[..at]) + TcpHeader(src, dst, random % 4294967295)
    ensures forall j | at + TCP_HEADER <= j < a.Length :: a[j] == old(a[j])
  {
    hide Htons, Htonl;
    var flags := Flags();
    Put(a, at, src.port);
    Put(a, at + 2, dst.port);
    Put(a, at + 4, Htonl(random % 4294967295));
    Put(a, at + 8, Htonl(0));
    Put(a, at + 12, [TCP_HEADER / 4 * 16, flags]);
    Put(a, at + 14, Htons(1460));
    Put(a, at + 16, [0, 0]);
    Put(a, at + 18, Htons(0));
  }

  /** What the TCP checksum covers. */
  function Segment(src: Address, dst: Address, tcp: bytes): bytes { PseudoHeader(src, dst) + tcp }

  function SummedIp(order: Order, src: Address, dst: Address): (r: bytes)
    ensures |r| == IP_HEADER
  {
    var header := IpHeader(src, dst);
    Store(order, header, 10, Sum16(order, header))
  }

  function SummedTcp(order: Order, src: Address, dst: Address, seqNumber: uint32): (r: bytes)
    ensures |r| == TCP_HEADER
  {
    var header := TcpHeader(src, dst, seqNumber);
    Store(order, header, 16, Sum16(order, Segment(src, dst, header)))
  }

  /** Stores a word at offset `k` of the header that stands at `at`. */
  method StoreWord(order: Order, a: array<byte>, at: nat, size: nat, k: nat, w: uint16)
    requires k + 2 <= size && at + size <= a.Length
    modifies a
    ensures a[at..at + size] == Store(order, old(a[at..at + size]), k, w)
    ensures forall j | 0 <= j < at || at + size <= j < a.Length :: a[j] == old(a[j])
  {
    hide Stored;
    ghost var before := a[..];
    Put(a, at + k, Stored(order, w));
    assert a[..at + k + 2] == a[..][..at + k + 2] && before[..at + k] == old(a[..at + k]);
    Patched(before, a[..], at, size, k, Stored(order, w));
  }

  /** Two bytes exchanged in the middle of a header. */
  lemma Patched(before: bytes, after: bytes, at: nat, size: nat, k: nat, word: bytes)
    requires |before| == |after| && |word| == 2 && k + 2 <= size && at + size <= |before|
    requires after[..at + k + 2] == before[..at + k] + word
    requires forall j | at + k + 2 <= j < |after| :: after[j] == before[j]
    ensures var header := before[at..at + size]; after[at..at + size] == header[..k] + word + header[k + 2..]
    ensures forall j | 0 <= j < at || at + size <= j < |after| :: after[j] == before[j]
  {
    forall j | 0 <= j < at + k + 2
      ensures after[j] == if j < at + k then before[j] else word[j - at - k]
    {
      assert after[j] == (before[..at + k] + word)[j];
    }
  }

  /** Sums pseudo-header and TCP header and stores the result in the TCP header. */
  method SumTcp(order: Order, datagram: array<byte>, src: Address, dst: Address)
    requires datagram.Length >= IP_HEADER + TCP_HEADER
    modifies datagram
    ensures var tcp := old(datagram[20..40]);
            datagram[20..40] == Store(order, tcp, 16, Sum16(order, Segment(src, dst, tcp)))
    ensures forall j | 0 <= j < 20 || 40 <= j < datagram.Length :: datagram[j] == old(datagram[j])
  {
    hide PseudoHeader, Segment, Store, Stored, Sum16;
    var pseudogram := new byte[12 + TCP_HEADER];
    Put(pseudogram, 0, PseudoHeader(src, dst));
    Put(pseudogram, 12, datagram[20..40]);
    SegmentIs(src, dst, datagram[20..40]);
    assert pseudogram[..] == pseudogram[..32];
    var c := ComputeChecksum(order, pseudogram[..], 32);
    assert pseudogram[..][..32] == pseudogram[..32] == Segment(src, dst, datagram[20..40]);
    StoreWord(order, datagram, 20, 20, 16, c);
  }

  /** Sums the IP header and stores the result in it. */
  method SumIp(order: Order, datagram: array<byte>)
    requires datagram.Length >= IP_HEADER
    modifies datagram
    ensures var ip := old(datagram[..20]); datagram[..20] == Store(order, ip, 10, Sum16(order, ip))
    ensures forall j | 20 <= j < datagram.Length :: datagram[j] == old(datagram[j])
  {
    hide Store, Stored, Sum16;
    var d := ComputeChecksum(order, datagram[..], 20);
    assert datagram[..][..20] == datagram[..20] == datagram[0..20];
    StoreWord(order, datagram, 0, 20, 10, d);
    assert datagram[..20] == datagram[0..20];
  }

  /** Builds the packet: headers first, then the two checksums in place. */
  method CreateSynPacket(order: Order, src: Address, dst: Address, random: nat, len: nat)
    returns (datagram: array<byte>)
    requires len >= IP_HEADER + TCP_HEADER
    ensures fresh(datagram) && datagram.Length == len
    ensures datagram[..IP_HEADER] == SummedIp(order, src, dst)
    ensures datagram[IP_HEADER..IP_HEADER + TCP_HEADER] == SummedTcp(order, src, dst, random % 4294967295)
    ensures forall j | IP_HEADER + TCP_HEADER <= j < len :: datagram[j] == 0
  {
    hide IpHeader, TcpHeader, PseudoHeader, Segment, Store, Stored, SummedIp, SummedTcp, Sum16;
    datagram := new byte[len](_ => 0);
    FillInIpHeader(datagram, src, dst);
    FillInTcpHeader(datagram, IP_HEADER, src, dst, random);
    ghost var ip, tcp := IpHeader(src, dst), TcpHeader(src, dst, random % 4294967295);
    assert datagram[..40] == ip + tcp;
    assert datagram[..20] == datagram[..40][..20] == ip && datagram[20..40] == datagram[..40][20..] == tcp;
    SumTcp(order, datagram, src, dst);
    assert datagram[..20] == ip;
    SumIp(order, datagram);
    SummedAre(order, src, dst, random % 4294967295);
  }

  lemma SegmentIs(src: Address, dst: Address, tcp: bytes)
    ensures Segment(src, dst, tcp) == PseudoHeader(src, dst) + tcp
  {
  }

  lemma SummedAre(order: Order, src: Address, dst: Address, seqNumber: uint32)
    ensures var ip := IpHeader(src, dst); SummedIp(order, src, dst) == Store(order, ip, 10, Sum16(order, ip))
    ensures var tcp := TcpHeader(src, dst, seqNumber);
            SummedTcp(order, src, dst, seqNumber) == Store(order, tcp, 16, Sum16(order, Segment(src, dst, tcp)))
  {
  }

  // ----- What the packet is good for -----

  /** For an even length within the bound, hosts of either order store the checksum of RFC 1071. */
  lemma EvenStored(order: Order, b: bytes)
    requires |b| % 2 == 0 && |b| <= 131074
    ensures Stored(order, Sum16(order, b)) == Stored(Big, Reference(b))
  {
    hide *;
    TotalBound(order, b);
    if order == Little { StoredInNetworkOrder(b); } else { StoredOnBigEndianHost(b); }
  }

  lemma ZeroMeansZero(order: Order, b: bytes)
    requires |b| % 2 == 0 && |b| <= 131074 && Sum16(order, b) == 0
    ensures Reference(b) == 0
  {
    hide Sum16, Reference;
    EvenStored(order, b);
  }

  lemma FieldsZero(src: Address, dst: Address, seqNumber: uint32)
    ensures var ip := IpHeader(src, dst); ip[10] == 0 && ip[11] == 0
    ensures var tcp := TcpHeader(src, dst, seqNumber);
            |Segment(src, dst, tcp)| == 32 && Segment(src, dst, tcp)[28] == 0 && Segment(src, dst, tcp)[29] == 0
  {
    hide Htons, Htonl, PseudoHeader;
  }

  lemma StoredInSegment(order: Order, src: Address, dst: Address, tcp: bytes, w: uint16)
    requires |tcp| == TCP_HEADER
    ensures Segment(src, dst, Store(order, tcp, 16, w)) == Store(order, Segment(src, dst, tcp), 28, w)
  {
    hide PseudoHeader, Stored;
    var p := PseudoHeader(src, dst);
    assert (p + tcp)[..28] == p + tcp[..16] && (p + tcp)[30..] == tcp[18..];
  }

  /** Both layers verify at the receiver, by the code's own checksum and by the one of RFC 1071. */
  lemma PacketVerifies(order: Order, src: Address, dst: Address, seqNumber: uint32)
    ensures Sum16(order, SummedIp(order, src, dst)) == 0
    ensures Sum16(order, Segment(src, dst, SummedTcp(order, src, dst, seqNumber))) == 0
    ensures Reference(SummedIp(order, src, dst)) == 0
    ensures Reference(Segment(src, dst, SummedTcp(order, src, dst, seqNumber))) == 0
  {
    hide Sum16, Reference, IpHeader, TcpHeader, Segment, Store;
    var ip, tcp := IpHeader(src, dst), TcpHeader(src, dst, seqNumber);
    var segment := Segment(src, dst, tcp);
    FieldsZero(src, dst, seqNumber);
    StoredChecksumVerifies(order, ip, 10);
    ZeroMeansZero(order, SummedIp(order, src, dst));
    StoredInSegment(order, src, dst, tcp, Sum16(order, segment));
    StoredChecksumVerifies(order, segment, 28);
    ZeroMeansZero(order, Segment(src, dst, SummedTcp(order, src, dst, seqNumber)));
  }

  /** The packet does not depend on the byte order of the host that builds it. */
  lemma HostDoesNotMatter(src: Address, dst: Address, seqNumber: uint32)
    ensures SummedIp(Little, src, dst) == SummedIp(Big, src, dst)
    ensures SummedTcp(Little, src, dst, seqNumber) == SummedTcp(Big, src, dst, seqNumber)
  {
    hide Sum16, Reference, IpHeader, TcpHeader, Segment, Stored;
    var ip, segment := IpHeader(src, dst), Segment(src, dst, TcpHeader(src, dst, seqNumber));
    FieldsZero(src, dst, seqNumber);
    EvenStored(Little, ip);
    EvenStored(Big, ip);
    EvenStored(Little, segment);
    EvenStored(Big, segment);
  }

  // ----- What a receiver adds up -----

  /** Source, destination, a zero byte, the protocol number 6 and the segment's length 20, by index. */
  lemma PseudoFields(src: Address, dst: Address)
    ensures var p := PseudoHeader(src, dst);
            |p| == 12 && p[0..4] == src.addr && p[4..8] == dst.addr && p[8] == 0 && p[9] == 6 && p[10..12] == [0, 20]
  {
    hide Word;
  }

  lemma {:induction false} NetworkJoin(a: bytes, b: bytes)
    requires |a| % 2 == 0
    ensures Network(a + b) == Network(a) + Network(b)
    decreases |a|
  {
    hide Word;
    if a == [] {
      assert a + b == b;
    } else {
      assert (a + b)[2..] == a[2..] + b;
      NetworkJoin(a[2..], b);
    }
  }

  lemma NetworkOfTwelve(p: bytes)
    requires |p| == 12
    ensures Network(p) == 256 * (p[0] as int) + p[1] + 256 * (p[2] as int) + p[3] + 256 * (p[4] as int) + p[5]
                          + 256 * (p[6] as int) + p[7] + 256 * (p[8] as int) + p[9] + 256 * (p[10] as int) + p[11]
  {
    var q := p[2..];
    var r := q[2..];
    var s := r[2..];
    var t := s[2..];
    var u := t[2..];
    assert Network(u) == 256 * (p[10] as int) + p[11] + Network(u[2..]) && u[2..] == [];
    assert Network(t) == 256 * (p[8] as int) + p[9] + Network(u);
    assert Network(s) == 256 * (p[6] as int) + p[7] + Network(t);
    assert Network(r) == 256 * (p[4] as int) + p[5] + Network(s);
    assert Network(q) == 256 * (p[2] as int) + p[3] + Network(r);
  }

  lemma AllOnes(n: nat)
    ensures OnesSum(n) == 0xFFFF <==> n > 0 && n % 0xFFFF == 0
  {
  }

  /** The words of an address in network order. */
  function AddressSum(addr: bytes): nat
    requires |addr| == 4
  {
    256 * (addr[0] as int) + addr[1] + 256 * (addr[2] as int) + addr[3]
  }

  /**
   * What the receiver adds up: the words of both addresses, the protocol number 6, the length 20 and the words of the
   * TCP header make all ones in one's complement, and so do the words of the IP header.
   */
  lemma ReceiverSum(order: Order, src: Address, dst: Address, seqNumber: uint32)
    ensures var words := Network(SummedTcp(order, src, dst, seqNumber));
            var sum := AddressSum(src.addr) + AddressSum(dst.addr) + 6 + 20 + words;
            sum > 0 && sum % 0xFFFF == 0
    ensures Network(SummedIp(order, src, dst)) > 0 && Network(SummedIp(order, src, dst)) % 0xFFFF == 0
  {
    var ip, tcp, p := SummedIp(order, src, dst), SummedTcp(order, src, dst, seqNumber), PseudoHeader(src, dst);
    hide *;
    PacketVerifies(order, src, dst, seqNumber);
    SegmentIs(src, dst, tcp);
    PseudoFields(src, dst);
    NetworkJoin(p, tcp);
    NetworkOfTwelve(p);
    PseudoSum(p, src, dst);
    VerifiesExactly(p + tcp);
    VerifiesExactly(ip);
  }

  lemma VerifiesExactly(b: bytes)
    requires Reference(b) == 0
    ensures Network(b) > 0 && Network(b) % 0xFFFF == 0
  {
    hide OnesSum, ReferenceSum, Network;
    ReferenceIsOnesSum(b);
    AllOnes(Network(b));
  }

  lemma PseudoSum(p: bytes, src: Address, dst: Address)
    requires |p| == 12 && p[0..4] == src.addr && p[4..8] == dst.addr && p[8] == 0 && p[9] == 6 && p[10..12] == [0, 20]
    ensures AddressSum(src.addr) == 256 * (p[0] as int) + p[1] + 256 * (p[2] as int) + p[3]
    ensures AddressSum(dst.addr) == 256 * (p[4] as int) + p[5] + 256 * (p[6] as int) + p[7]
    ensures 256 * (p[8] as int) + p[9] == 6 && 256 * (p[10] as int) + p[11] == 20
  {
    assert p[0..4][0] == p[0] && p[0..4][1] == p[1] && p[0..4][2] == p[2] && p[0..4][3] == p[3];
    assert p[4..8][0] == p[4] && p[4..8][1] == p[5] && p[4..8][2] == p[6] && p[4..8][3] == p[7];
    assert p[10..12][0] == p[10] && p[10..12][1] == p[11];
  }

  lemma OutsideStore(order: Order, b: bytes, k: nat, w: uint16)
    requires k + 2 <= |b|
    ensures forall j | 0 <= j < |b| && j != k && j != k + 1 :: Store(order, b, k, w)[j] == b[j]
  {
  }

  lemma IpFields(src: Address, dst: Address)
    ensures var ip := IpHeader(src, dst);
            && ip[0] == 0x45 && ip[1] == 0 && ip[4..6] == Htons(0)
            && Word(Big, ip[2], ip[3]) == IP_HEADER + TCP_HEADER && Word(Big, ip[6], ip[7]) == 0
            && ip[8] == 255 && ip[9] == PROTOCOL_TCP && ip[12..16] == src.addr && ip[16..] == dst.addr
  {
    hide Htons, Word;
    var ip := IpHeader(src, dst);
    assert [ip[2], ip[3]] == Htons(IP_HEADER + TCP_HEADER) && [ip[6], ip[7]] == Htons(0);
  }

  lemma TcpFields(src: Address, dst: Address, seqNumber: uint32)
    ensures var tcp := TcpHeader(src, dst, seqNumber);
            && tcp[0..2] == src.port && tcp[2..4] == dst.port && tcp[4..8] == Htonl(seqNumber)
            && tcp[8..12] == Htonl(0) && tcp[12] == 0x50 && tcp[13] == 2 && tcp[14..16] == Htons(1460)
            && tcp[18..] == Htons(0)
  {
    hide Htons, Htonl;
  }

  /** The bytes of a number in network order, the highest first. */
  lemma NetworkOrder(n: uint16, m: uint32)
    ensures Htons(n) == [n / 256, n % 256] && Htonl(m) == Htons(m / 65536) + Htons(m % 65536)
  {
    hide Word;
  }

  /** The fields stand where RFC 791 and RFC 793 put them; of the flags, SYN alone is set. */
  lemma PacketFields(order: Order, src: Address, dst: Address, seqNumber: uint32)
    ensures var ip := SummedIp(order, src, dst);
            && |ip| == 20 && ip[0] / 16 == 4 && ip[0] % 16 * 4 == 20 && ip[1] == 0 && ip[2..4] == [0, 40]
            && ip[4..6] == [0, 0] && ip[6..8] == [0, 0] && ip[8] == 255 && ip[9] == 6
            && ip[12..16] == src.addr && ip[16..20] == dst.addr
    ensures var tcp := SummedTcp(order, src, dst, seqNumber);
            && |tcp| == 20 && tcp[0..2] == src.port && tcp[2..4] == dst.port
            && 16777216 * (tcp[4] as int) + 65536 * (tcp[5] as int) + 256 * (tcp[6] as int) + tcp[7] == seqNumber
            && tcp[8..12] == [0, 0, 0, 0] && tcp[12] / 16 * 4 == 20 && tcp[12] % 16 == 0 && tcp[13] == 2
            && 256 * (tcp[14] as int) + tcp[15] == 1460 && tcp[18..20] == [0, 0]
  {
    var ip, tcp := IpHeader(src, dst), TcpHeader(src, dst, seqNumber);
    hide Sum16, Word, Segment;
    OutsideStore(order, ip, 10, Sum16(order, ip));
    OutsideStore(order, tcp, 16, Sum16(order, Segment(src, dst, tcp)));
    hide Store;
    IpFields(src, dst);
    TcpFields(src, dst, seqNumber);
  }
}
