/** Raw IPv4/UDP packets with both checksums: onvm_test/rawudp.go. */
module RawUdp {
  import opened Bytes
  import opened Checksum
  import ChecksumAlgebra

  const UDP: byte := 17

  /** struct iphdr. It has no identification field. */
  class IpHdr {
    var vhl: byte
    var tos: byte
    var iplen: uint16
    var off: uint16
    var ttl: byte
    var proto: byte
    var csum: uint16
    var src: Address
    var dst: Address

    constructor (vhl: byte, tos: byte, off: uint16, ttl: byte, proto: byte)
      ensures this.vhl == vhl && this.tos == tos && iplen == 0 && this.off == off
      ensures this.ttl == ttl && this.proto == proto && csum == 0
      ensures src == [0, 0, 0, 0] && dst == [0, 0, 0, 0]
    {
      this.vhl, this.tos, iplen, this.off := vhl, tos, 0, off;
      this.ttl, this.proto, csum := ttl, proto, 0;
      src, dst := [0, 0, 0, 0], [0, 0, 0, 0];
    }

    /** What binary.Write emits: 18 octets. */
    function Octets(): (s: seq<byte>)
      reads this
      ensures |s| == 18
    {
      IpOctets(vhl, tos, iplen, off, ttl, proto, csum, src, dst)
    }

    /** iphdr.checksum */
    method Checksum()
      modifies this`csum
      ensures Verifies(Octets()) && csum != 0
    {
      csum := 0;
      ghost var front := [vhl, tos] + BigEndian16(iplen) + BigEndian16(off) + [ttl, proto];
      var b := Octets();
      assert b == front + [0, 0] + (src + dst);
      csum := ChecksumOf(b);
      assert Octets() == front + BigEndian16(csum) + (src + dst);
      FieldVerifies(b, front, src + dst, 4, csum, Octets());
    }
  }

  function IpOctets(vhl: byte, tos: byte, iplen: uint16, off: uint16, ttl: byte, proto: byte, csum: uint16,
                    src: Address, dst: Address): (s: seq<byte>)
    ensures |s| == 18
  {
    [vhl, tos] + BigEndian16(iplen) + BigEndian16(off) + [ttl, proto] + BigEndian16(csum) + src + dst
  }

  lemma ReplacePair(front: seq<byte>, x: byte, y: byte, back: seq<byte>, hi: byte, lo: byte)
    ensures (front + [x, y] + back)[|front| := hi][|front| + 1 := lo] == front + [hi, lo] + back
  {
  }

  /** The checksum field between what precedes and what follows it. */
  lemma ChecksumField(front: seq<byte>, back: seq<byte>, i: nat, c: uint16)
    requires |front| == 2 * i
    ensures
      var zeroed := front + [0, 0] + back;
      zeroed[2 * i] == zeroed[2 * i + 1] == 0 && PutWord(zeroed, i, c) == front + BigEndian16(c) + back
  {
    ReplacePair(front, 0, 0, back, c / 0x100, c % 0x100);
  }

  /** The checksum, put between what precedes and what follows its field. */
  lemma FieldVerifies(zeroed: seq<byte>, front: seq<byte>, back: seq<byte>, i: nat, c: uint16, filled: seq<byte>)
    requires |front| == 2 * i
    requires zeroed == front + [0, 0] + back && filled == front + BigEndian16(c) + back
    requires c == Transmitted(Folded(Sum(Words(zeroed)) % 0x1_0000_0000))
    ensures Verifies(filled) <==> LostCarries(Words(zeroed)) % 0xffff == 0
    ensures |zeroed| <= 131074 ==> Verifies(filled)
  {
    assert zeroed[2 * i] == zeroed[2 * i + 1] == 0 && filled == PutWord(zeroed, i, c) by {
      ChecksumField(front, back, i, c);
    }
    ChecksumSound(zeroed, i, c);
  }

  function UdpOctets(src: uint16, dst: uint16, ulen: uint16, csum: uint16): (s: seq<byte>)
    ensures |s| == 8
  {
    BigEndian16(src) + BigEndian16(dst) + BigEndian16(ulen) + BigEndian16(csum)
  }

  /** struct pseudohdr (RFC 768). */
  function PseudoOctets(src: Address, dst: Address, proto: byte, plen: uint16): (s: seq<byte>)
    ensures |s| == 12
  {
    src + dst + [0, proto] + BigEndian16(plen)
  }

  /** struct udphdr */
  class UdpHdr {
    var src: uint16
    var dst: uint16
    var ulen: uint16
    var csum: uint16

    constructor (src: uint16, dst: uint16)
      ensures this.src == src && this.dst == dst && ulen == 0 && csum == 0
    {
      this.src, this.dst, ulen, csum := src, dst, 0, 0;
    }

    function Octets(): (s: seq<byte>)
      reads this
      ensures |s| == 8
    {
      UdpOctets(src, dst, ulen, csum)
    }

    /** What udphdr.checksum adds up: pseudo header, header with a zero checksum
        and payload. */
    function Covered(ip: IpHdr, payload: seq<byte>): seq<byte>
      reads this, ip
    {
      PseudoOctets(ip.src, ip.dst, ip.proto, ulen) + UdpOctets(src, dst, ulen, 0) + payload
    }

    /** udphdr.checksum: for payloads of any length, odd ones included. */
    method Checksum(ip: IpHdr, payload: seq<byte>)
      modifies this`csum
      ensures Verifies(PseudoOctets(ip.src, ip.dst, ip.proto, ulen) + Octets() + payload)
              <==> LostCarries(Words(Covered(ip, payload))) % 0xffff == 0
      ensures |payload| <= 131054 ==> Verifies(PseudoOctets(ip.src, ip.dst, ip.proto, ulen) + Octets() + payload)
      ensures csum != 0
    {
      csum := 0;
      ghost var front := PseudoOctets(ip.src, ip.dst, ip.proto, ulen)
                         + (BigEndian16(src) + BigEndian16(dst) + BigEndian16(ulen));
      var b := PseudoOctets(ip.src, ip.dst, ip.proto, ulen);
      b := b + Octets();
      b := b + payload;
      assert b == Covered(ip, payload) == front + [0, 0] + payload;
      csum := ChecksumOf(b);
      ghost var filled := PseudoOctets(ip.src, ip.dst, ip.proto, ulen) + Octets() + payload;
      assert filled == front + BigEndian16(csum) + payload;
      FieldVerifies(b, front, payload, 9, csum, filled);
    }
  }

  /** BuildRawUdpIp. The addresses are the results of net.ParseIP(..).To4(),
      None when the text is no IPv4 address; darwin is runtime.GOOS. */
  method BuildRawUdpIp(srcIP: Option<Address>, dstIP: Option<Address>, srcPort: uint16, dstPort: uint16,
                       payload: seq<byte>, darwin: bool) returns (r: Option<seq<byte>>)
    ensures r.Some? <==> |payload| + 28 <= 0xffff
    ensures r.Some? ==> exists c, u ::
              IsPacket(r.value, AddressOr(srcIP), AddressOr(dstIP), srcPort, dstPort, payload, darwin, c, u)
    ensures r.Some? ==>
              var src := if srcIP.Some? then srcIP.value else [0, 0, 0, 0];
              var dst := if dstIP.Some? then dstIP.value else [0, 0, 0, 0];
              OnTheWire(r.value, src, dst, srcPort, dstPort, payload, darwin)
  {
    var udplen := 8 + |payload|;
    var totalLen := 20 + udplen;
    if totalLen > 0xffff {
      return None;
    }
    var ip, c := CompleteIp(srcIP, dstIP, totalLen);
    var udp, u := CompleteUdp(ip, srcPort, dstPort, udplen, payload);
    var b := Emit(ip.Octets(), udp, payload, darwin);
    Assembled(b, AddressOr(srcIP), AddressOr(dstIP), srcPort, dstPort, payload, darwin, c, u);
    PacketOctets(b, AddressOr(srcIP), AddressOr(dstIP), srcPort, dstPort, payload, darwin, c, u);
    return Some(b);
  }

  /** The IP header, its checksum set last. */
  method CompleteIp(srcIP: Option<Address>, dstIP: Option<Address>, totalLen: uint16) returns (ip: IpHdr,
                    ghost c: uint16)
    ensures fresh(ip) && ip.src == AddressOr(srcIP) && ip.dst == AddressOr(dstIP) && ip.proto == UDP
    ensures ip.Octets() == IpOctets(0x45, 0, totalLen, 0, 64, UDP, c, AddressOr(srcIP), AddressOr(dstIP))
    ensures c != 0 && Verifies(ip.Octets())
  {
    ip := new IpHdr(0x45, 0, 0, 64, UDP);
    if srcIP.Some? {
      ip.src := srcIP.value;
    }
    if dstIP.Some? {
      ip.dst := dstIP.value;
    }
    ip.iplen := totalLen;
    ip.Checksum();
    c := ip.csum;
  }

  /** The UDP header, its checksum set last. */
  method CompleteUdp(ip: IpHdr, srcPort: uint16, dstPort: uint16, udplen: uint16, payload: seq<byte>)
    returns (octets: seq<byte>, ghost u: uint16)
    requires |payload| <= 131054
    ensures octets == UdpOctets(srcPort, dstPort, udplen, u) && u != 0
    ensures Verifies(PseudoOctets(ip.src, ip.dst, ip.proto, udplen) + octets + payload)
  {
    var udp := new UdpHdr(srcPort, dstPort);
    udp.ulen := udplen;
    udp.Checksum(ip, payload);
    octets := udp.Octets();
    u := udp.csum;
  }

  /** The three writes, and the exchange of the length octets on darwin. */
  method Emit(header: seq<byte>, udp: seq<byte>, payload: seq<byte>, darwin: bool) returns (b: seq<byte>)
    requires |header| >= 4
    ensures
      var whole := header + udp + payload;
      b == if darwin then whole[2 := whole[3]][3 := whole[2]] else whole
  {
    b := header;
    b := b + udp;
    b := b + payload;
    if darwin {
      b := b[2 := b[3]][3 := b[2]];
    }
  }

  lemma Assembled(b: seq<byte>, src: Address, dst: Address, srcPort: uint16, dstPort: uint16,
                  payload: seq<byte>, darwin: bool, c: uint16, u: uint16)
    requires |payload| + 28 <= 0xffff && c != 0 && u != 0
    requires Verifies(HeaderFor(src, dst, |payload|, c))
    requires Verifies(PseudoOctets(src, dst, UDP, 8 + |payload|)
                      + UdpOctets(srcPort, dstPort, 8 + |payload|, u) + payload)
    requires
      var whole := HeaderFor(src, dst, |payload|, c) + UdpOctets(srcPort, dstPort, 8 + |payload|, u) + payload;
      b == if darwin then whole[2 := whole[3]][3 := whole[2]] else whole
    ensures IsPacket(b, src, dst, srcPort, dstPort, payload, darwin, c, u)
  {
    var h, d := HeaderFor(src, dst, |payload|, c), UdpOctets(srcPort, dstPort, 8 + |payload|, u);
    Associative(h, d, payload);
    Associative(PseudoOctets(src, dst, UDP, 8 + |payload|), d, payload);
    ExchangeInFront(h, d + payload);
  }

  lemma Associative(a: seq<byte>, b: seq<byte>, c: seq<byte>)
    ensures a + b + c == a + (b + c)
  {
  }

  lemma ExchangeInFront(h: seq<byte>, rest: seq<byte>)
    requires |h| == 18
    ensures
      var b := h + rest;
      b[2 := b[3]][3 := b[2]] == h[2 := h[3]][3 := h[2]] + rest
  {
  }

  function AddressOr(a: Option<Address>): Address {
    if a.Some? then a.value else [0, 0, 0, 0]
  }

  /** The IP header of a packet with this payload length and checksum. */
  function HeaderFor(src: Address, dst: Address, payloadLength: nat, c: uint16): (h: seq<byte>)
    requires payloadLength + 28 <= 0xffff
    ensures |h| == 18
  {
    IpOctets(0x45, 0, 28 + payloadLength, 0, 64, UDP, c, src, dst)
  }

  /** What BuildRawUdpIp promises of a packet: headers that verify, then the
      payload; on darwin the two octets of the IP length exchanged. */
  ghost predicate IsPacket(b: seq<byte>, src: Address, dst: Address, srcPort: uint16, dstPort: uint16,
                           payload: seq<byte>, darwin: bool, c: uint16, u: uint16)
  {
    && |payload| + 28 <= 0xffff
    && var h := HeaderFor(src, dst, |payload|, c);
    && var datagram := UdpOctets(srcPort, dstPort, 8 + |payload|, u) + payload;
    && c != 0 && u != 0
    && Verifies(h)
    && Verifies(PseudoOctets(src, dst, UDP, 8 + |payload|) + datagram)
    && b == (if darwin then h[2 := h[3]][3 := h[2]] else h) + datagram
  }

  /** The packet octet by octet: version 4 with a header length of 5, no type of
      service, the length (its octets exchanged on darwin), no fragment offset,
      64 hops, protocol 17, the checksum, source before destination; then the
      ports, the length and the checksum of UDP, and the payload. */
  ghost predicate OnTheWire(b: seq<byte>, src: Address, dst: Address, srcPort: uint16, dstPort: uint16,
                            payload: seq<byte>, darwin: bool)
  {
    && |b| == 26 + |payload|
    && b[0] == 0x45 && b[1] == 0
    && IsWord(if darwin then [b[3], b[2]] else [b[2], b[3]], 0, 28 + |payload|)
    && b[4] == 0 && b[5] == 0 && b[6] == 64 && b[7] == 17
    && b[10..14] == src && b[14..18] == dst
    && IsWord(b, 18, srcPort) && IsWord(b, 20, dstPort) && IsWord(b, 22, 8 + |payload|)
    && b[26..] == payload
    && !IsWord(b, 8, 0) && !IsWord(b, 24, 0)
    && Verifies([b[0], b[1]] + (if darwin then [b[3], b[2]] else [b[2], b[3]]) + b[4..18])
    && Verifies(src + dst + [0, 17] + b[22..24] + b[18..])
  }

  lemma IpOctetsAt(h: seq<byte>, src: Address, dst: Address, payloadLength: nat, c: uint16)
    requires payloadLength + 28 <= 0xffff && h == HeaderFor(src, dst, payloadLength, c)
    ensures h[0] == 0x45 && h[1] == 0 && h[4] == 0 && h[5] == 0 && h[6] == 64 && h[7] == 17
    ensures IsWord(h, 2, 28 + payloadLength)
    ensures h[10..14] == src && h[14..18] == dst && IsWord(h, 8, c)
  {
    BigEndianIsWord(28 + payloadLength);
    BigEndianIsWord(c);
    var l, k := BigEndian16(28 + payloadLength), BigEndian16(c);
    assert h == [0x45, 0, l[0], l[1], 0, 0, 64, 17, k[0], k[1]] + src + dst;
  }

  lemma UdpOctetsAt(d: seq<byte>, srcPort: uint16, dstPort: uint16, ulen: uint16, u: uint16)
    requires d == UdpOctets(srcPort, dstPort, ulen, u)
    ensures IsWord(d, 0, srcPort) && IsWord(d, 2, dstPort) && IsWord(d, 4, ulen) && d[4..6] == BigEndian16(ulen)
    ensures IsWord(d, 6, u)
  {
    BigEndianIsWord(srcPort);
    BigEndianIsWord(dstPort);
    BigEndianIsWord(ulen);
    BigEndianIsWord(u);
  }

  lemma PacketOctets(b: seq<byte>, src: Address, dst: Address, srcPort: uint16, dstPort: uint16,
                     payload: seq<byte>, darwin: bool, c: uint16, u: uint16)
    requires IsPacket(b, src, dst, srcPort, dstPort, payload, darwin, c, u)
    ensures OnTheWire(b, src, dst, srcPort, dstPort, payload, darwin)
  {
    var h, d := HeaderFor(src, dst, |payload|, c), UdpOctets(srcPort, dstPort, 8 + |payload|, u);
    var h1 := if darwin then h[2 := h[3]][3 := h[2]] else h;
    IpOctetsAt(h, src, dst, |payload|, c);
    UdpOctetsAt(d, srcPort, dstPort, 8 + |payload|, u);
    Halves(b, h1, d, payload);
    assert h == [b[0], b[1]] + (if darwin then [b[3], b[2]] else [b[2], b[3]]) + b[4..18];
    assert PseudoOctets(src, dst, UDP, 8 + |payload|) + (d + payload)
        == src + dst + [0, 17] + b[22..24] + b[18..];
  }

  lemma Halves(b: seq<byte>, h: seq<byte>, d: seq<byte>, payload: seq<byte>)
    requires |h| == 18 && |d| == 8 && b == h + (d + payload)
    ensures |b| == 26 + |payload| && b[..18] == h && b[18..] == d + payload && b[26..] == payload
    ensures forall i | 0 <= i < 18 :: b[i] == h[i]
    ensures forall i | 0 <= i < 8 :: b[18 + i] == d[i]
    ensures b[22..24] == d[4..6] && b[10..14] == h[10..14] && b[14..18] == h[14..18] && b[4..18] == h[4..18]
  {
  }

  /** A packet is two octets shorter than its length field says, and its IP
      header verifies as sent except on darwin, where it does only when the
      two octets of the length are equal. */
  lemma PacketOnTheWire(b: seq<byte>, src: Address, dst: Address, srcPort: uint16, dstPort: uint16,
                        payload: seq<byte>, darwin: bool, c: uint16, u: uint16)
    requires IsPacket(b, src, dst, srcPort, dstPort, payload, darwin, c, u)
    ensures |b| == 28 + |payload| - 2
    ensures b[26..] == payload
    ensures Verifies(b[..18]) <==> !darwin || (28 + |payload|) / 0x100 == (28 + |payload|) % 0x100
  {
    var h := HeaderFor(src, dst, |payload|, c);
    var h1 := if darwin then h[2 := h[3]][3 := h[2]] else h;
    assert b == h1 + (UdpOctets(srcPort, dstPort, 8 + |payload|, u) + payload);
    assert b[..18] == h1;
    SwappedLength(h);
  }

  lemma NoSmallMultiple(x: int)
    ensures -0xffff < x < 0xffff && x % 0xffff == 0 ==> x == 0
  {
  }

  /** Exchanging the two octets of the length in a header that verifies. */
  lemma SwappedLength(h: seq<byte>)
    requires |h| == 18 && Verifies(h)
    ensures Verifies(h[2 := h[3]][3 := h[2]]) <==> h[2] == h[3]
  {
    if h[2] == h[3] {
      assert h[2 := h[3]][3 := h[2]] == h;
    } else {
      var w := Word16(h[3], h[2]);
      assert Words(h[2 := h[3]][3 := h[2]]) == Words(PutWord(h, 1, w)) by {
        assert h[2 := h[3]][3 := h[2]] == PutWord(h, 1, w);
      }
      ChecksumAlgebra.CorruptionDetectedExactly(h, 1, w);
      assert w - Word16(h[2], h[3]) == 0xff * (h[3] as int - h[2]);
      NoSmallMultiple(w - Word16(h[2], h[3]));
    }
  }
}
