/** The Ethernet, IP, UDP and TCP headers that `net.c` fills in, and the fields that it reads back. */
module Packets {
  import opened Bytes
  import opened Checksums

  type Mac = s: seq<byte> | |s| == 6 witness [0, 0, 0, 0, 0, 0]
  type Address = s: seq<byte> | |s| == 4 witness [0, 0, 0, 0]
  type Short = v: nat | v < 0x1_0000
  type Long = v: nat | v < 0x1_0000_0000

  const FRAME_MAX: nat := 1518
  const ETH_IPV4: Short := 0x0800
  const IP_UDP: byte := 17
  const IP_TCP: byte := 6

  // ---- Headers as byte strings ----

  ghost function EthernetHeader(destination: Mac, source: Mac, kind: Short): (h: seq<byte>)
    ensures |h| == 14
  {
    destination + source + Be16(kind)
  }

  /** The header of `ip_header` with a given checksum field. */
  ghost function IpFields(protocol: byte, length: Short, id: Short, source: Address, destination: Address, sum: Short): (h: seq<byte>)
    ensures |h| == 20
  {
    [0x45, 0] + Be16(length) + Be16(id) + [0x40, 0] + [64, protocol] + Be16(sum) + source + destination
  }

  ghost function IpHeader(protocol: byte, length: Short, id: Short, source: Address, destination: Address): (h: seq<byte>)
    ensures |h| == 20
  {
    IpFields(protocol, length, id, source, destination, Complement(Words(IpFields(protocol, length, id, source, destination, 0))))
  }

  /** What a transport checksum covers before the segment: addresses, protocol and length. */
  ghost function PseudoSum(source: Address, destination: Address, protocol: byte, length: Short): nat {
    Words(source) + Words(destination) + protocol as int + length
  }

  ghost function UdpFields(sourcePort: Short, destinationPort: Short, payload: seq<byte>, sum: Short): (s: seq<byte>)
    requires 8 + |payload| < 0x1_0000
    ensures |s| == 8 + |payload|
  {
    Be16(sourcePort) + Be16(destinationPort) + Be16(8 + |payload|) + Be16(sum) + payload
  }

  ghost function TcpFields(sourcePort: Short, destinationPort: Short, sequence: Long, acknowledgement: Long, flags: byte,
                           payload: seq<byte>, sum: Short): (s: seq<byte>)
    ensures |s| == 20 + |payload|
  {
    Be16(sourcePort) + Be16(destinationPort) + Be32(sequence) + Be32(acknowledgement) + [0x50, flags] + Be16(4096) + Be16(sum)
    + [0, 0] + payload
  }

  /** The UDP segment of `make_udp_packet`; a complement of zero is sent as 0xFFFF. */
  ghost function UdpSegment(source: Address, destination: Address, sourcePort: Short, destinationPort: Short, payload: seq<byte>): seq<byte>
    requires 8 + |payload| < 0x1_0000
  {
    var c := Complement(PseudoSum(source, destination, IP_UDP, 8 + |payload|)
                        + Words(UdpFields(sourcePort, destinationPort, payload, 0)));
    UdpFields(sourcePort, destinationPort, payload, if c == 0 then ONES else c)
  }

  ghost function TcpSegment(source: Address, destination: Address, sourcePort: Short, destinationPort: Short, sequence: Long,
                            acknowledgement: Long, flags: byte, payload: seq<byte>): seq<byte>
    requires 20 + |payload| < 0x1_0000
  {
    var c := Complement(PseudoSum(source, destination, IP_TCP, 20 + |payload|)
                        + Words(TcpFields(sourcePort, destinationPort, sequence, acknowledgement, flags, payload, 0)));
    TcpFields(sourcePort, destinationPort, sequence, acknowledgement, flags, payload, c)
  }

  // ---- Where the standards put the fields ----

  /** A word with the most significant byte first. */
  function Net16(a: byte, b: byte): nat { 0x100 * a as int + b as int }

  lemma EthernetPlaces(destination: Mac, source: Mac, kind: Short)
    ensures var h := EthernetHeader(destination, source, kind);
      h[..6] == destination && h[6..12] == source && Net16(h[12], h[13]) == kind
  {
  }

  /** The fields of RFC 791: version 4, five words of header, not to be fragmented, 64 hops, the length of the packet, its addresses. */
  lemma IpPlaces(protocol: byte, length: Short, id: Short, source: Address, destination: Address)
    ensures var h := IpHeader(protocol, length, id, source, destination);
      && h[0] == 0x45 && h[1] == 0 && Net16(h[2], h[3]) == length && Net16(h[4], h[5]) == id && h[6] == 0x40 && h[7] == 0
      && h[8] == 64 && h[9] == protocol && h[12..16] == source && h[16..20] == destination
  {
    hide Words, Complement;
  }

  /** The fields of RFC 768. */
  lemma UdpPlaces(source: Address, destination: Address, sourcePort: Short, destinationPort: Short, payload: seq<byte>)
    requires 8 + |payload| < 0x1_0000
    ensures var s := UdpSegment(source, destination, sourcePort, destinationPort, payload);
      && Net16(s[0], s[1]) == sourcePort && Net16(s[2], s[3]) == destinationPort && Net16(s[4], s[5]) == |s| == 8 + |payload|
      && s[8..] == payload
  {
    hide Words, Complement, PseudoSum;
  }

  /** The fields of RFC 9293: five words of header, a window of 4096, no urgent data. */
  lemma TcpPlaces(source: Address, destination: Address, sourcePort: Short, destinationPort: Short, sequence: Long,
                  acknowledgement: Long, flags: byte, payload: seq<byte>)
    requires 20 + |payload| < 0x1_0000
    ensures var s := TcpSegment(source, destination, sourcePort, destinationPort, sequence, acknowledgement, flags, payload);
      && Net16(s[0], s[1]) == sourcePort && Net16(s[2], s[3]) == destinationPort
      && 0x1_0000 * Net16(s[4], s[5]) + Net16(s[6], s[7]) == sequence
      && 0x1_0000 * Net16(s[8], s[9]) + Net16(s[10], s[11]) == acknowledgement
      && s[12] == 0x50 && s[13] == flags && Net16(s[14], s[15]) == 4096 && Net16(s[18], s[19]) == 0 && s[20..] == payload
  {
    hide Words, Complement, PseudoSum;
  }

  /** The words a transport checksum covers besides the segment: both addresses, the protocol and the length. */
  lemma PseudoHeader(source: Address, destination: Address, protocol: byte, length: Short)
    ensures PseudoSum(source, destination, protocol, length)
         == Net16(source[0], source[1]) + Net16(source[2], source[3]) + Net16(destination[0], destination[1])
            + Net16(destination[2], destination[3]) + Net16(0, protocol) + length
  {
    WordsOfAddress(source);
    WordsOfAddress(destination);
  }

  // ---- Checksums of filled-in headers ----

  /** The checksum field lies at place 10 of the IP header, 6 of the UDP segment and 16 of the TCP segment. */
  lemma IpSumField(protocol: byte, length: Short, id: Short, source: Address, destination: Address, sum: Short)
    ensures var blank := IpFields(protocol, length, id, source, destination, 0);
      IpFields(protocol, length, id, source, destination, sum) == blank[..10] + Be16(sum) + blank[12..] && blank[10..12] == Be16(0)
  {
    hide Be16;
  }

  lemma UdpSumField(sourcePort: Short, destinationPort: Short, payload: seq<byte>, sum: Short)
    requires 8 + |payload| < 0x1_0000
    ensures var blank := UdpFields(sourcePort, destinationPort, payload, 0);
      UdpFields(sourcePort, destinationPort, payload, sum) == blank[..6] + Be16(sum) + blank[8..] && blank[6..8] == Be16(0)
  {
    hide Be16;
  }

  lemma TcpSumField(sourcePort: Short, destinationPort: Short, sequence: Long, acknowledgement: Long, flags: byte,
                    payload: seq<byte>, sum: Short)
    ensures var blank := TcpFields(sourcePort, destinationPort, sequence, acknowledgement, flags, payload, 0);
      && TcpFields(sourcePort, destinationPort, sequence, acknowledgement, flags, payload, sum) == blank[..16] + Be16(sum) + blank[18..]
      && blank[16..18] == Be16(0)
  {
    hide Be16, Be32;
  }

  /** The checksum of a filled-in IP header is zero. */
  lemma IpHeaderChecks(protocol: byte, length: Short, id: Short, source: Address, destination: Address)
    ensures Complement(Words(IpHeader(protocol, length, id, source, destination))) == 0
  {
    hide Words, Complement, Be16, IpFields;
    var blank := IpFields(protocol, length, id, source, destination, 0);
    var c := Complement(Words(blank));
    IpSumField(protocol, length, id, source, destination, c);
    WordsReplace(blank, 10, Be16(c));
    WordsOfBe16(c);
    WordsOfBe16(0);
    ComplementCompletes(Words(blank));
  }

  lemma UdpSegmentChecks(source: Address, destination: Address, sourcePort: Short, destinationPort: Short, payload: seq<byte>)
    requires 8 + |payload| < 0x1_0000
    ensures Complement(PseudoSum(source, destination, IP_UDP, 8 + |payload|)
                       + Words(UdpSegment(source, destination, sourcePort, destinationPort, payload))) == 0
  {
    hide Words, Complement, Be16, PseudoSum, UdpFields;
    var blank := UdpFields(sourcePort, destinationPort, payload, 0);
    var pseudo := PseudoSum(source, destination, IP_UDP, 8 + |payload|);
    var c := Complement(pseudo + Words(blank));
    var field := if c == 0 then ONES else c;
    UdpSumField(sourcePort, destinationPort, payload, field);
    UdpSumField(sourcePort, destinationPort, payload, 0);
    WordsReplace(blank, 6, Be16(field));
    WordsOfBe16(field);
    WordsOfBe16(0);
    ComplementCompletes(pseudo + Words(blank));
  }

  lemma TcpSegmentChecks(source: Address, destination: Address, sourcePort: Short, destinationPort: Short, sequence: Long,
                         acknowledgement: Long, flags: byte, payload: seq<byte>)
    requires 20 + |payload| < 0x1_0000
    ensures Complement(PseudoSum(source, destination, IP_TCP, 20 + |payload|)
                       + Words(TcpSegment(source, destination, sourcePort, destinationPort, sequence, acknowledgement, flags, payload))) == 0
  {
    hide Words, Complement, Be16, PseudoSum, TcpFields;
    var blank := TcpFields(sourcePort, destinationPort, sequence, acknowledgement, flags, payload, 0);
    var pseudo := PseudoSum(source, destination, IP_TCP, 20 + |payload|);
    var c := Complement(pseudo + Words(blank));
    TcpSumField(sourcePort, destinationPort, sequence, acknowledgement, flags, payload, c);
    TcpSumField(sourcePort, destinationPort, sequence, acknowledgement, flags, payload, 0);
    WordsReplace(blank, 16, Be16(c));
    WordsOfBe16(c);
    WordsOfBe16(0);
    ComplementCompletes(pseudo + Words(blank));
  }

  // ---- Filling in a packet ----

  /** `copy_bytes`, `write16` and `write32`. */
  method WriteBytes(packet: array<byte>, at: nat, bytes: seq<byte>)
    requires at + |bytes| <= packet.Length
    modifies packet
    ensures forall j :: 0 <= j < packet.Length ==> packet[j] == if at <= j < at + |bytes| then bytes[j - at] else old(packet[j])
  {
    for i := 0 to |bytes|
      invariant forall j :: 0 <= j < packet.Length ==> packet[j] == if at <= j < at + i then bytes[j - at] else old(packet[j])
    {
      packet[at + i] := bytes[i];
    }
  }

  /** Writes the next bytes of a header that begins at `from`. */
  method Append(packet: array<byte>, at: nat, bytes: seq<byte>, ghost from: nat)
    requires from <= at && at + |bytes| <= packet.Length
    modifies packet
    ensures packet[from..at + |bytes|] == old(packet[from..at]) + bytes && packet[..from] == old(packet[..from])
    ensures forall j :: at + |bytes| <= j < packet.Length ==> packet[j] == old(packet[j])
  {
    ghost var done, before := packet[from..at], packet[..from];
    WriteBytes(packet, at, bytes);
    assert packet[from..at] == done && packet[at..at + |bytes|] == bytes && packet[..from] == before;
    assert packet[from..at + |bytes|] == packet[from..at] + packet[at..at + |bytes|];
  }

  /** Writes a word inside a stretch of the packet. */
  method PatchWord(packet: array<byte>, from: nat, to: nat, at: nat, v: Short)
    requires from <= at && at + 2 <= to <= packet.Length
    modifies packet
    ensures packet[..from] == old(packet[..from]) && packet[to..] == old(packet[to..])
    ensures packet[from..to] == old(packet[from..to])[..at - from] + Be16(v) + old(packet[from..to])[at + 2 - from..]
  {
    hide Be16;
    ghost var was, w, a := packet[from..to], Be16(v), at - from;
    ghost var before, after := packet[..from], packet[to..];
    WriteBytes(packet, at, Be16(v));
    ghost var r := was[..a] + w + was[a + 2..];
    forall j | 0 <= j < to - from
      ensures packet[from..to][j] == r[j]
    {
      if j < a {
        assert r[j] == was[j];
      } else if j < a + 2 {
        assert r[j] == w[j - a];
      } else {
        assert r[j] == was[j];
      }
    }
    assert packet[..from] == before && packet[to..] == after;
  }

  method ZeroBytes(packet: array<byte>, at: nat, n: nat)
    requires at + n <= packet.Length
    modifies packet
    ensures forall j :: 0 <= j < packet.Length ==> packet[j] == if at <= j < at + n then 0 else old(packet[j])
  {
    for i := 0 to n
      invariant forall j :: 0 <= j < packet.Length ==> packet[j] == if at <= j < at + i then 0 else old(packet[j])
    {
      packet[at + i] := 0;
    }
  }

  /** `ethernet_header`. */
  method WriteEthernetHeader(packet: array<byte>, destination: Mac, source: Mac, kind: Short)
    requires packet.Length >= 14
    modifies packet
    ensures packet[..14] == EthernetHeader(destination, source, kind) && packet[14..] == old(packet[14..])
  {
    WriteBytes(packet, 0, destination);
    WriteBytes(packet, 6, source);
    WriteBytes(packet, 12, Be16(kind));
  }

  /** The fields of `ip_header` before the checksum is in. */
  method WriteIpFields(packet: array<byte>, protocol: byte, length: Short, id: Short, source: Address, destination: Address)
    requires packet.Length >= 34
    modifies packet
    ensures packet[14..34] == IpFields(protocol, length, id, source, destination, 0)
    ensures packet[..14] == old(packet[..14]) && packet[34..] == old(packet[34..])
  {
    ZeroBytes(packet, 14, 20);
    packet[14] := 0x45;
    WriteBytes(packet, 16, Be16(length));
    WriteBytes(packet, 18, Be16(id));
    WriteBytes(packet, 20, Be16(0x4000));
    packet[22] := 64;
    packet[23] := protocol;
    WriteBytes(packet, 26, source);
    WriteBytes(packet, 30, destination);
  }

  /** `ip_header`, behind the Ethernet header. */
  method WriteIpHeader(packet: array<byte>, protocol: byte, length: Short, id: Short, source: Address, destination: Address)
    requires packet.Length >= 34
    modifies packet
    ensures packet[14..34] == IpHeader(protocol, length, id, source, destination)
    ensures packet[..14] == old(packet[..14]) && packet[34..] == old(packet[34..])
  {
    hide Words, Complement, Be16, IpFields;
    WriteIpFields(packet, protocol, length, id, source, destination);
    var c := Checksum(packet, 14, 20);
    PatchWord(packet, 14, 34, 24, c);
    IpSumField(protocol, length, id, source, destination, c);
  }

  lemma WordsOfAddress(a: Address)
    ensures Words(a) == 0x100 * a[0] as int + a[1] as int + 0x100 * a[2] as int + a[3] as int
  {
    assert a[2..][2..] == [];
    assert Words(a[2..]) == 0x100 * a[2] as int + a[3] as int + Words(a[2..][2..]);
  }

  /** `transport_checksum` of the segment behind the IP header. */
  method TransportChecksum(packet: array<byte>, length: Short, protocol: byte) returns (c: nat)
    requires 34 + length <= packet.Length
    ensures c == Complement(PseudoSum(packet[26..30], packet[30..34], protocol, length) + Words(packet[34..34 + length]))
  {
    ghost var source, destination := packet[26..30], packet[30..34];
    WordsOfAddress(source);
    WordsOfAddress(destination);
    var sum: uint32 := packet[26] as uint32 * 0x100 + packet[27] as uint32;
    sum := sum + packet[28] as uint32 * 0x100 + packet[29] as uint32;
    sum := sum + packet[30] as uint32 * 0x100 + packet[31] as uint32;
    sum := sum + packet[32] as uint32 * 0x100 + packet[33] as uint32;
    sum := sum + protocol as uint32 + length as uint32;
    assert sum as int == PseudoSum(source, destination, protocol, length);
    sum := AddWords(sum, packet, 34, length);
    sum := Fold(sum);
    c := ONES - sum as int;
  }

  /** The fields of a UDP segment before the checksum is in. */
  method WriteUdpFields(packet: array<byte>, sourcePort: Short, destinationPort: Short, payload: seq<byte>)
    requires 42 + |payload| <= packet.Length && 8 + |payload| < 0x1_0000
    modifies packet
    ensures packet[34..42 + |payload|] == UdpFields(sourcePort, destinationPort, payload, 0) && packet[..34] == old(packet[..34])
  {
    WriteBytes(packet, 34, Be16(sourcePort));
    WriteBytes(packet, 36, Be16(destinationPort));
    WriteBytes(packet, 38, Be16(8 + |payload|));
    WriteBytes(packet, 40, Be16(0));
    WriteBytes(packet, 42, payload);
  }

  /** The fields of a TCP segment before the checksum is in. */
  method WriteTcpFields(packet: array<byte>, sourcePort: Short, destinationPort: Short, sequence: Long, acknowledgement: Long,
                        flags: byte, payload: seq<byte>)
    requires 54 + |payload| <= packet.Length
    modifies packet
    ensures packet[34..54 + |payload|] == TcpFields(sourcePort, destinationPort, sequence, acknowledgement, flags, payload, 0)
    ensures packet[..34] == old(packet[..34])
  {
    hide Be16, Be32;
    ghost var before := packet[..34];
    ZeroBytes(packet, 34, 20);
    Append(packet, 34, Be16(sourcePort), 34);
    Append(packet, 36, Be16(destinationPort), 34);
    Append(packet, 38, Be32(sequence), 34);
    Append(packet, 42, Be32(acknowledgement), 34);
    Append(packet, 46, [0x50, flags], 34);
    Append(packet, 48, Be16(4096), 34);
    ZeroWord();
    assert packet[34..52] == packet[34..50] + Be16(0);
    assert packet[34..54] == packet[34..52] + [0, 0];
    Append(packet, 54, payload, 34);
    assert packet[..34] == before;
  }

  lemma ZeroWord()
    ensures Be16(0) == [0, 0]
  {
  }

  /** `make_udp_packet` without the sending. */
  method MakeUdpPacket(packet: array<byte>, destinationMac: Mac, sourceMac: Mac, id: Short, source: Address, destination: Address,
                       sourcePort: Short, destinationPort: Short, payload: seq<byte>)
    requires 42 + |payload| <= packet.Length && 28 + |payload| < 0x1_0000
    modifies packet
    ensures packet[..34] == EthernetHeader(destinationMac, sourceMac, ETH_IPV4)
                            + IpHeader(IP_UDP, 28 + |payload|, id, source, destination)
    ensures packet[34..42 + |payload|] == UdpSegment(source, destination, sourcePort, destinationPort, payload)
  {
    hide Words, Complement, IpHeader, EthernetHeader, PseudoSum, Be16, UdpFields;
    var length := 8 + |payload|;
    WriteEthernetHeader(packet, destinationMac, sourceMac, ETH_IPV4);
    WriteIpHeader(packet, IP_UDP, 20 + length, id, source, destination);
    ghost var header := packet[..34];
    AddressesOf(IP_UDP, 20 + length, id, source, destination);
    assert header[14..34] == IpHeader(IP_UDP, 20 + length, id, source, destination);
    WriteUdpFields(packet, sourcePort, destinationPort, payload);
    SliceOfSlice(header, 14, 34, 12, 16);
    SliceOfSlice(header, 14, 34, 16, 20);
    assert packet[26..30] == header[26..30] == source && packet[30..34] == header[30..34] == destination;
    var c := TransportChecksum(packet, length, IP_UDP);
    PatchWord(packet, 34, 34 + length, 40, if c == 0 then ONES else c);
    UdpSumField(sourcePort, destinationPort, payload, if c == 0 then ONES else c);
    UdpSumField(sourcePort, destinationPort, payload, 0);
  }

  /** `make_tcp_packet` without the sending. */
  method MakeTcpPacket(packet: array<byte>, destinationMac: Mac, sourceMac: Mac, id: Short, source: Address, destination: Address,
                       sourcePort: Short, destinationPort: Short, sequence: Long, acknowledgement: Long, flags: byte,
                       payload: seq<byte>)
    requires 54 + |payload| <= packet.Length && 40 + |payload| < 0x1_0000
    modifies packet
    ensures packet[..34] == EthernetHeader(destinationMac, sourceMac, ETH_IPV4)
                            + IpHeader(IP_TCP, 40 + |payload|, id, source, destination)
    ensures packet[34..54 + |payload|] ==
            TcpSegment(source, destination, sourcePort, destinationPort, sequence, acknowledgement, flags, payload)
  {
    hide Words, Complement, IpHeader, EthernetHeader, PseudoSum, Be16, Be32, TcpFields;
    var length := 20 + |payload|;
    WriteEthernetHeader(packet, destinationMac, sourceMac, ETH_IPV4);
    WriteIpHeader(packet, IP_TCP, 20 + length, id, source, destination);
    ghost var header := packet[..34];
    AddressesOf(IP_TCP, 20 + length, id, source, destination);
    assert header[14..34] == IpHeader(IP_TCP, 20 + length, id, source, destination);
    WriteTcpFields(packet, sourcePort, destinationPort, sequence, acknowledgement, flags, payload);
    SliceOfSlice(header, 14, 34, 12, 16);
    SliceOfSlice(header, 14, 34, 16, 20);
    assert packet[26..30] == header[26..30] == source && packet[30..34] == header[30..34] == destination;
    var c := TransportChecksum(packet, length, IP_TCP);
    PatchWord(packet, 34, 34 + length, 50, c);
    TcpSumField(sourcePort, destinationPort, sequence, acknowledgement, flags, payload, c);
    TcpSumField(sourcePort, destinationPort, sequence, acknowledgement, flags, payload, 0);
  }

  lemma AddressesOf(protocol: byte, length: Short, id: Short, source: Address, destination: Address)
    ensures IpHeader(protocol, length, id, source, destination)[12..16] == source
    ensures IpHeader(protocol, length, id, source, destination)[16..20] == destination
  {
  }
}
