/**
 The receiving side of TCP in `net.c`, against a network that may lose, repeat and reorder the segments of
 one peer: `polls` are the frames that the driver will hand over, one for each poll, empty for none.
 */
module TcpReceiver {
  import opened Bytes
  import opened ModArith
  import opened Checksums
  import opened Packets

  const WORD: nat := 0x1_0000_0000
  /** The most that a frame holds behind its Ethernet and IP headers. */
  const PAYLOAD_MAX: nat := FRAME_MAX - 34

  datatype Segment = Segment(sequence: Long, acknowledgement: Long, flags: byte, payload: seq<byte>) {
    predicate Fin() { flags as int % 2 == 1 }
    predicate Reset() { flags as int / 4 % 2 == 1 }
  }

  datatype Peer = Peer(address: Address, port: Short, localPort: Short)

  // ---- Reading a frame ----

  function Read32(f: seq<byte>, at: nat): (v: Long)
    requires at + 4 <= |f|
  {
    0x1_0000 * Read16(f, at) + Read16(f, at + 2)
  }

  function HeaderLength(f: seq<byte>): (n: nat)
    requires |f| >= 54
    ensures n <= 60
  {
    f[46] as int / 16 * 4
  }

  /** The conditions of `tcp_wait`. */
  predicate Accepts(f: seq<byte>, peer: Peer) {
    && |f| >= 54 && Read16(f, 12) == ETH_IPV4 && f[23] == IP_TCP && f[26..30] == peer.address
    && Read16(f, 34) == peer.port && Read16(f, 36) == peer.localPort
    && Read16(f, 16) >= 20 + HeaderLength(f)
  }

  function PayloadLength(f: seq<byte>): (n: nat)
    requires |f| >= 54 && Read16(f, 16) >= 20 + HeaderLength(f)
  {
    Read16(f, 16) - 20 - HeaderLength(f)
  }

  /** The frame holds all of the IP packet that its header announces. */
  predicate Complete(f: seq<byte>)
    requires |f| >= 54
  {
    14 + Read16(f, 16) <= |f|
  }

  function SegmentOf(f: seq<byte>, peer: Peer): Segment
    requires Accepts(f, peer) && Complete(f)
  {
    Segment(Read32(f, 38), Read32(f, 42), f[47], f[34 + HeaderLength(f)..14 + Read16(f, 16)])
  }

  lemma Read16Be(f: seq<byte>, at: nat, v: Short)
    requires at + 2 <= |f| && f[at..at + 2] == Be16(v)
    ensures Read16(f, at) == v
  {
    assert f[at] == f[at..at + 2][0] && f[at + 1] == f[at..at + 2][1];
  }

  lemma Read32Be(f: seq<byte>, at: nat, v: Long)
    requires at + 4 <= |f| && f[at..at + 4] == Be32(v)
    ensures Read32(f, at) == v
  {
    assert f[at..at + 2] == f[at..at + 4][..2] == Be16(v / 0x1_0000);
    assert f[at + 2..at + 4] == f[at..at + 4][2..] == Be16(v % 0x1_0000);
    Read16Be(f, at, v / 0x1_0000);
    Read16Be(f, at + 2, v % 0x1_0000);
  }

  /** FIN is the lowest control bit of RFC 9293, RST the third. */
  lemma ControlBits(seg: Segment)
    ensures seg.Fin() <==> (seg.flags as bv8) & 0x01 == 0x01
    ensures seg.Reset() <==> (seg.flags as bv8) & 0x04 == 0x04
  {
  }

  /** A double word with the most significant byte first. */
  function Net32(a: byte, b: byte, c: byte, d: byte): nat {
    0x100_0000 * a as int + 0x1_0000 * b as int + 0x100 * c as int + d as int
  }

  /**
   Any Ethernet frame that carries an IP packet without options and in it a header of at least twenty bytes, with its
   options, and a payload: it is accepted exactly when type, protocol, source and ports are right, and then the segment
   has the fields where RFC 9293 puts them, the payload starting behind the options.
   */
  lemma FrameIsRead(peer: Peer, ethernet: seq<byte>, ip: seq<byte>, tcp: seq<byte>, payload: seq<byte>, padding: seq<byte>)
    requires |ethernet| == 14 && |ip| == 20 && 20 <= |tcp| <= 60 && |tcp| == 4 * (tcp[12] as int / 16)
    requires Net16(ip[2], ip[3]) == 20 + |tcp| + |payload|
    ensures var f := ethernet + ip + tcp + payload + padding;
      && (Accepts(f, peer) <==>
          && ethernet[12] == 8 && ethernet[13] == 0 && ip[9] == 6 && ip[12..16] == peer.address
          && Net16(tcp[0], tcp[1]) == peer.port && Net16(tcp[2], tcp[3]) == peer.localPort)
      && (Accepts(f, peer) ==> Complete(f))
      && (Accepts(f, peer) ==> SegmentOf(f, peer).payload == payload && SegmentOf(f, peer).flags == tcp[13])
      && (Accepts(f, peer) ==> SegmentOf(f, peer).sequence == Net32(tcp[4], tcp[5], tcp[6], tcp[7]))
      && (Accepts(f, peer) ==> SegmentOf(f, peer).acknowledgement == Net32(tcp[8], tcp[9], tcp[10], tcp[11]))
  {
    var f := ethernet + ip + tcp + payload + padding;
    var n := |tcp|;
    assert f[..14] == ethernet && f[14..34] == ip && f[34..34 + n] == tcp && f[34 + n..34 + n + |payload|] == payload;
    assert f[12] == ethernet[12] && f[13] == ethernet[13];
    assert f[16] == ip[2] && f[17] == ip[3] && f[23] == ip[9] && f[26..30] == ip[12..16];
    assert f[34] == tcp[0] && f[35] == tcp[1] && f[36] == tcp[2] && f[37] == tcp[3];
    assert f[38] == tcp[4] && f[39] == tcp[5] && f[40] == tcp[6] && f[41] == tcp[7];
    assert f[42] == tcp[8] && f[43] == tcp[9] && f[44] == tcp[10] && f[45] == tcp[11] && f[46] == tcp[12] && f[47] == tcp[13];
  }

  /** What is accepted, on the bytes of a frame: too short a frame or too small a length is not. */
  lemma AcceptedBytes(f: seq<byte>, peer: Peer)
    ensures Accepts(f, peer) <==>
            && |f| >= 54 && f[12] == 8 && f[13] == 0 && f[23] == 6 && f[26..30] == peer.address
            && Net16(f[34], f[35]) == peer.port && Net16(f[36], f[37]) == peer.localPort
            && Net16(f[16], f[17]) >= 20 + 4 * (f[46] as int / 16)
  {
  }

  /** A frame that `make_tcp_packet` builds is accepted exactly when source address, source port and destination port are the peer's. */
  lemma BuiltIsAccepted(peer: Peer, mac: Mac, mac': Mac, id: Short, source: Address, destination: Address, sourcePort: Short,
                        destinationPort: Short, sequence: Long, acknowledgement: Long, flags: byte, payload: seq<byte>, padding: seq<byte>)
    requires 40 + |payload| < 0x1_0000
    ensures var f := EthernetHeader(mac, mac', ETH_IPV4) + IpHeader(IP_TCP, 40 + |payload|, id, source, destination)
                     + TcpSegment(source, destination, sourcePort, destinationPort, sequence, acknowledgement, flags, payload) + padding;
      Accepts(f, peer) <==> source == peer.address && sourcePort == peer.port && destinationPort == peer.localPort
  {
    hide Words, Complement, Be16, Be32, Read16, Read32, Accepts;
    var ip := IpHeader(IP_TCP, 40 + |payload|, id, source, destination);
    var segment := TcpSegment(source, destination, sourcePort, destinationPort, sequence, acknowledgement, flags, payload);
    var f := EthernetHeader(mac, mac', ETH_IPV4) + ip + segment + padding;
    var ethernet, tcp := EthernetHeader(mac, mac', ETH_IPV4), segment[..20];
    assert segment[20..] == payload && segment == tcp + payload;
    assert f == ethernet + ip + tcp + payload + padding;
    assert ethernet[12..14] == Be16(ETH_IPV4) && ip[2..4] == Be16(40 + |payload|) && ip[12..16] == source && ip[9] == IP_TCP;
    assert tcp[..2] == Be16(sourcePort) && tcp[2..4] == Be16(destinationPort) && tcp[12] == 0x50;
    Net16Be(ethernet, 12, ETH_IPV4);
    Net16Be(ip, 2, 40 + |payload|);
    Net16Be(tcp, 0, sourcePort);
    Net16Be(tcp, 2, destinationPort);
    FrameIsRead(peer, ethernet, ip, tcp, payload, padding);
  }

  lemma Net16Be(s: seq<byte>, at: nat, v: Short)
    requires at + 2 <= |s| && s[at..at + 2] == Be16(v)
    ensures Net16(s[at], s[at + 1]) == v && (v == ETH_IPV4 ==> s[at] == 8 && s[at + 1] == 0)
  {
    assert s[at] == s[at..at + 2][0] && s[at + 1] == s[at..at + 2][1];
  }

  /** A frame that `make_tcp_packet` builds is read back with the fields and the payload it was built from, padded or not. */
  lemma BuiltIsRead(peer: Peer, mac: Mac, mac': Mac, id: Short, local: Address, sequence: Long, acknowledgement: Long,
                    flags: byte, payload: seq<byte>, padding: seq<byte>)
    requires 40 + |payload| < 0x1_0000
    ensures var f := EthernetHeader(mac, mac', ETH_IPV4) + IpHeader(IP_TCP, 40 + |payload|, id, peer.address, local)
                     + TcpSegment(peer.address, local, peer.port, peer.localPort, sequence, acknowledgement, flags, payload) + padding;
      && Accepts(f, peer) && Complete(f)
      && SegmentOf(f, peer) == Segment(sequence, acknowledgement, flags, payload)
  {
    hide Words, Complement, Be16, Be32, Read16, Read32;
    var ip := IpHeader(IP_TCP, 40 + |payload|, id, peer.address, local);
    var tcp := TcpSegment(peer.address, local, peer.port, peer.localPort, sequence, acknowledgement, flags, payload);
    var f := EthernetHeader(mac, mac', ETH_IPV4) + ip + tcp + padding;
    assert f[12..14] == Be16(ETH_IPV4);
    assert f[14..34] == ip && f[34..54 + |payload|] == tcp;
    assert f[16..18] == ip[2..4] == Be16(40 + |payload|) && f[26..30] == ip[12..16] == peer.address;
    assert f[23] == ip[9] == IP_TCP;
    assert f[34..36] == tcp[..2] == Be16(peer.port) && f[36..38] == tcp[2..4] == Be16(peer.localPort);
    assert f[38..42] == tcp[4..8] == Be32(sequence) && f[42..46] == tcp[8..12] == Be32(acknowledgement);
    assert f[46] == tcp[12] == 0x50 && f[47] == tcp[13] == flags;
    assert f[54..54 + |payload|] == tcp[20..] == payload;
    Read16Be(f, 12, ETH_IPV4);
    Read16Be(f, 16, 40 + |payload|);
    Read16Be(f, 34, peer.port);
    Read16Be(f, 36, peer.localPort);
    Read32Be(f, 38, sequence);
    Read32Be(f, 42, acknowledgement);
  }

  // ---- The peer's stream ----

  /**
   A segment of the peer's stream: its payload is the slice that its sequence number names, counting modulo
   2^32 from the base, and only the end of the stream carries FIN.
   */
  ghost predicate Genuine(seg: Segment, stream: seq<byte>, base: Long) {
    && (seg.payload != [] ==> exists o: nat :: IsSlice(seg, stream, base, o))
    && (seg.Fin() ==> (seg.sequence + |seg.payload|) % WORD == (base + |stream|) % WORD)
  }

  ghost predicate IsSlice(seg: Segment, stream: seq<byte>, base: Long, o: nat) {
    && o + |seg.payload| <= |stream| && seg.payload == stream[o..o + |seg.payload|]
    && seg.sequence == (base + o) % WORD
  }

  /** Every frame that meets those conditions is whole and carries a genuine segment. */
  ghost predicate GenuineFrame(f: seq<byte>, peer: Peer, stream: seq<byte>, base: Long) {
    |f| <= FRAME_MAX && (Accepts(f, peer) ==> Complete(f) && Genuine(SegmentOf(f, peer), stream, base))
  }

  /** Sequence numbers of a stream shorter than 2^32 bytes name one place each. */
  lemma SamePlace(base: Long, i: nat, j: nat)
    requires i < WORD && j < WORD && (base + i) % WORD == (base + j) % WORD
    ensures i == j
  {
    var k := ToMultiple(base + i, base + j, WORD);
    assert i - j == k * WORD;
  }

  /** A payload that starts at the acknowledged place is the next slice of the stream. */
  lemma NextSlice(seg: Segment, stream: seq<byte>, base: Long, taken: nat)
    requires Genuine(seg, stream, base) && |stream| < WORD && taken <= |stream|
    requires seg.payload != [] && seg.sequence == (base + taken) % WORD
    ensures IsSlice(seg, stream, base, taken)
  {
    var o: nat :| IsSlice(seg, stream, base, o);
    SamePlace(base, o, taken);
  }

  lemma Advance(base: Long, taken: nat, n: nat)
    ensures ((base + taken) % WORD + n) % WORD == (base + taken + n) % WORD
  {
    CongMod(base + taken, WORD);
    CongAdd((base + taken) % WORD, base + taken, n, n, WORD);
  }

  /** The next payload of the stream, for a receiver that has acknowledged up to here. */
  predicate InOrder(seg: Segment, acknowledgement: Long) {
    seg.payload != [] && seg.sequence == acknowledgement
  }

  ghost predicate IsSegment(f: seq<byte>, peer: Peer, seg: Segment) {
    Accepts(f, peer) && Complete(f) && seg == SegmentOf(f, peer)
  }

  /** What a receiver passes over: frames that are not for it, and segments that neither end the connection nor come next. */
  predicate Ignored(f: seq<byte>, peer: Peer, acknowledgement: Long) {
    Accepts(f, peer) ==>
      Complete(f) && var seg := SegmentOf(f, peer); !seg.Reset() && !seg.Fin() && !InOrder(seg, acknowledgement)
  }

  // ---- The connection ----

  class Connection {
    const peer: Peer
    const frame: array<byte>
    var polls: seq<seq<byte>>
    var acknowledgement: Long
    var connected: bool
    ghost var stream: seq<byte>
    ghost var base: Long
    ghost var taken: nat
    ghost var delivered: seq<byte>

    ghost predicate Valid()
      reads this
    {
      && frame.Length == FRAME_MAX && |stream| < WORD && taken <= |stream|
      && (forall i :: 0 <= i < |polls| ==> GenuineFrame(polls[i], peer, stream, base))
      && (connected ==> acknowledgement == (base + taken) % WORD)
    }

    /** Nothing that was acknowledged is missing from what was delivered. */
    ghost predicate InStep()
      requires taken <= |stream|
      reads `delivered, `stream, `taken
    {
      delivered == stream[..taken]
    }

    /** The end of `net_tcp_connect`: the answer to the SYN sets where the peer's bytes begin. */
    constructor (peer: Peer, synSequence: Long, ghost stream: seq<byte>, polls: seq<seq<byte>>)
      requires |stream| < WORD
      requires forall i :: 0 <= i < |polls| ==> GenuineFrame(polls[i], peer, stream, (synSequence + 1) % WORD)
      ensures Valid() && connected && taken == 0 && delivered == [] && InStep() && this.stream == stream && fresh(frame)
    {
      this.peer := peer;
      this.polls := polls;
      this.stream := stream;
      frame := new byte[FRAME_MAX](_ => 0);
      base := (synSequence + 1) % WORD;
      acknowledgement := (synSequence + 1) % WORD;
      connected := true;
      taken, delivered := 0, [];
    }

    /** `net_receive_fn` into the frame buffer; 0 when there is no frame. */
    method Poll() returns (length: nat)
      requires Valid()
      modifies this`polls, frame
      ensures Valid() && polls == if |old(polls)| == 0 then [] else old(polls)[1..]
      ensures length == (if |old(polls)| == 0 then 0 else |old(polls)[0]|) <= FRAME_MAX
      ensures length > 0 ==> frame[..length] == old(polls)[0]
    {
      if |polls| == 0 {
        return 0;
      }
      var f := polls[0];
      polls := polls[1..];
      assert GenuineFrame(f, peer, stream, base);
      for i := 0 to |f|
        modifies frame
        invariant frame[..i] == f[..i]
      {
        frame[i] := f[i];
      }
      length := |f|;
    }

    /** `tcp_wait`: the next frame that meets its conditions, within a number of polls. */
    method TcpWait(attempts: nat) returns (length: nat, ghost k: nat)
      requires Valid()
      modifies this`polls, frame
      ensures Valid() && length <= FRAME_MAX
      ensures length > 0 ==> k < attempts && k < |old(polls)| && polls == old(polls)[k + 1..] && frame[..length] == old(polls)[k]
      ensures length > 0 ==> Accepts(frame[..length], peer) && GenuineFrame(frame[..length], peer, stream, base)
      ensures length == 0 ==> k == attempts && polls == if k < |old(polls)| then old(polls)[k..] else []
      ensures forall j :: 0 <= j < |old(polls)| && j < k ==> !Accepts(old(polls)[j], peer)
    {
      ghost var start := polls;
      for tries := 0 to attempts
        invariant Valid() && polls == if tries < |start| then start[tries..] else []
        invariant forall j :: 0 <= j < |start| && j < tries ==> !Accepts(start[j], peer)
      {
        length := Poll();
        if length > 0 && Accepts(frame[..length], peer) {
          assert GenuineFrame(start[tries], peer, stream, base);
          k := tries;
          return;
        }
      }
      length, k := 0, attempts;
    }

    /** Copies the payload of the segment in the frame buffer out. */
    method CopyPayload(length: nat, data: array<byte>, at: nat, copied: nat)
      requires data != frame && length <= frame.Length && Accepts(frame[..length], peer) && Complete(frame[..length])
      requires copied <= PayloadLength(frame[..length]) && at + copied <= data.Length
      modifies data
      ensures data[at..at + copied] == SegmentOf(frame[..length], peer).payload[..copied]
      ensures data[..at] == old(data[..at])
    {
      ghost var f := frame[..length];
      var headerLength := HeaderLength(frame[..length]);
      SliceOfSlice(f, 34 + headerLength, 14 + Read16(f, 16), 0, copied);
      for i := 0 to copied
        invariant data[at..at + i] == f[34 + headerLength..34 + headerLength + i]
        invariant data[..at] == old(data[..at])
      {
        data[at + i] := frame[34 + headerLength + i];
      }
    }

    /** Takes a payload that starts at the acknowledged place: what was copied is delivered, all of it is acknowledged. */
    method Acknowledge(ghost seg: Segment, payloadLength: nat, ghost out: seq<byte>)
      requires Valid() && connected && Genuine(seg, stream, base)
      requires payloadLength == |seg.payload| > 0 && seg.sequence == acknowledgement && out <= seg.payload
      modifies this`acknowledgement, this`taken, this`delivered
      ensures Valid() && taken == old(taken) + payloadLength && delivered == old(delivered) + out
      ensures acknowledgement == (old(acknowledgement) + payloadLength) % WORD
      ensures out <= stream[old(taken)..]
      ensures old(InStep()) ==> (InStep() <==> |out| == payloadLength)
      ensures seg.Fin() ==> taken == |stream|
    {
      hide GenuineFrame;
      ghost var t := taken;
      NextSlice(seg, stream, base, t);
      Advance(base, t, payloadLength);
      acknowledgement := (acknowledgement + payloadLength) % WORD;
      taken := taken + payloadLength;
      delivered := delivered + out;
      assert stream[..taken] == stream[..t] + seg.payload;
      assert stream[t..][..|out|] == seg.payload[..|out|];
      if seg.Fin() {
        SamePlace(base, taken, |stream|);
      }
    }

    /** Delivers the payload of the segment in the frame buffer, cut to the capacity, and acknowledges all of it. */
    method TakePayload(length: nat, data: array<byte>, capacity: nat) returns (copied: nat)
      requires Valid() && connected && data != frame && 0 < capacity <= data.Length && length <= FRAME_MAX
      requires Accepts(frame[..length], peer) && GenuineFrame(frame[..length], peer, stream, base)
      requires InOrder(SegmentOf(frame[..length], peer), acknowledgement)
      modifies this`acknowledgement, this`taken, this`delivered, data
      ensures Valid() && 0 < copied <= capacity && delivered == old(delivered) + data[..copied]
      ensures var seg := SegmentOf(frame[..length], peer);
        && taken == old(taken) + |seg.payload| && |seg.payload| <= PAYLOAD_MAX
        && copied == (if |seg.payload| < capacity then |seg.payload| else capacity)
        && (seg.Fin() ==> taken == |stream|)
        && (old(InStep()) ==> (InStep() <==> |seg.payload| <= capacity))
      ensures data[..copied] <= stream[old(taken)..]
      ensures acknowledgement == (old(acknowledgement) + |SegmentOf(frame[..length], peer).payload|) % WORD
    {
      ghost var seg := SegmentOf(frame[..length], peer);
      var payloadLength := PayloadLength(frame[..length]);
      copied := if payloadLength < capacity then payloadLength else capacity;
      CopyPayload(length, data, 0, copied);
      assert data[..copied] == data[0..copied];
      Acknowledge(seg, payloadLength, data[..copied]);
    }

    /** A FIN stands at the acknowledged place exactly when the whole stream has been taken. */
    lemma EndReached(seg: Segment, t: nat)
      requires Valid() && connected && Genuine(seg, stream, base) && seg.Fin() && t == taken
      ensures t == |stream| <==> (seg.sequence + |seg.payload|) % WORD == acknowledgement
    {
      if (base + |stream|) % WORD == (base + t) % WORD {
        SamePlace(base, t, |stream|);
      }
    }

    /** The body of the loop of `net_tcp_receive` for a segment; -3 when the loop goes on. */
    method Handle(length: nat, data: array<byte>, capacity: nat) returns (r: int)
      requires Valid() && connected && data != frame && 0 < capacity <= data.Length && length <= FRAME_MAX
      requires Accepts(frame[..length], peer) && GenuineFrame(frame[..length], peer, stream, base)
      modifies this`acknowledgement, this`connected, this`taken, this`delivered, data
      ensures Valid() && -3 <= r && r != -1
      ensures var seg := SegmentOf(frame[..length], peer);
        && (r == -3 ==> connected && !seg.Reset() && !seg.Fin() && !InOrder(seg, old(acknowledgement)))
        && (r == -2 ==> seg.Reset() && !connected)
        && (r == 0 ==> !seg.Reset() && !InOrder(seg, old(acknowledgement)) && seg.Fin() && !connected)
        && (r == 0 ==> (taken == |stream| <==> (seg.sequence + |seg.payload|) % WORD == old(acknowledgement)))
        && (r > 0 ==> !seg.Reset() && InOrder(seg, old(acknowledgement)) && (connected <==> !seg.Fin()))
        && (r > 0 ==> taken == old(taken) + |seg.payload| && |seg.payload| <= PAYLOAD_MAX)
        && (r > 0 ==> r == if |seg.payload| < capacity then |seg.payload| else capacity)
        && (r > 0 ==> delivered == old(delivered) + data[..r] && data[..r] <= stream[old(taken)..])
        && (r > 0 && seg.Fin() ==> taken == |stream|)
        && (r > 0 && old(InStep()) ==> (InStep() <==> |seg.payload| <= capacity))
      ensures r < 0 ==> acknowledgement == old(acknowledgement)
      ensures r == 0 ==> acknowledgement == (old(acknowledgement) + 1) % WORD
      ensures r > 0 ==> acknowledgement == (old(acknowledgement) + |SegmentOf(frame[..length], peer).payload|) % WORD
      ensures r <= 0 ==> taken == old(taken) && delivered == old(delivered)
    {
      hide Genuine, Accepts, Complete, SegmentOf, InStep;
      ghost var seg := SegmentOf(frame[..length], peer);
      var flags, sequence, payloadLength := ReadFields(length);
      if flags as int / 4 % 2 == 1 {
        connected := false;
        return -2;
      }
      if payloadLength > 0 && sequence == acknowledgement {
        r := TakePayload(length, data, capacity);
        if flags as int % 2 == 1 {
          connected := false;
        }
        return r;
      }
      if flags as int % 2 == 1 {
        EndReached(seg, taken);
        acknowledgement := (acknowledgement + 1) % WORD;
        connected := false;
        return 0;
      }
      r := -3;
    }

    /**
     `net_tcp_receive`: the next payload in the order of the stream, cut to the capacity; whatever was lost,
     repeated or overtaken on the way leaves the delivered bytes a prefix of the stream, as long as each
     payload fits in the buffer of its call. A FIN that overtakes data closes the connection early.
     */
    method Receive(data: array<byte>, capacity: nat, limit: nat) returns (r: int, ghost seg: Segment, ghost k: nat)
      requires Valid() && data != frame && capacity <= data.Length
      modifies this`polls, this`acknowledgement, this`connected, this`taken, this`delivered, frame, data
      ensures Valid()
      ensures r >= -3 && (r == -1 <==> !old(connected) || capacity == 0)
      ensures r != -1 ==> forall j :: 0 <= j < |old(polls)| && j < k ==> Ignored(old(polls)[j], peer, old(acknowledgement))
      ensures r == -3 ==> connected && k == if limit == 0 then 1000000000 else limit
      ensures r != -1 && r != -3 ==> k < |old(polls)| && polls == old(polls)[k + 1..] && IsSegment(old(polls)[k], peer, seg)
      ensures r == -2 ==> seg.Reset() && !connected
      ensures r == 0 ==> !seg.Reset() && !InOrder(seg, old(acknowledgement)) && seg.Fin() && !connected
      ensures r == 0 ==> (taken == |stream| <==> (seg.sequence + |seg.payload|) % WORD == old(acknowledgement))
      ensures r > 0 ==> !seg.Reset() && InOrder(seg, old(acknowledgement)) && (connected <==> !seg.Fin())
      ensures r > 0 ==> taken == old(taken) + |seg.payload| && r == if |seg.payload| < capacity then |seg.payload| else capacity
      ensures r > 0 ==> delivered == old(delivered) + data[..r] && data[..r] <= stream[old(taken)..]
      ensures r > 0 && !connected ==> taken == |stream|
      ensures acknowledgement == if r < 0 then old(acknowledgement) else (old(acknowledgement) + if r == 0 then 1 else |seg.payload|) % WORD
      ensures r > 0 && old(InStep()) ==> (InStep() <==> |seg.payload| <= capacity)
      ensures r <= 0 ==> taken == old(taken) && delivered == old(delivered)
      ensures old(InStep()) && capacity >= PAYLOAD_MAX ==> InStep()
    {
      hide Genuine, Accepts, Complete, SegmentOf, InStep, InOrder;
      seg, k := Segment(0, 0, 0, []), 0;
      if !connected || capacity == 0 {
        return -1, seg, k;
      }
      var attempts := if limit == 0 then 1000000000 else limit;
      ghost var t, d, start := taken, delivered, polls;
      for tries := 0 to attempts
        invariant Valid() && connected && taken == t && delivered == d && acknowledgement == old(acknowledgement)
        invariant polls == if tries < |start| then start[tries..] else []
        invariant forall j :: 0 <= j < |start| && j < tries ==> Ignored(start[j], peer, acknowledgement)
      {
        var length := PollOnce();
        k := tries;
        if length == 0 {
          assert tries < |start| ==> Ignored(start[tries], peer, acknowledgement);
          continue;
        }
        seg := SegmentOf(frame[..length], peer);
        r := Handle(length, data, capacity);
        if r != -3 {
          return r, seg, k;
        }
      }
      r, k := -3, attempts;
    }

    /** One poll of `tcp_wait`. */
    method PollOnce() returns (length: nat)
      requires Valid()
      modifies this`polls, frame
      ensures Valid() && length <= FRAME_MAX
      ensures polls == if |old(polls)| == 0 then [] else old(polls)[1..]
      ensures length > 0 ==> |old(polls)| > 0 && frame[..length] == old(polls)[0]
      ensures length > 0 ==> Accepts(frame[..length], peer) && GenuineFrame(frame[..length], peer, stream, base)
      ensures length == 0 && |old(polls)| > 0 ==> !Accepts(old(polls)[0], peer)
    {
      ghost var k;
      length, k := TcpWait(1);
    }

    method ReadFields(length: nat) returns (flags: byte, sequence: Long, payloadLength: nat)
      requires frame.Length == FRAME_MAX && length <= FRAME_MAX && Accepts(frame[..length], peer) && Complete(frame[..length])
      ensures flags == SegmentOf(frame[..length], peer).flags && sequence == SegmentOf(frame[..length], peer).sequence
      ensures payloadLength == |SegmentOf(frame[..length], peer).payload|
    {
      flags := frame[47];
      sequence := Read32(frame[..length], 38);
      payloadLength := PayloadLength(frame[..length]);
    }

    /** Adds the next payload to the response, as much of it as leaves room for the zero byte. */
    method Add(response: array<byte>, capacity: nat, used: nat, length: nat) returns (more: nat)
      requires Valid() && connected && response != frame && used + 1 < capacity <= response.Length && length <= FRAME_MAX
      requires Accepts(frame[..length], peer) && GenuineFrame(frame[..length], peer, stream, base)
      requires PayloadLength(frame[..length]) > 0 && Read32(frame[..length], 38) == acknowledgement
      requires response[..used] == stream[..taken]
      modifies this`acknowledgement, this`taken, this`delivered, response
      ensures Valid() && more + 1 <= capacity && response[..more] <= stream
      ensures more + 1 < capacity ==> response[..more] == stream[..taken]
    {
      ghost var seg := SegmentOf(frame[..length], peer);
      var payloadLength := PayloadLength(frame[..length]);
      var copied := if payloadLength > capacity - used - 1 then capacity - used - 1 else payloadLength;
      CopyPayload(length, response, used, copied);
      ghost var out := response[used..used + copied];
      ghost var t := taken;
      Acknowledge(seg, payloadLength, out);
      more := used + copied;
      assert response[..more] == response[..used] + out;
      PrefixGrows(stream, t, response[..used], out);
    }

    /**
     The assembly loop of `net_http_get` from the first poll on, with the connection standing for its local
     variables: the response is a prefix of the stream, ended by a zero byte inside the buffer.
     */
    method Assemble(response: array<byte>, capacity: nat, attempts: nat, idleLimit: nat, tcpSequence: Long) returns (used: nat)
      requires Valid() && connected && taken == 0 && delivered == [] && response != frame
      requires 2 <= capacity <= response.Length
      modifies this`polls, this`acknowledgement, this`connected, this`taken, this`delivered, frame, response
      ensures used < capacity && response[used] == 0
      ensures response[..used] <= stream
      ensures used + 1 == capacity || (taken <= |stream| && response[..used] == stream[..taken])
    {
      hide Genuine, Read16, HeaderLength;
      used := 0;
      var finished, tries, idle := false, 0, 0;
      while tries < attempts && !finished && used + 1 < capacity
        invariant Valid() && used + 1 <= capacity && response[..used] <= stream
        invariant !finished ==> connected
        invariant used + 1 < capacity ==> response[..used] == stream[..taken]
      {
        tries := tries + 1;
        var length, k := TcpWait(1);
        if length == 0 {
          idle := idle + 1;
          if idle > idleLimit {
            break;
          }
          continue;
        }
        idle := 0;
        var flags := frame[47];
        var sequence := Read32(frame[..length], 38);
        var acknowledged := Read32(frame[..length], 42);
        var payloadLength := PayloadLength(frame[..length]);
        if payloadLength > 0 && sequence == acknowledgement {
          used := Add(response, capacity, used, length);
        }
        if flags as int % 2 == 1 {
          acknowledgement := (acknowledgement + 1) % WORD;
          connected, finished := false, true;
        }
        if flags as int / 4 % 2 == 1 || acknowledged > (tcpSequence + 4096) % WORD {
          break;
        }
      }
      assert response[..used] <= stream;
      ghost var out := response[..used];
      response[used] := 0;
      assert response[..used] == out;
    }
  }

  /** The first poll holds a segment that a receiver does not pass over. */
  ghost predicate Arrives(c: Connection, seg: Segment)
    reads c
  {
    |c.polls| > 0 && IsSegment(c.polls[0], c.peer, seg) && (seg.Reset() || seg.Fin() || InOrder(seg, c.acknowledgement))
  }

  /** A call of `net_tcp_receive` takes such a segment. */
  method ReceiveFirst(c: Connection, data: array<byte>, capacity: nat, limit: nat, ghost first: Segment) returns (r: int)
    requires c.Valid() && c.connected && data != c.frame && 0 < capacity <= data.Length && Arrives(c, first)
    modifies c`polls, c`acknowledgement, c`connected, c`taken, c`delivered, c.frame, data
    ensures c.Valid() && c.polls == old(c.polls)[1..]
    ensures r == -2 <==> first.Reset()
    ensures r > 0 <==> !first.Reset() && InOrder(first, old(c.acknowledgement))
    ensures r > 0 ==> r == Min(|first.payload|, capacity) && c.taken == old(c.taken) + |first.payload|
    ensures r > 0 ==> c.delivered == old(c.delivered) + data[..r] && data[..r] <= c.stream[old(c.taken)..]
    ensures c.connected <==> r > 0 && !first.Fin()
    ensures r == 0 ==> (c.taken == |c.stream| <==> (first.sequence + |first.payload|) % WORD == old(c.acknowledgement))
    ensures r >= -2 && (r <= 0 ==> r != -1 && c.taken == old(c.taken) && c.delivered == old(c.delivered))
  {
    ghost var seg, k;
    r, seg, k := c.Receive(data, capacity, limit);
    assert !Ignored(old(c.polls)[0], c.peer, old(c.acknowledgement));
    assert k == 0;
  }

  /**
   A payload cut to a smaller buffer is acknowledged whole: what the next call delivers leaves out the rest of it, so
   the delivered bytes are no longer those of the stream unless they happen to be equal.
   */
  method CutPayloadSkips(c: Connection, data: array<byte>, capacity: nat, ghost first: Segment, ghost second: Segment) returns (r: int, r': int)
    requires c.Valid() && c.connected && c.InStep() && data != c.frame && 0 < capacity <= data.Length
    requires Arrives(c, first) && InOrder(first, c.acknowledgement) && !first.Reset() && !first.Fin() && |first.payload| > capacity
    requires |c.polls| > 1 && IsSegment(c.polls[1], c.peer, second) && !second.Reset() && second.payload != []
    requires second.sequence == (c.acknowledgement + |first.payload|) % WORD
    modifies c`polls, c`acknowledgement, c`connected, c`taken, c`delivered, c.frame, data
    ensures r == capacity && r' > 0
    ensures var t := old(c.taken); t + capacity < t + |first.payload| < t + |first.payload| + r' <= c.taken <= |c.stream|
    ensures var t := old(c.taken);
      c.delivered == c.stream[..t] + c.stream[t..t + capacity] + c.stream[t + |first.payload|..t + |first.payload| + r']
    ensures var t := old(c.taken);
      c.stream[t + capacity] != c.stream[t + |first.payload|] ==> !(c.delivered <= c.stream)
  {
    hide Genuine, Accepts, Complete, SegmentOf, GenuineFrame;
    ghost var t, s := c.taken, c.stream;
    r := ReceiveFirst(c, data, capacity, 1, first);
    assert data[..r] == s[t..][..capacity] == s[t..t + capacity];
    Advance(c.base, t, |first.payload|);
    ghost var u := c.taken;
    r' := ReceiveFirst(c, data, capacity, 1, second);
    assert data[..r'] == s[u..][..r'] == s[u..u + r'];
    assert c.delivered[t + capacity] == s[u];
  }

  /** A FIN may come in ahead of data: the call then answers 0, as at the end, and the rest of the stream is never read. */
  method EarlyFin(c: Connection, data: array<byte>, capacity: nat, ghost fin: Segment) returns (r: int)
    requires c.Valid() && c.connected && data != c.frame && 0 < capacity <= data.Length
    requires Arrives(c, fin) && fin.Fin() && !fin.Reset() && !InOrder(fin, c.acknowledgement)
    requires (fin.sequence + |fin.payload|) % WORD != c.acknowledgement
    modifies c`polls, c`acknowledgement, c`connected, c`taken, c`delivered, c.frame, data
    ensures r == 0 && !c.connected && c.taken == old(c.taken) < |c.stream| && c.delivered == old(c.delivered)
  {
    r := ReceiveFirst(c, data, capacity, 1, fin);
  }

  lemma PrefixGrows(stream: seq<byte>, t: nat, before: seq<byte>, out: seq<byte>)
    requires t <= |stream| && before == stream[..t] && out <= stream[t..]
    ensures before + out <= stream && before + out == stream[..t + |out|]
  {
  }
}
