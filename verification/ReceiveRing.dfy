/**
 The receive ring of `e1000.c`, driver against device. The device may fill descriptors before any step
 of the driver: `arrivals(i)` are the frames that come in before step i, so what holds for every such
 function holds for every interleaving.
 */
module ReceiveRing {
  import opened Bytes
  import opened ModArith

  const RX_COUNT: nat := 32
  const BUFFER_SIZE: nat := 2048

  type Frame = f: seq<byte> | |f| <= BUFFER_SIZE witness []
  type Buffer = b: seq<byte> | |b| == BUFFER_SIZE witness seq(BUFFER_SIZE, _ => 0)

  /** Within one round of the ring, places coincide only for the same index. */
  lemma SamePlace(i: nat, j: nat)
    requires i <= j < i + RX_COUNT
    ensures i % RX_COUNT == j % RX_COUNT <==> i == j
  {
  }

  lemma NextPlace(i: nat)
    ensures (i % RX_COUNT + 1) % RX_COUNT == (i + 1) % RX_COUNT
    ensures (i + 1 + RX_COUNT - 1) % RX_COUNT == i % RX_COUNT
  {
  }

  /** The frames that arrived, in their order, each once and cut to the capacity of the call that took it. */
  ghost predicate Handed(delivered: seq<seq<byte>>, capacities: seq<nat>, arrived: seq<Frame>) {
    && |delivered| == |capacities| <= |arrived|
    && (forall j :: 0 <= j < |delivered| ==> delivered[j] == arrived[j][..Min(|arrived[j]|, capacities[j])])
  }

  lemma HandedOne(delivered: seq<seq<byte>>, capacities: seq<nat>, arrived: seq<Frame>, out: seq<byte>, capacity: nat)
    requires Handed(delivered, capacities, arrived) && |delivered| < |arrived|
    requires out == arrived[|delivered|][..Min(|arrived[|delivered|]|, capacity)]
    ensures Handed(delivered + [out], capacities + [capacity], arrived)
  {
  }

  lemma HandedMore(delivered: seq<seq<byte>>, capacities: seq<nat>, arrived: seq<Frame>, more: seq<Frame>)
    requires Handed(delivered, capacities, arrived) && arrived <= more
    ensures Handed(delivered, capacities, more)
  {
  }

  lemma NextRound(i: nat)
    ensures (i + RX_COUNT) % RX_COUNT == i % RX_COUNT
  {
  }

  lemma OneBehind(k: nat)
    requires k < RX_COUNT
    ensures ((k + 1) % RX_COUNT + RX_COUNT - 1) % RX_COUNT == k
  {
  }

  class Ring {
    const length: array<nat>
    const done: array<bool>
    const buffer: array<Buffer>
    var rdh: nat
    var rdt: nat
    var rxHead: nat
    var ready: bool
    ghost var arrived: seq<Frame>
    ghost var cleared: nat
    ghost var released: nat
    ghost var delivered: seq<seq<byte>>
    ghost var capacities: seq<nat>

    /** What every step of either side keeps. */
    ghost predicate Steady()
      reads `rdh, `rdt, `arrived, `cleared, `released, length, done, buffer
    {
      && length.Length == done.Length == buffer.Length == RX_COUNT
      && released <= cleared <= released + 1 && cleared <= |arrived| < released + RX_COUNT
      && rdh == |arrived| % RX_COUNT
      && rdt == (released + RX_COUNT - 1) % RX_COUNT
      && (forall j: nat :: cleared <= j < |arrived| ==> Unread(j))
      && (forall j: nat :: |arrived| <= j < cleared + RX_COUNT ==> Free(j))
    }

    /** Frame j waits in its descriptor and buffer. */
    ghost predicate Unread(j: nat)
      requires length.Length == done.Length == buffer.Length == RX_COUNT && j < |arrived|
      reads `arrived, length, done, buffer
    {
      var k := j % RX_COUNT;
      done[k] && length[k] == |arrived[j]| && buffer[k][..|arrived[j]|] == arrived[j]
    }

    ghost predicate Free(j: nat)
      requires done.Length == RX_COUNT
      reads done
    {
      !done[j % RX_COUNT]
    }

    /** What holds between calls: the tail register is one behind the next descriptor to read. */
    ghost predicate Valid()
      reads this, length, done, buffer
    {
      && Steady() && released == cleared && rxHead == cleared % RX_COUNT
      && rdt == (rxHead + RX_COUNT - 1) % RX_COUNT
      && |delivered| == cleared && Handed(delivered, capacities, arrived)
    }

    /** The receive part of `e1000_init`. */
    constructor ()
      ensures Valid() && ready && arrived == [] && fresh(length) && fresh(done) && fresh(buffer)
    {
      length := new nat[RX_COUNT](_ => 0);
      done := new bool[RX_COUNT](_ => false);
      buffer := new Buffer[RX_COUNT](_ => seq(BUFFER_SIZE, _ => 0));
      rdh, rdt, rxHead, ready := 0, RX_COUNT - 1, 0, true;
      arrived, cleared, released, delivered, capacities := [], 0, 0, [], [];
    }

    /** The device: a frame is dropped when the head has met the tail, and else fills the descriptor at the head. */
    method Fill(f: Frame)
      requires Steady()
      modifies this`rdh, this`arrived, length, done, buffer
      ensures Steady()
      ensures arrived == if |old(arrived)| - released < RX_COUNT - 1 then old(arrived) + [f] else old(arrived)
    {
      SamePlace(|arrived|, released + RX_COUNT - 1);
      if rdh != rdt {
        ghost var n := |arrived|;
        assert Free(n);
        buffer[rdh] := f + buffer[rdh][|f|..];
        length[rdh] := |f|;
        done[rdh] := true;
        rdh := (rdh + 1) % RX_COUNT;
        NextPlace(n);
        arrived := arrived + [f];
        forall j: nat | cleared <= j < |arrived|
          ensures Unread(j)
        {
          SamePlace(j, n);
          assert j < n ==> old(Unread(j));
        }
        forall j: nat | |arrived| <= j < cleared + RX_COUNT
          ensures Free(j)
        {
          SamePlace(n, j);
          assert old(Free(j));
        }
      }
    }

    method Arrive(frames: seq<Frame>)
      requires Steady()
      modifies this`rdh, this`arrived, length, done, buffer
      ensures Steady() && old(arrived) <= arrived
    {
      for i := 0 to |frames|
        invariant Steady() && old(arrived) <= arrived
      {
        Fill(frames[i]);
      }
    }

    /** The driver looks at the status of its next descriptor. */
    method CheckStatus() returns (done: bool)
      requires Steady() && rxHead == cleared % RX_COUNT
      ensures done <==> cleared < |arrived|
    {
      assert cleared < |arrived| ==> Unread(cleared);
      assert cleared == |arrived| ==> Free(cleared);
      done := this.done[rxHead];
    }

    /** The driver copies the frame out, byte by byte. */
    method CopyOut(frame: array<byte>, capacity: nat, arrivals: nat -> seq<Frame>) returns (n: nat)
      requires Steady() && cleared < |arrived| && rxHead == cleared % RX_COUNT && capacity <= frame.Length
      modifies this`rdh, this`arrived, length, done, buffer, frame
      ensures Steady() && old(arrived) <= arrived
      ensures n == Min(|arrived[cleared]|, capacity) && frame[..n] == arrived[cleared][..n]
    {
      assert Unread(cleared);
      n := length[rxHead];
      if n > capacity {
        n := capacity;
      }
      ghost var f := arrived[cleared];
      for i := 0 to n
        modifies this`rdh, this`arrived, length, done, buffer, frame
        invariant Steady() && old(arrived) <= arrived
        invariant frame[..i] == f[..i]
      {
        Arrive(arrivals(2 + i));
        assert Unread(cleared);
        assert buffer[rxHead][i] == buffer[rxHead][..|f|][i];
        frame[i] := buffer[rxHead][i];
        assert frame[..i + 1] == frame[..i] + [frame[i]] && f[..i + 1] == f[..i] + [f[i]];
      }
    }

    /** The driver clears the done bit of the descriptor it has read. */
    method ClearStatus()
      requires Steady() && cleared < |arrived| && rxHead == cleared % RX_COUNT && cleared == released
      modifies this`cleared, done
      ensures Steady() && cleared == old(cleared) + 1
    {
      done[rxHead] := false;
      cleared := cleared + 1;
      forall j: nat | cleared <= j < |arrived|
        ensures Unread(j)
      {
        SamePlace(cleared - 1, j);
        assert old(Unread(j));
      }
      forall j: nat | |arrived| <= j < cleared + RX_COUNT
        ensures Free(j)
      {
        if j < cleared - 1 + RX_COUNT {
          assert old(Free(j));
        } else {
          NextRound(cleared - 1);
        }
      }
    }

    /** The driver zeroes the length of a descriptor that the device may not yet use again. */
    method ClearLength()
      requires Steady() && cleared == released + 1 && rxHead == released % RX_COUNT
      modifies length
      ensures Steady() && length[rxHead] == 0
    {
      length[rxHead] := 0;
      forall j: nat | cleared <= j < |arrived|
        ensures Unread(j)
      {
        SamePlace(released, j);
        assert old(Unread(j));
      }
    }

    /** The driver gives the descriptor back through the tail register. */
    method Release()
      requires Steady() && cleared == released + 1 && rxHead == released % RX_COUNT
      modifies this`rdt, this`released
      ensures Steady() && released == cleared && rdt == rxHead
    {
      rdt := rxHead;
      NextPlace(released);
      released := released + 1;
    }

    /** The driver clears its descriptor, gives it back and moves on. */
    method GiveBack(arrivals: nat -> seq<Frame>, step: nat)
      requires Steady() && cleared < |arrived| && rxHead == cleared % RX_COUNT && cleared == released
      modifies this`rdh, this`rdt, this`rxHead, this`arrived, this`cleared, this`released, length, done, buffer
      ensures Steady() && old(arrived) <= arrived && cleared == released == old(cleared) + 1
      ensures rxHead == cleared % RX_COUNT && rdt == (rxHead + RX_COUNT - 1) % RX_COUNT
    {
      hide Steady, Unread, Free;
      Arrive(arrivals(step));
      ClearStatus();
      Arrive(arrivals(step + 1));
      ClearLength();
      Arrive(arrivals(step + 2));
      Release();
      Arrive(arrivals(step + 3));
      NextPlace(released - 1);
      OneBehind(rxHead);
      rxHead := (rxHead + 1) % RX_COUNT;
    }

    /**
     `e1000_receive`: hands over the oldest unread frame, if there is one when the status is looked at,
     and gives its descriptor back; frames may come in before each of its steps.
     */
    method Receive(frame: array<byte>, capacity: nat, arrivals: nat -> seq<Frame>) returns (r: int, ghost took: bool)
      requires Valid() && capacity <= frame.Length
      modifies this`rdh, this`rdt, this`rxHead, this`arrived, this`cleared, this`released, this`delivered, this`capacities
      modifies length, done, buffer, frame
      ensures Valid() && old(arrived) <= arrived
      ensures !ready || capacity == 0 ==> r == -1 && !took
      ensures ready && capacity > 0 && !took ==> r == 0 && cleared == |arrived|
      ensures !took ==> delivered == old(delivered) && cleared == old(cleared)
      ensures took ==> cleared == old(cleared) + 1 && 0 <= r <= frame.Length && delivered == old(delivered) + [frame[..r]]
      ensures took ==> old(cleared) < |arrived| && r == Min(|arrived[old(cleared)]|, capacity)
    {
      hide Steady, Unread, Free, Handed;
      took := false;
      if !ready || capacity == 0 {
        return -1, false;
      }
      ghost var t, d, c := cleared, delivered, capacities;
      Arrive(arrivals(0));
      HandedMore(d, c, old(arrived), arrived);
      var found := CheckStatus();
      Bounds();
      if !found {
        return 0, false;
      }
      Arrive(arrivals(1));
      var n := CopyOut(frame, capacity, arrivals);
      GiveBack(arrivals, 2 + n);
      HandedMore(d, c, old(arrived), arrived);
      HandedOne(d, c, arrived, frame[..n], capacity);
      delivered := delivered + [frame[..n]];
      capacities := capacities + [capacity];
      took := true;
      r := n;
    }

    lemma Bounds()
      requires Steady()
      ensures released <= cleared <= |arrived| < released + RX_COUNT
    {
    }
  }

  /** An unread frame is never overwritten: while the device fills, it waits unchanged in its descriptor. */
  method FillKeepsUnread(ring: Ring, f: Frame, ghost j: nat)
    requires ring.Steady() && ring.cleared <= j < |ring.arrived|
    modifies ring`rdh, ring`arrived, ring.length, ring.done, ring.buffer
    ensures j < |ring.arrived| && ring.Unread(j) && ring.arrived[j] == old(ring.arrived)[j]
  {
    ring.Fill(f);
  }
}
