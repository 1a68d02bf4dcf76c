/**
 Reading handshake messages from TLS records, as in `tls_client.c` without encryption: bytes from the
 transport, records from bytes, messages from records.
 */
module HandshakeReader {
  import opened Bytes

  const BUFFER_SIZE: nat := 16384
  const CHANGE_CIPHER_SPEC: byte := 20
  const HANDSHAKE: byte := 22

  datatype Option<T> = None | Some(value: T)

  // ---- Records and messages ----

  datatype Record = Record(kind: byte, payload: seq<byte>)

  function Read24(s: seq<byte>, at: nat): (w: nat)
    requires at + 3 <= |s|
    ensures w < 0x100_0000
  {
    0x1_0000 * s[at] as int + 0x100 * s[at + 1] as int + s[at + 2] as int
  }

  /** The record at the front of a byte stream, if a whole one of this major version is there. */
  function FirstRecord(s: seq<byte>): Option<Record> {
    if |s| < 5 || s[1] != 3 || |s| < 5 + Read16(s, 3) then None
    else Some(Record(s[0], s[5..5 + Read16(s, 3)]))
  }

  function AfterRecord(s: seq<byte>): (r: seq<byte>)
    requires FirstRecord(s).Some?
    ensures |r| < |s|
  {
    s[5 + Read16(s, 3)..]
  }

  /** The length of the message at the front of handshake bytes: its header and the body it announces. */
  function MessageLength(p: seq<byte>): (n: nat)
    requires |p| >= 4
    ensures n >= 4
  {
    4 + Read24(p, 1)
  }

  predicate HasMessage(p: seq<byte>) {
    |p| >= 4 && |p| >= MessageLength(p)
  }

  // ---- What one call does ----

  datatype Outcome = Message(bytes: seq<byte>, pending: seq<byte>, stream: seq<byte>) | Failure

  /** The outcome of a call with some handshake bytes pending and a byte stream to come. */
  ghost function Next(pending: seq<byte>, stream: seq<byte>): Outcome
    decreases |stream|
  {
    if HasMessage(pending) then
      Message(pending[..MessageLength(pending)], pending[MessageLength(pending)..], stream)
    else if |pending| >= BUFFER_SIZE || FirstRecord(stream).None? then Failure
    else
      var record := FirstRecord(stream).value;
      if |pending| + |record.payload| > BUFFER_SIZE then Failure
      else if record.kind == CHANGE_CIPHER_SPEC then Next(pending, AfterRecord(stream))
      else if record.kind != HANDSHAKE then Failure
      else Next(pending + record.payload, AfterRecord(stream))
  }

  // ---- What all calls do ----

  /** The records a stream holds, up to the first that is neither of the two kinds expected. */
  ghost function Records(s: seq<byte>): seq<Record>
    decreases |s|
  {
    if FirstRecord(s).None? then [] else
      var r := FirstRecord(s).value;
      if r.kind != HANDSHAKE && r.kind != CHANGE_CIPHER_SPEC then [] else [r] + Records(AfterRecord(s))
  }

  ghost function Part(r: Record): seq<byte> {
    if r.kind == HANDSHAKE then r.payload else []
  }

  /** The handshake bytes of records, joined. */
  ghost function Joined(rs: seq<Record>): seq<byte> {
    if |rs| == 0 then [] else Part(rs[0]) + Joined(rs[1..])
  }

  /** The length-delimited messages of a byte string, as section 5.1 of RFC 8446 has them. */
  ghost function Split(b: seq<byte>): seq<seq<byte>>
    decreases |b|
  {
    if HasMessage(b) then [b[..MessageLength(b)]] + Split(b[MessageLength(b)..]) else []
  }

  /** The messages that n calls return, fewer when one fails. */
  ghost function Calls(pending: seq<byte>, stream: seq<byte>, n: nat): seq<seq<byte>>
    decreases n, stream
  {
    if n == 0 then [] else
      match Next(pending, stream)
      case Failure => []
      case Message(m, p, s) => [m] + Calls(p, s, n - 1)
  }

  lemma HasMessageMore(p: seq<byte>, q: seq<byte>)
    requires HasMessage(p)
    ensures HasMessage(p + q) && MessageLength(p + q) == MessageLength(p)
    ensures (p + q)[..MessageLength(p)] == p[..MessageLength(p)] && (p + q)[MessageLength(p)..] == p[MessageLength(p)..] + q
  {
  }

  /** A call that finds no whole message pending goes on with the next record, when that fits. */
  lemma NextStep(p: seq<byte>, s: seq<byte>)
    requires !HasMessage(p)
    ensures Next(p, s).Message? ==> |p| < BUFFER_SIZE && |Records(s)| > 0 && Fits(p, Records(s), 0)
    ensures |Records(s)| > 0 ==> FirstRecord(s).Some? && Records(s)[1..] == Records(AfterRecord(s))
    ensures |p| < BUFFER_SIZE && |Records(s)| > 0 && Fits(p, Records(s), 0) ==>
      Next(p, s) == Next(p + Part(Records(s)[0]), AfterRecord(s))
  {
    assert p + [] == p;
    assert Joined([]) == [];
    assert Records(s)[..0] == [];
  }

  lemma NextByRecord(p: seq<byte>, s: seq<byte>)
    requires !HasMessage(p)
    ensures |p| >= BUFFER_SIZE || FirstRecord(s).None? ==> Next(p, s) == Failure
    ensures FirstRecord(s).Some? ==> |AfterRecord(s)| < |s|
    ensures |p| < BUFFER_SIZE && FirstRecord(s).Some? ==>
      var r := FirstRecord(s).value;
      Next(p, s) ==
        if |p| + |r.payload| > BUFFER_SIZE then Failure
        else if r.kind == CHANGE_CIPHER_SPEC then Next(p, AfterRecord(s))
        else if r.kind == HANDSHAKE then Next(p + r.payload, AfterRecord(s))
        else Failure
  {
  }

  lemma NextNow(p: seq<byte>, s: seq<byte>)
    requires HasMessage(p)
    ensures Next(p, s) == Message(p[..MessageLength(p)], p[MessageLength(p)..], s)
  {
  }

  lemma NextIfNow(p: seq<byte>, s: seq<byte>)
    ensures HasMessage(p) ==> Next(p, s).Message?
  {
  }

  lemma RecordsLeft(s: seq<byte>)
    ensures |Records(s)| > 0 ==> FirstRecord(s).Some? && |AfterRecord(s)| < |s|
  {
  }

  /** A call takes the first message off the pending bytes and the handshake bytes to come, and nothing else. */
  lemma {:induction false} NextTakesFirst(p: seq<byte>, s: seq<byte>)
    requires Next(p, s).Message?
    ensures var r := Next(p, s);
      var b := p + Joined(Records(s));
      HasMessage(b) && r.bytes == b[..MessageLength(b)] && r.pending + Joined(Records(r.stream)) == b[MessageLength(b)..]
    decreases |s|
  {
    hide Next, FirstRecord, AfterRecord, HasMessage, MessageLength, Part;
    if HasMessage(p) {
      NextNow(p, s);
      HasMessageMore(p, Joined(Records(s)));
    } else {
      RecordsLeft(s);
      NextStep(p, s);
      var q := p + Part(Records(s)[0]);
      NextTakesFirst(q, AfterRecord(s));
      assert p + Joined(Records(s)) == q + Joined(Records(AfterRecord(s)));
    }
  }

  /**
   However handshake bytes are cut into records, and whatever change-cipher-spec records lie between,
   successive calls return the messages of the joined bytes, in order, none skipped or changed.
   */
  lemma {:induction false} CallsReadMessages(p: seq<byte>, s: seq<byte>, n: nat)
    ensures Calls(p, s, n) <= Split(p + Joined(Records(s)))
    decreases n
  {
    hide HasMessage, MessageLength;
    if n > 0 && Next(p, s).Message? {
      var r := Next(p, s);
      NextTakesFirst(p, s);
      CallsReadMessages(r.pending, r.stream, n - 1);
    }
  }

  /** The first k records complete a message, and each of them fits behind the bytes pending before it. */
  ghost predicate RoomFor(p: seq<byte>, rs: seq<Record>, k: nat) {
    && k <= |rs| && HasMessage(p + Joined(rs[..k]))
    && (forall j: nat :: j < k ==> Fits(p, rs, j))
  }

  ghost predicate Fits(p: seq<byte>, rs: seq<Record>, j: nat)
    requires j < |rs|
  {
    |p| + |Joined(rs[..j])| + |rs[j].payload| <= BUFFER_SIZE
  }

  lemma JoinedFirst(rs: seq<Record>, k: nat)
    requires 0 < k <= |rs|
    ensures Joined(rs[..k]) == Part(rs[0]) + Joined(rs[1..][..k - 1])
  {
    assert rs[..k][1..] == rs[1..][..k - 1];
  }

  /** A call succeeds exactly when some number of records completes a message and each of them fits in the buffer. */
  lemma NextSucceedsIff(p: seq<byte>, s: seq<byte>)
    ensures Next(p, s).Message? <==> exists k: nat :: RoomFor(p, Records(s), k)
  {
    hide Next, Records, RoomFor;
    if Next(p, s).Message? {
      var k := NextNeedsRoom(p, s);
    }
    forall k: nat | RoomFor(p, Records(s), k)
      ensures Next(p, s).Message?
    {
      RoomSuffices(p, s, k);
    }
  }

  lemma {:induction false} NextNeedsRoom(p: seq<byte>, s: seq<byte>) returns (k: nat)
    requires Next(p, s).Message?
    ensures RoomFor(p, Records(s), k)
    decreases |s|
  {
    hide Next, FirstRecord, AfterRecord, HasMessage, Records, Part;
    var rs := Records(s);
    if HasMessage(p) {
      k := 0;
      assert p + Joined(rs[..0]) == p;
    } else {
      RecordsLeft(s);
      NextStep(p, s);
      var q := p + Part(rs[0]);
      var i := NextNeedsRoom(q, AfterRecord(s));
      k := i + 1;
      JoinedFirst(rs, k);
      assert p + Joined(rs[..k]) == q + Joined(rs[1..][..i]);
      forall j: nat | j < k
        ensures Fits(p, rs, j)
      {
        if j > 0 {
          JoinedFirst(rs, j);
          assert Fits(q, rs[1..], j - 1);
        }
      }
    }
  }

  lemma {:induction false} RoomSuffices(p: seq<byte>, s: seq<byte>, k: nat)
    requires RoomFor(p, Records(s), k)
    ensures Next(p, s).Message?
    decreases |s|
  {
    hide Next, FirstRecord, AfterRecord, HasMessage, Records, Part;
    var rs := Records(s);
    NextIfNow(p, s);
    if k == 0 {
      assert p + Joined(rs[..0]) == p;
    } else if !HasMessage(p) {
      RecordsLeft(s);
      BufferNotFull(p, rs, k);
      assert Fits(p, rs, 0);
      NextStep(p, s);
      var q := p + Part(rs[0]);
      JoinedFirst(rs, k);
      assert p + Joined(rs[..k]) == q + Joined(rs[1..][..k - 1]);
      forall j: nat | j < k - 1
        ensures Fits(q, rs[1..], j)
      {
        JoinedFirst(rs, j + 1);
        assert Fits(p, rs, j + 1);
      }
      RoomSuffices(q, AfterRecord(s), k - 1);
    }
  }

  lemma {:induction false} JoinedLast(rs: seq<Record>, k: nat)
    requires 0 < k <= |rs|
    ensures Joined(rs[..k]) == Joined(rs[..k - 1]) + Part(rs[k - 1])
    decreases k
  {
    JoinedFirst(rs, k);
    if k > 1 {
      JoinedFirst(rs, k - 1);
      JoinedLast(rs[1..], k - 1);
    }
  }

  /** When records complete a message within the buffer, the buffer was not yet full before them. */
  lemma BufferNotFull(p: seq<byte>, rs: seq<Record>, k: nat)
    requires RoomFor(p, rs, k) && !HasMessage(p)
    ensures k > 0 && |p| < BUFFER_SIZE
  {
    assert k == 0 ==> p + Joined(rs[..k]) == p;
    assert Fits(p, rs, k - 1);
    JoinedLast(rs, k);
    assert Joined(rs[..k]) == [] ==> p + Joined(rs[..k]) == p;
  }

  /** What is left of handshake bytes once their whole messages are taken off. */
  ghost function Rest(b: seq<byte>): seq<byte>
    decreases |b|
  {
    if HasMessage(b) then Rest(b[MessageLength(b)..]) else b
  }

  /** Record j fits into the buffer behind the unfinished message that the records before it have brought. */
  ghost predicate FitsBehind(p: seq<byte>, rs: seq<Record>, j: nat)
    requires j < |rs|
  {
    |Rest(p + Joined(rs[..j]))| + |rs[j].payload| <= BUFFER_SIZE
  }

  /** Some message is complete only with record j or a later one. */
  ghost predicate Wanted(p: seq<byte>, rs: seq<Record>, j: nat)
    requires j < |rs|
  {
    |Split(p + Joined(rs[..j]))| < |Split(p + Joined(rs))|
  }

  /** At every message boundary, the records up to the end of the next message fit. */
  ghost predicate AllFit(p: seq<byte>, rs: seq<Record>) {
    forall j: nat | j < |rs| && Wanted(p, rs, j) :: FitsBehind(p, rs, j)
  }

  lemma TakenFirst(p: seq<byte>, x: seq<byte>)
    requires HasMessage(p)
    ensures Split(p + x) == [p[..MessageLength(p)]] + Split(p[MessageLength(p)..] + x)
    ensures Rest(p + x) == Rest(p[MessageLength(p)..] + x)
  {
    HasMessageMore(p, x);
  }

  lemma NoneTaken(p: seq<byte>)
    requires !HasMessage(p)
    ensures Split(p) == [] && Rest(p) == p
  {
  }

  lemma AllFitTaken(p: seq<byte>, rs: seq<Record>)
    requires HasMessage(p)
    ensures AllFit(p, rs) <==> AllFit(p[MessageLength(p)..], rs)
  {
    hide MessageLength, Split, Rest, Joined;
    var q := p[MessageLength(p)..];
    TakenFirst(p, Joined(rs));
    forall j: nat | j < |rs|
      ensures Wanted(p, rs, j) == Wanted(q, rs, j) && FitsBehind(p, rs, j) == FitsBehind(q, rs, j)
    {
      TakenFirst(p, Joined(rs[..j]));
    }
    assert AllFit(p, rs) <==> forall j: nat | j < |rs| && Wanted(q, rs, j) :: FitsBehind(q, rs, j);
  }

  lemma AllFitStep(p: seq<byte>, rs: seq<Record>)
    requires !HasMessage(p) && |rs| > 0 && Split(p + Joined(rs)) != []
    ensures AllFit(p, rs) <==> |p| + |rs[0].payload| <= BUFFER_SIZE && AllFit(p + Part(rs[0]), rs[1..])
  {
    hide HasMessage, MessageLength, Split, Rest, Joined, Part, Wanted, FitsBehind, AllFit;
    var q, ts := p + Part(rs[0]), rs[1..];
    FirstWanted(p, rs);
    forall j: nat | j < |ts|
      ensures Wanted(p, rs, j + 1) == Wanted(q, ts, j) && FitsBehind(p, rs, j + 1) == FitsBehind(q, ts, j)
    {
      LaterWanted(p, rs, j);
    }
    AllFitShift(p, rs, q, ts);
  }

  lemma FirstWanted(p: seq<byte>, rs: seq<Record>)
    requires !HasMessage(p) && |rs| > 0 && Split(p + Joined(rs)) != []
    ensures Wanted(p, rs, 0) && (FitsBehind(p, rs, 0) <==> |p| + |rs[0].payload| <= BUFFER_SIZE)
  {
    hide HasMessage, MessageLength, Split, Rest, Joined;
    JoinedUnfold(rs);
    NoneTaken(p);
    assert rs[..0] == [] && p + [] == p;
  }

  lemma LaterWanted(p: seq<byte>, rs: seq<Record>, j: nat)
    requires j + 1 < |rs|
    ensures var q, ts := p + Part(rs[0]), rs[1..];
      Wanted(p, rs, j + 1) == Wanted(q, ts, j) && FitsBehind(p, rs, j + 1) == FitsBehind(q, ts, j)
  {
    hide HasMessage, MessageLength, Split, Rest, Joined, Part;
    JoinedUnfold(rs);
    JoinedFirst(rs, j + 1);
    assert p + Joined(rs[..j + 1]) == p + Part(rs[0]) + Joined(rs[1..][..j]);
    assert p + Joined(rs) == p + Part(rs[0]) + Joined(rs[1..]);
  }

  lemma AllFitShift(p: seq<byte>, rs: seq<Record>, q: seq<byte>, ts: seq<Record>)
    requires |rs| == |ts| + 1 && Wanted(p, rs, 0)
    requires forall j: nat | j < |ts| :: Wanted(p, rs, j + 1) == Wanted(q, ts, j) && FitsBehind(p, rs, j + 1) == FitsBehind(q, ts, j)
    ensures AllFit(p, rs) <==> FitsBehind(p, rs, 0) && AllFit(q, ts)
  {
    hide Wanted, FitsBehind;
    forall j: nat | j < |ts| && AllFit(p, rs) && Wanted(q, ts, j)
      ensures FitsBehind(q, ts, j)
    {
      assert Wanted(p, rs, j + 1);
    }
    forall j: nat | j < |rs| && FitsBehind(p, rs, 0) && AllFit(q, ts) && Wanted(p, rs, j)
      ensures FitsBehind(p, rs, j)
    {
      if j > 0 {
        assert Wanted(q, ts, j - 1);
      }
    }
  }

  /** A full buffer that holds no whole message stays so: the record that would complete one does not fit. */
  lemma {:induction false} FullStaysShort(p: seq<byte>, rs: seq<Record>)
    requires !HasMessage(p) && |p| >= BUFFER_SIZE && Split(p + Joined(rs)) != []
    ensures !AllFit(p, rs)
    decreases |rs|
  {
    hide HasMessage, MessageLength, Split, Joined, AllFit;
    JoinedUnfold(rs);
    NoneTaken(p);
    assert p + [] == p;
    if |rs| > 0 {
      AllFitStep(p, rs);
      assert p + Joined(rs) == p + Part(rs[0]) + Joined(rs[1..]);
      if rs[0].payload == [] {
        assert p + Part(rs[0]) == p;
        FullStaysShort(p, rs[1..]);
      }
    }
  }

  /** Successive calls return all the messages exactly when the records fit at every message boundary. */
  lemma {:induction false} CallsReadAllIff(p: seq<byte>, s: seq<byte>)
    ensures var all := Split(p + Joined(Records(s)));
      Calls(p, s, |all|) == all <==> AllFit(p, Records(s))
    decreases |s|, |p|
  {
    hide Next, FirstRecord, AfterRecord, MessageLength, Records, Part, Split, Rest, AllFit, Joined;
    var rs := Records(s);
    var b := p + Joined(rs);
    if Split(b) == [] {
      NothingWanted(p, rs);
    } else if HasMessage(p) {
      var q := p[MessageLength(p)..];
      NextNow(p, s);
      MessageShorter(p);
      TakenFirst(p, Joined(rs));
      AllFitTaken(p, rs);
      CallsReadAllIff(q, s);
      CallsFirst(p, s, |Split(b)|);
      SameTail(p[..MessageLength(p)], Calls(q, s, |Split(b)| - 1), Split(q + Joined(rs)));
    } else {
      JoinedUnfold(rs);
      NoneTaken(p);
      assert rs == [] ==> b == p;
      RecordsLeft(s);
      NextStep(p, s);
      AllFitStep(p, rs);
      assert rs[..0] == [];
      assert b == p + Part(rs[0]) + Joined(rs[1..]);
      if |p| < BUFFER_SIZE && Fits(p, rs, 0) {
        CallsReadAllIff(p + Part(rs[0]), AfterRecord(s));
        CallsSame(p, s, p + Part(rs[0]), AfterRecord(s), |Split(b)|);
      } else {
        if |p| >= BUFFER_SIZE {
          FullStaysShort(p, rs);
        }
        CallsFail(p, s, |Split(b)|);
      }
    }
  }

  lemma SameTail<T>(x: T, a: seq<T>, b: seq<T>)
    ensures [x] + a == [x] + b <==> a == b
  {
    assert a == ([x] + a)[1..] && b == ([x] + b)[1..];
  }

  lemma NothingWanted(p: seq<byte>, rs: seq<Record>)
    requires Split(p + Joined(rs)) == []
    ensures AllFit(p, rs)
  {
  }

  lemma MessageShorter(p: seq<byte>)
    requires HasMessage(p)
    ensures 0 < MessageLength(p) <= |p|
  {
  }

  lemma CallsFirst(p: seq<byte>, s: seq<byte>, n: nat)
    requires n > 0 && Next(p, s).Message?
    ensures Calls(p, s, n) == [Next(p, s).bytes] + Calls(Next(p, s).pending, Next(p, s).stream, n - 1)
  {
  }

  lemma CallsSame(p: seq<byte>, s: seq<byte>, q: seq<byte>, t: seq<byte>, n: nat)
    requires Next(p, s) == Next(q, t)
    ensures Calls(p, s, n) == Calls(q, t, n)
  {
  }

  lemma CallsFail(p: seq<byte>, s: seq<byte>, n: nat)
    requires Next(p, s) == Failure
    ensures Calls(p, s, n) == []
  {
  }

  /** Every record leaves room for the longest message but one byte. */
  ghost predicate Small(rs: seq<Record>, limit: nat) {
    forall r :: r in rs ==> |r.payload| + limit <= BUFFER_SIZE + 1
  }

  /** With records and messages together no longer than the buffer, a call returns a message whenever there is one. */
  lemma {:induction false} SmallRecordsSuffice(p: seq<byte>, s: seq<byte>, limit: nat)
    requires Small(Records(s), limit) && HasMessage(p + Joined(Records(s)))
    requires MessageLength(p + Joined(Records(s))) <= limit <= BUFFER_SIZE
    ensures Next(p, s).Message?
    decreases |s|
  {
    hide Next, FirstRecord, AfterRecord, HasMessage, MessageLength, Records, Part, Small;
    var rs := Records(s);
    NextIfNow(p, s);
    if !HasMessage(p) {
      PartialIsShort(p, Joined(rs));
      RecordsLeft(s);
      JoinedUnfold(rs);
      assert |rs| == 0 ==> p + Joined(rs) == p;
      SmallUnfold(rs, limit);
      assert rs[..0] == [];
      NextStep(p, s);
      var q := p + Part(rs[0]);
      assert p + Joined(rs) == q + Joined(rs[1..]);
      SmallRecordsSuffice(q, AfterRecord(s), limit);
    }
  }

  /** What is pending of a message is shorter than the message. */
  lemma PartialIsShort(p: seq<byte>, q: seq<byte>)
    requires !HasMessage(p) && HasMessage(p + q)
    ensures |p| < MessageLength(p + q)
  {
    assert |p| >= 4 ==> MessageLength(p) == MessageLength(p + q);
  }

  lemma JoinedUnfold(rs: seq<Record>)
    ensures Joined([]) == []
    ensures |rs| > 0 ==> Joined(rs) == Part(rs[0]) + Joined(rs[1..])
  {
  }

  lemma SmallUnfold(rs: seq<Record>, limit: nat)
    requires Small(rs, limit)
    ensures |rs| > 0 ==> |rs[0].payload| + limit <= BUFFER_SIZE + 1 && Small(rs[1..], limit)
  {
  }

  lemma {:induction false} NextKeepsRecords(p: seq<byte>, s: seq<byte>, limit: nat)
    requires Next(p, s).Message? && Small(Records(s), limit)
    ensures Small(Records(Next(p, s).stream), limit)
    decreases |s|
  {
    hide FirstRecord, AfterRecord, HasMessage, MessageLength, Records, Part;
    if HasMessage(p) {
      NextNow(p, s);
    } else {
      NextStep(p, s);
      RecordsLeft(s);
      NextKeepsRecords(p + Part(Records(s)[0]), AfterRecord(s), limit);
    }
  }

  /** Then successive calls return all the messages, not just the first ones. */
  lemma {:induction false} CallsReadAll(p: seq<byte>, s: seq<byte>, n: nat, limit: nat)
    requires Small(Records(s), limit) && limit <= BUFFER_SIZE && n == |Split(p + Joined(Records(s)))|
    requires forall m :: m in Split(p + Joined(Records(s))) ==> |m| <= limit
    ensures Calls(p, s, n) == Split(p + Joined(Records(s)))
    decreases n
  {
    var b := p + Joined(Records(s));
    if n > 0 {
      assert Split(b)[0] == b[..MessageLength(b)];
      SmallRecordsSuffice(p, s, limit);
      var r := Next(p, s);
      NextTakesFirst(p, s);
      NextKeepsRecords(p, s, limit);
      assert Split(b)[1..] == Split(b[MessageLength(b)..]);
      CallsReadAll(r.pending, r.stream, n - 1, limit);
    }
  }

  /**
   Without the bound the promise fails: behind a message header that a record of its own has brought, a
   record of the full size that section 5.1 of RFC 8446 allows does not fit, although it completes the message.
   */
  lemma FullRecordBehindHeader(payload: seq<byte>)
    requires |payload| == 16384
    ensures var header: seq<byte> := [2, 0, 0, 12];
      var s := [HANDSHAKE, 3, 3, 0x40, 0] + payload;
      HasMessage(header + Joined(Records(s))) && Next(header, s) == Failure
  {
    var header: seq<byte> := [2, 0, 0, 12];
    var s := [HANDSHAKE, 3, 3, 0x40, 0] + payload;
    assert FirstRecord(s) == Some(Record(HANDSHAKE, payload)) by {
      assert s[5..5 + 16384] == payload;
    }
    assert |AfterRecord(s)| == 0;
    assert Records(s) == [Record(HANDSHAKE, payload)];
    assert Joined(Records(s)) == payload by {
      assert Joined([]) == [];
    }
  }

  ghost function Flat(chunks: seq<seq<byte>>): seq<byte> {
    if |chunks| == 0 then [] else chunks[0] + Flat(chunks[1..])
  }

  // ---- Messages as a peer encodes them ----

  /** A message as section 4 of RFC 8446 has it: a type, the length of the body in three bytes, and the body. */
  ghost predicate Encoded(m: seq<byte>) {
    |m| >= 4 && |m| - 4 == 0x1_0000 * m[1] as int + 0x100 * m[2] as int + m[3] as int
  }

  /** An encoded message is taken whole, whatever follows. */
  lemma EncodedIsTaken(m: seq<byte>, rest: seq<byte>)
    requires Encoded(m)
    ensures HasMessage(m + rest) && MessageLength(m + rest) == |m|
    ensures (m + rest)[..|m|] == m && (m + rest)[|m|..] == rest
  {
  }

  /** The same with the parts of the message written out. */
  lemma MessageParts(kind: byte, high: byte, middle: byte, low: byte, body: seq<byte>, rest: seq<byte>)
    requires |body| == 0x1_0000 * high as int + 0x100 * middle as int + low as int
    ensures HasMessage([kind, high, middle, low] + body + rest)
    ensures MessageLength([kind, high, middle, low] + body + rest) == 4 + |body|
  {
    EncodedIsTaken([kind, high, middle, low] + body, rest);
  }

  /** When a message is there, and when a record is, on the bytes themselves. */
  lemma WholeIff(p: seq<byte>)
    ensures HasMessage(p) <==> |p| >= 4 && |p| >= 4 + 0x1_0000 * p[1] as int + 0x100 * p[2] as int + p[3] as int
    ensures FirstRecord(p).Some? <==> |p| >= 5 && p[1] == 3 && |p| >= 5 + 0x100 * p[3] as int + p[4] as int
  {
  }

  /** A record of any other type than 20 and 22 makes the call fail that needs it. */
  lemma OtherKindFails(p: seq<byte>, s: seq<byte>)
    requires !HasMessage(p) && FirstRecord(s).Some? && s[0] != 20 && s[0] != 22
    ensures Next(p, s) == Failure
  {
  }

  /** Encoded messages joined together split into exactly these messages. */
  lemma {:induction false} SplitEncoded(ms: seq<seq<byte>>)
    requires forall i :: 0 <= i < |ms| ==> Encoded(ms[i])
    ensures Split(Flat(ms)) == ms && Rest(Flat(ms)) == []
    decreases |ms|
  {
    hide HasMessage, MessageLength, Encoded;
    if |ms| == 0 {
      NoMessage();
    } else {
      SplitEncoded(ms[1..]);
      EncodedIsTaken(ms[0], Flat(ms[1..]));
    }
  }

  lemma NoMessage()
    ensures !HasMessage([])
  {
  }

  /** Records on the wire (section 5.1 of RFC 8446): a type, the version 3.x, the length of the payload in two bytes, the payload. */
  ghost function Wire(rs: seq<Record>, minor: byte): seq<byte> {
    if |rs| == 0 then [] else
      [rs[0].kind, 3, minor, (|rs[0].payload| / 0x100 % 0x100) as byte, (|rs[0].payload| % 0x100) as byte] + rs[0].payload + Wire(rs[1..], minor)
  }

  lemma WireFirst(rs: seq<Record>, minor: byte)
    requires |rs| > 0 && |rs[0].payload| < 0x1_0000
    ensures FirstRecord(Wire(rs, minor)) == Some(rs[0]) && AfterRecord(Wire(rs, minor)) == Wire(rs[1..], minor)
  {
    var w, n := Wire(rs, minor), |rs[0].payload|;
    assert Read16(w, 3) == n;
    assert w[5..5 + n] == rs[0].payload && w[5 + n..] == Wire(rs[1..], minor);
  }

  /** Change-cipher-spec and handshake records, of types 20 and 22, are read back as they were sent. */
  lemma {:induction false} WireRecords(rs: seq<Record>, minor: byte)
    requires forall i :: 0 <= i < |rs| ==> (rs[i].kind == 20 || rs[i].kind == 22) && |rs[i].payload| < 0x1_0000
    ensures Records(Wire(rs, minor)) == rs
    decreases |rs|
  {
    hide FirstRecord, AfterRecord;
    if |rs| == 0 {
      NoRecord();
    } else {
      WireFirst(rs, minor);
      WireRecords(rs[1..], minor);
    }
  }

  lemma NoRecord()
    ensures FirstRecord([]) == None
  {
  }

  /** The payloads of the handshake records, joined. */
  ghost function Payloads(rs: seq<Record>): seq<byte> {
    if |rs| == 0 then [] else (if rs[0].kind == 22 then rs[0].payload else []) + Payloads(rs[1..])
  }

  lemma {:induction false} PayloadsJoined(rs: seq<Record>)
    ensures Joined(rs) == Payloads(rs)
    decreases |rs|
  {
    if |rs| > 0 {
      PayloadsJoined(rs[1..]);
    }
  }

  /**
   What a peer sends is what successive calls return: for messages encoded as the standard says, cut into handshake
   records in any way, with change-cipher-spec records anywhere between, calls return these messages, in order, none
   skipped or changed; all of them exactly when the records fit at every message boundary.
   */
  lemma SentIsRead(ms: seq<seq<byte>>, rs: seq<Record>, minor: byte, n: nat)
    requires forall i :: 0 <= i < |ms| ==> Encoded(ms[i])
    requires forall i :: 0 <= i < |rs| ==> (rs[i].kind == 20 || rs[i].kind == 22) && |rs[i].payload| < 0x1_0000
    requires Payloads(rs) == Flat(ms)
    ensures Calls([], Wire(rs, minor), n) <= ms
    ensures Calls([], Wire(rs, minor), |ms|) == ms <==> AllFit([], rs)
  {
    hide Encoded, Calls, Split, AllFit, Wire, Payloads, Records, Joined;
    WireRecords(rs, minor);
    PayloadsJoined(rs);
    SplitEncoded(ms);
    assert [] + Joined(rs) == Flat(ms);
    CallsReadMessages([], Wire(rs, minor), n);
    CallsReadAllIff([], Wire(rs, minor));
  }

  ghost function Overwrite(s: seq<byte>, at: nat, t: seq<byte>): (r: seq<byte>)
    requires at + |t| <= |s|
    ensures |r| == |s|
  {
    s[..at] + t + s[at + |t|..]
  }

  lemma OverwriteNone(out: seq<byte>, at: nat)
    requires at <= |out|
    ensures Overwrite(out, at, []) == out
  {
  }

  lemma OverwriteOne(out: seq<byte>, at: nat, t: seq<byte>, b: byte)
    requires at + |t| < |out|
    ensures Overwrite(out, at, t)[at + |t| := b] == Overwrite(out, at, t + [b])
  {
  }

  lemma OverwriteTwice(out: seq<byte>, at: nat, s: seq<byte>, n: nat, take: nat)
    requires n + take <= |s| && at + n + take <= |out|
    ensures Overwrite(Overwrite(out, at, s[..n]), at + n, s[n..][..take]) == Overwrite(out, at, s[..n + take])
    ensures s[n..][take..] == s[n + take..]
  {
    assert s[..n + take] == s[..n] + s[n..][..take];
  }

  lemma KeptBefore(out: seq<byte>, at: nat, t: seq<byte>)
    requires at + |t| <= |out|
    ensures Overwrite(out, at, t)[..at] == out[..at] && Overwrite(out, at, t)[at..at + |t|] == t
  {
  }

  // ---- The connection ----

  class Connection {
    const receive: array<byte>
    var receiveStart: nat
    var receiveEnd: nat
    const hs: array<byte>
    var start: nat
    var end: nat
    var incoming: seq<seq<byte>>

    ghost predicate Valid()
      reads this
    {
      && receive.Length == BUFFER_SIZE && hs.Length == BUFFER_SIZE && receive != hs
      && receiveStart <= receiveEnd <= BUFFER_SIZE
      && start <= end <= BUFFER_SIZE
      && (forall i :: 0 <= i < |incoming| ==> 0 < |incoming[i]| <= BUFFER_SIZE)
    }

    /** The bytes the peer's stream still holds: those received and those to come. */
    ghost function Stream(): seq<byte>
      requires Valid()
      reads this, receive
    {
      receive[receiveStart..receiveEnd] + Flat(incoming)
    }

    ghost function Pending(): seq<byte>
      requires Valid()
      reads this, hs
    {
      hs[start..end]
    }

    constructor (chunks: seq<seq<byte>>)
      requires forall i :: 0 <= i < |chunks| ==> 0 < |chunks[i]| <= BUFFER_SIZE
      ensures Valid() && fresh(receive) && fresh(hs) && Pending() == [] && Stream() == Flat(chunks)
    {
      receive := new byte[BUFFER_SIZE](_ => 0);
      hs := new byte[BUFFER_SIZE](_ => 0);
      receiveStart, receiveEnd, start, end, incoming := 0, 0, 0, 0, chunks;
    }

    /** `net_tcp_receive` into the receive buffer: the next chunk of the stream, or a failure when it has ended. */
    method Refill() returns (ok: bool)
      requires Valid() && receiveStart == receiveEnd
      modifies this`receiveStart, this`receiveEnd, this`incoming, receive
      ensures Valid() && Stream() == old(Stream())
      ensures if ok then receiveStart < receiveEnd else |Stream()| == 0
    {
      if |incoming| == 0 {
        return false;
      }
      var chunk := incoming[0];
      for i := 0 to |chunk|
        modifies receive
        invariant receive[..i] == chunk[..i]
      {
        receive[i] := chunk[i];
      }
      receiveStart, receiveEnd := 0, |chunk|;
      incoming := incoming[1..];
      ok := true;
    }

    /** Copies received bytes out. */
    method CopyOut(output: array<byte>, at: nat, take: nat)
      requires Valid() && output != receive && at + take <= output.Length && receiveStart + take <= receiveEnd
      modifies this`receiveStart, output
      ensures Valid() && receiveStart == old(receiveStart) + take
      ensures take <= |old(Stream())| && Stream() == old(Stream())[take..]
      ensures output[..] == Overwrite(old(output[..]), at, old(Stream())[..take])
    {
      hide Flat, Overwrite;
      ghost var out, r := output[..], receive[receiveStart..receiveEnd];
      OverwriteNone(out, at);
      assert Stream()[..take] == r[..take] && Stream()[take..] == r[take..] + Flat(incoming);
      for i := 0 to take
        modifies output
        invariant output[..] == Overwrite(out, at, r[..i])
      {
        OverwriteOne(out, at, r[..i], r[i]);
        output[at + i] := receive[receiveStart + i];
        assert r[..i + 1] == r[..i] + [receive[receiveStart + i]];
      }
      receiveStart := receiveStart + take;
    }

    /** `tls_read_exact`: the next bytes of the stream, exactly when it holds as many. */
    method ReadExact(output: array<byte>, at: nat, length: nat) returns (ok: bool)
      requires Valid() && output != receive && at + length <= output.Length
      modifies this`receiveStart, this`receiveEnd, this`incoming, receive, output
      ensures Valid() && ok == (length <= |old(Stream())|)
      ensures ok ==> Stream() == old(Stream())[length..]
      ensures ok ==> output[..] == Overwrite(old(output[..]), at, old(Stream())[..length])
      ensures output[..at] == old(output[..at])
    {
      hide Flat, Overwrite, Stream;
      ghost var s, out := Stream(), output[..];
      var copied := 0;
      OverwriteNone(out, at);
      assert s[0..] == s;
      while copied < length
        invariant Valid() && copied <= length && copied <= |s| && Stream() == s[copied..]
        invariant output[..] == Overwrite(out, at, s[..copied])
        decreases length - copied, receiveStart == receiveEnd
      {
        if receiveStart < receiveEnd {
          var available := receiveEnd - receiveStart;
          var take := if length - copied < available then length - copied else available;
          CopyOut(output, at + copied, take);
          OverwriteTwice(out, at, s, copied, take);
          copied := copied + take;
        } else {
          var received := Refill();
          if !received {
            KeptBefore(out, at, s[..copied]);
            return false;
          }
        }
      }
      KeptBefore(out, at, s[..copied]);
      ok := true;
    }

    /** `tls_read_record` into the handshake buffer. */
    method ReadRecord(at: nat, capacity: nat) returns (ok: bool, kind: byte, length: nat)
      requires Valid() && at + capacity <= BUFFER_SIZE
      modifies this`receiveStart, this`receiveEnd, this`incoming, receive, hs
      ensures Valid() && hs[..at] == old(hs[..at])
      ensures ok == (FirstRecord(old(Stream())).Some? && |FirstRecord(old(Stream())).value.payload| <= capacity)
      ensures ok ==> length <= capacity && FirstRecord(old(Stream())).value == Record(kind, hs[at..at + length])
      ensures ok ==> Stream() == AfterRecord(old(Stream()))
    {
      ghost var s := Stream();
      kind, length := 0, 0;
      var header := new byte[5](_ => 0);
      ok := ReadExact(header, 0, 5);
      if !ok {
        return;
      }
      assert header[..] == s[..5];
      length := Read16(header[..], 3);
      assert length == Read16(s, 3);
      if header[1] != 3 || length > capacity {
        return false, 0, 0;
      }
      ghost var out := hs[..];
      ok := ReadExact(hs, at, length);
      if ok {
        KeptBefore(out, at, s[5..][..length]);
        assert hs[at..at + length] == hs[..][at..at + length] == s[5..5 + length] && s[5..][length..] == s[5 + length..];
      }
      kind := header[0];
    }

    /** Moves the pending bytes to the front of the buffer. */
    method Compact()
      requires Valid()
      modifies this`start, this`end, hs
      ensures Valid() && start == 0 && Pending() == old(Pending())
    {
      if start > 0 {
        ghost var p := Pending();
        var remaining := end - start;
        for i := 0 to remaining
          modifies hs
          invariant hs[..i] == p[..i] && hs[start + i..end] == p[i..]
        {
          assert hs[start + i] == hs[start + i..end][0];
          hs[i] := hs[start + i];
        }
        start, end := 0, remaining;
      }
    }

    /** Takes the message at the front of the pending bytes, if it is all there. */
    method TakeMessage() returns (ok: bool, kind: byte, at: nat, length: nat)
      requires Valid()
      modifies this`start
      ensures Valid() && ok == HasMessage(old(Pending()))
      ensures ok ==> length == MessageLength(old(Pending())) && at + length <= BUFFER_SIZE && Pending() == old(Pending())[length..]
      ensures ok ==> hs[at..at + length] == old(Pending())[..length] && kind == hs[at]
      ensures !ok ==> start == old(start)
    {
      var available := end - start;
      if available >= 4 {
        var body := Read24(hs[start..end], 1);
        var total := 4 + body;
        if available >= total {
          SliceOfSlice(hs[..], start, end, 0, total);
          SliceOfSlice(hs[..], start, end, total, end - start);
          ok, kind, at, length := true, hs[start], start, total;
          start := start + total;
          return;
        }
      }
      ok, kind, at, length := false, 0, 0, 0;
    }

    /** Reads one more record behind the pending bytes; `more` says that the call goes on. */
    method AddRecord() returns (more: bool)
      requires Valid() && !HasMessage(Pending())
      modifies this, receive, hs
      ensures Valid()
      ensures more ==> Next(Pending(), Stream()) == old(Next(Pending(), Stream())) && |Stream()| < |old(Stream())|
      ensures !more ==> old(Next(Pending(), Stream())) == Failure
    {
      hide Next, FirstRecord, AfterRecord, HasMessage, Flat;
      ghost var p, s := Pending(), Stream();
      NextByRecord(p, s);
      Compact();
      if end >= BUFFER_SIZE {
        return false;
      }
      var recordType, recordLength;
      more, recordType, recordLength := ReadRecord(end, BUFFER_SIZE - end);
      assert hs[..end] == Pending() == p;
      if !more || recordType == CHANGE_CIPHER_SPEC {
        return;
      }
      if recordType != HANDSHAKE {
        return false;
      }
      assert hs[..end + recordLength] == hs[..end] + hs[end..end + recordLength];
      end := end + recordLength;
    }

    /** `tls_read_handshake_message` without encryption. */
    method ReadMessage() returns (ok: bool, kind: byte, at: nat, length: nat)
      requires Valid()
      modifies this, receive, hs
      ensures Valid() && ok == Next(old(Pending()), old(Stream())).Message?
      ensures ok ==> at + length <= BUFFER_SIZE && length > 0 && kind == hs[at]
      ensures ok ==> Next(old(Pending()), old(Stream())) == Message(hs[at..at + length], Pending(), Stream())
    {
      ghost var outcome := Next(Pending(), Stream());
      while true
        invariant Valid() && outcome == Next(Pending(), Stream())
        decreases |Stream()|
      {
        ok, kind, at, length := TakeMessage();
        if ok {
          return;
        }
        var more := AddRecord();
        if !more {
          return;
        }
      }
    }
  }
}
