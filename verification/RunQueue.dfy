/** The run queue of `proces.cpp`: 140 priority lists of linked processes under a bitmap, for one processor. */
module RunQueue {
  import opened BitWords

  const NR_PRIORITIES: nat := 140
  const WORDS: nat := 5

  datatype SchedClass = Idle | Background | Normal | Interactive | Realtime | Critical
  datatype State = Terminated | Ready | Running | Blocked | Sleeping | Zombie

  /** The fields of `struct proces` that scheduling reads and writes. */
  class Process {
    var state: State
    var schedClass: SchedClass
    var priority: int
    var vruntime: nat
    var runNext: Process?
    var runPrev: Process?
    ghost var stamp: nat
  }

  /** `prio_clamp`. */
  function Clamp(p: int): (q: nat)
    ensures q < NR_PRIORITIES
    ensures 0 <= p < NR_PRIORITIES ==> q == p
    ensures p < 0 ==> q == 0
    ensures p > 139 ==> q == 139
  {
    if p < 0 then 0 else if p >= NR_PRIORITIES then NR_PRIORITIES - 1 else p
  }

  predicate Urgent(c: SchedClass) {
    c == Realtime || c == Critical
  }

  // ---- Order of one list ----

  /** What the order of a list depends on; the stamp counts enqueue operations. */
  datatype Key = Key(urgent: bool, vruntime: nat, stamp: nat)

  ghost function KeyOf(p: Process): Key
    reads p
  {
    Key(Urgent(p.schedClass), p.vruntime, p.stamp)
  }

  ghost function Keys(list: seq<Process>): (ks: seq<Key>)
    reads list
    ensures |ks| == |list|
  {
    seq(|list|, i requires 0 <= i < |list| reads list => KeyOf(list[i]))
  }

  /** Whether two keys may stand in this order. */
  ghost predicate InOrder(a: Key, b: Key) {
    && (!b.urgent ==> a.vruntime <= b.vruntime)
    && (a.urgent && b.urgent ==> a.stamp < b.stamp)
    && (!a.urgent && !b.urgent && a.vruntime == b.vruntime ==> a.stamp < b.stamp)
  }

  /**
   Urgent processes stand in the order of their arrival; every other process comes after nothing with
   a larger virtual run time, and ties among them are in the order of arrival.
   */
  ghost predicate Ordered(ks: seq<Key>) {
    forall i, j :: 0 <= i < j < |ks| ==> InOrder(ks[i], ks[j])
  }

  /** Where `runq_enqueue` puts a key: at the end when urgent, else before the first larger virtual run time. */
  ghost predicate IsSpot(ks: seq<Key>, key: Key, k: nat) {
    && k <= |ks|
    && (key.urgent ==> k == |ks|)
    && (!key.urgent ==> forall i :: 0 <= i < k ==> ks[i].vruntime <= key.vruntime)
    && (k < |ks| ==> ks[k].vruntime > key.vruntime)
  }

  ghost function Inserted<T>(s: seq<T>, k: nat, x: T): seq<T>
    requires k <= |s|
  {
    s[..k] + [x] + s[k..]
  }

  ghost function Removed<T>(s: seq<T>, k: nat): seq<T>
    requires k < |s|
  {
    s[..k] + s[k + 1..]
  }

  /** A newcomer at its spot keeps the order. */
  lemma InsertKeepsOrder(ks: seq<Key>, key: Key, k: nat)
    requires Ordered(ks) && IsSpot(ks, key, k)
    requires forall i :: 0 <= i < |ks| ==> ks[i].stamp < key.stamp
    ensures Ordered(Inserted(ks, k, key))
  {
    var t := Inserted(ks, k, key);
    forall i, j | 0 <= i < j < |t|
      ensures InOrder(t[i], t[j])
    {
      if i == k && j > k + 1 {
        assert InOrder(ks[k], ks[j - 1]);
      }
    }
  }

  lemma RemoveKeepsOrder(ks: seq<Key>, k: nat)
    requires Ordered(ks) && k < |ks|
    ensures Ordered(Removed(ks, k))
  {
  }

  /** There is one spot only, so the order of the list is a function of what was enqueued. */
  lemma SpotUnique(ks: seq<Key>, key: Key, k: nat, k': nat)
    requires IsSpot(ks, key, k) && IsSpot(ks, key, k')
    ensures k == k'
  {
  }

  /**
   Among urgent processes only, or among others only, the order is determined by which processes are
   queued: first in, first out, and ascending virtual run time with ties in order of arrival.
   */
  lemma {:induction false} OrderUnique(ks: seq<Key>, ls: seq<Key>, urgent: bool)
    requires Ordered(ks) && Ordered(ls) && multiset(ks) == multiset(ls)
    requires forall key :: key in ks ==> key.urgent == urgent
    ensures ks == ls
    decreases |ks|
  {
    hide Ordered, InOrder;
    if |ks| == 0 {
      assert |multiset(ks)| == |multiset(ls)|;
    } else {
      assert ks[0] in multiset(ks);
      SameFirst(ks, ls, urgent);
      OrderedTail(ks);
      OrderedTail(ls);
      assert ks == [ks[0]] + ks[1..] && ls == [ls[0]] + ls[1..];
      assert multiset(ks[1..]) == multiset(ks) - multiset{ks[0]};
      assert multiset(ls[1..]) == multiset(ls) - multiset{ls[0]};
      OrderUnique(ks[1..], ls[1..], urgent);
    }
  }

  lemma OrderedTail(ks: seq<Key>)
    requires Ordered(ks) && |ks| > 0
    ensures Ordered(ks[1..])
  {
  }

  lemma SameFirst(ks: seq<Key>, ls: seq<Key>, urgent: bool)
    requires Ordered(ks) && Ordered(ls) && multiset(ks) == multiset(ls) && |ks| > 0
    requires forall key :: key in ks ==> key.urgent == urgent
    ensures |ls| > 0 && ks[0] == ls[0]
  {
    hide Ordered;
    assert ks[0] in multiset(ks);
    var j :| 0 <= j < |ls| && ls[j] == ks[0];
    assert ls[0] in multiset(ls);
    var i :| 0 <= i < |ks| && ks[i] == ls[0];
    InOrderAt(ks, 0, i);
    InOrderAt(ls, 0, j);
  }

  lemma InOrderAt(ks: seq<Key>, i: nat, j: nat)
    requires Ordered(ks) && j < |ks|
    ensures i < j ==> InOrder(ks[i], ks[j])
  {
  }

  /** What the spot of a process is, by its class: the end, or before the first larger virtual run time. */
  lemma SpotByClass(kind: SchedClass, ks: seq<Key>, vruntime: nat, stamp: nat, k: nat)
    requires IsSpot(ks, Key(Urgent(kind), vruntime, stamp), k)
    ensures k <= |ks| && (kind == Realtime || kind == Critical ==> k == |ks|)
    ensures kind in {Idle, Background, Normal, Interactive} ==> forall i :: 0 <= i < k ==> ks[i].vruntime <= vruntime
    ensures kind in {Idle, Background, Normal, Interactive} ==> k < |ks| ==> ks[k].vruntime > vruntime
  {
  }

  // ---- Links ----

  ghost function At(list: seq<Process>, i: int): Process? {
    if 0 <= i < |list| then list[i] else null
  }

  /** Both link fields of every process describe the list. */
  ghost predicate Linked(list: seq<Process>)
    reads list
  {
    forall i :: 0 <= i < |list| ==> list[i].runPrev == At(list, i - 1) && list[i].runNext == At(list, i + 1)
  }

  ghost predicate Distinct(list: seq<Process>) {
    forall i, j :: 0 <= i < j < |list| ==> list[i] != list[j]
  }

  /** Links that describe a list except around place k, where they point to the newcomer p. */
  lemma InsertLinks(list: seq<Process>, k: nat, p: Process)
    requires k <= |list| && p.runPrev == At(list, k - 1) && p.runNext == At(list, k)
    requires forall i :: 0 <= i < |list| ==> list[i].runNext == if i == k - 1 then p else At(list, i + 1)
    requires forall i :: 0 <= i < |list| ==> list[i].runPrev == if i == k then p else At(list, i - 1)
    ensures Linked(Inserted(list, k, p))
  {
    var t := Inserted(list, k, p);
    forall i | 0 <= i < |t|
      ensures t[i].runPrev == At(t, i - 1) && t[i].runNext == At(t, i + 1)
    {
      if i < k {
        assert t[i] == list[i];
      } else if i > k {
        assert t[i] == list[i - 1];
      }
    }
  }

  /** Links that describe a list except around place k, which they pass over. */
  lemma RemoveLinks(list: seq<Process>, k: nat)
    requires k < |list|
    requires forall i :: 0 <= i < |list| && i != k ==> list[i].runNext == if i == k - 1 then At(list, k + 1) else At(list, i + 1)
    requires forall i :: 0 <= i < |list| && i != k ==> list[i].runPrev == if i == k + 1 then At(list, k - 1) else At(list, i - 1)
    ensures Linked(Removed(list, k))
  {
    var t := Removed(list, k);
    forall i | 0 <= i < |t|
      ensures t[i].runPrev == At(t, i - 1) && t[i].runNext == At(t, i + 1)
    {
      if i < k {
        assert t[i] == list[i];
      } else {
        assert t[i] == list[i + 1];
      }
    }
  }

  lemma RemoveDistinct(list: seq<Process>, k: nat)
    requires Distinct(list) && k < |list|
    ensures Distinct(Removed(list, k)) && list[k] !in Removed(list, k)
  {
  }

  lemma InsertKeys(list: seq<Process>, k: nat, p: Process)
    requires k <= |list|
    ensures Keys(Inserted(list, k, p)) == Inserted(Keys(list), k, KeyOf(p))
  {
  }

  lemma RemoveKeys(list: seq<Process>, k: nat)
    requires k < |list|
    ensures Keys(Removed(list, k)) == Removed(Keys(list), k)
  {
  }

  lemma InsertMembers(list: seq<Process>, k: nat, p: Process)
    requires k <= |list|
    ensures forall x :: x in Inserted(list, k, p) <==> x == p || x in list
  {
    assert Inserted(list, k, p)[k] == p;
    forall x | x in list
      ensures x in Inserted(list, k, p)
    {
      var i :| 0 <= i < |list| && list[i] == x;
      assert Inserted(list, k, p)[if i < k then i else i + 1] == x;
    }
  }

  lemma RemoveMembers(list: seq<Process>, k: nat)
    requires Distinct(list) && k < |list|
    ensures forall x :: x in Removed(list, k) <==> x != list[k] && x in list
  {
    forall x | x in list && x != list[k]
      ensures x in Removed(list, k)
    {
      var i :| 0 <= i < |list| && list[i] == x;
      assert Removed(list, k)[if i < k then i else i - 1] == x;
    }
  }

  lemma HeadNull(list: seq<Process>)
    ensures At(list, 0) == null <==> list == []
  {
  }

  lemma EndsOf(list: seq<Process>)
    ensures At(list, |list|) == null
  {
  }

  lemma AtEnds(list: seq<Process>, k: nat)
    requires k < |list| && Distinct(list)
    ensures At(list, 0) == list[0] && At(list, |list| - 1) == list[|list| - 1]
    ensures k == 0 ==> At(Removed(list, k), 0) != list[k]
    ensures k == |list| - 1 ==> At(Removed(list, k), |list| - 2) != list[k]
  {
    RemoveDistinct(list, k);
  }

  lemma InsertEnds(list: seq<Process>, k: nat, p: Process)
    requires k <= |list|
    ensures At(Inserted(list, k, p), 0) == if k == 0 then p else At(list, 0)
    ensures At(Inserted(list, k, p), |list|) == if k == |list| then p else At(list, |list| - 1)
  {
  }

  lemma RemoveEnds(list: seq<Process>, k: nat)
    requires k < |list|
    ensures At(Removed(list, k), 0) == if k == 0 then At(list, 1) else At(list, 0)
    ensures At(Removed(list, k), |list| - 2) == if k == |list| - 1 then At(list, |list| - 2) else At(list, |list| - 1)
  {
  }

  lemma InsertDistinct(list: seq<Process>, k: nat, p: Process)
    requires Distinct(list) && k <= |list| && p !in list
    ensures Distinct(Inserted(list, k, p))
  {
  }

  /** The queued processes are the members of the lists. */
  ghost predicate Covers(lists: seq<seq<Process>>, queued: set<Process>) {
    && (forall x :: x in queued ==> exists q: nat :: q < |lists| && x in lists[q])
    && (forall q: nat, x :: q < |lists| && x in lists[q] ==> x in queued)
  }

  lemma CoversInsert(lists: seq<seq<Process>>, queued: set<Process>, q: nat, k: nat, p: Process)
    requires Covers(lists, queued) && q < |lists| && k <= |lists[q]|
    ensures Covers(lists[q := Inserted(lists[q], k, p)], queued + {p})
  {
    var ls := lists[q := Inserted(lists[q], k, p)];
    InsertMembers(lists[q], k, p);
    assert p in ls[q];
    forall x | x in queued
      ensures exists r: nat :: r < |ls| && x in ls[r]
    {
      var r: nat :| r < |lists| && x in lists[r];
      assert x in ls[r];
    }
  }

  lemma CoversRemove(lists: seq<seq<Process>>, queued: set<Process>, q: nat, k: nat)
    requires Covers(lists, queued) && q < |lists| && k < |lists[q]| && Distinct(lists[q])
    requires forall r: nat :: r < |lists| && r != q ==> lists[q][k] !in lists[r]
    ensures Covers(lists[q := Removed(lists[q], k)], queued - {lists[q][k]})
  {
    var ls, p := lists[q := Removed(lists[q], k)], lists[q][k];
    RemoveMembers(lists[q], k);
    forall x | x in queued && x != p
      ensures exists r: nat :: r < |ls| && x in ls[r]
    {
      var r: nat :| r < |lists| && x in lists[r];
      assert x in ls[r];
    }
  }

  predicate MayRun(p: Process, current: Process?)
    reads p
  {
    (p.state == Ready || p.state == Running) && p != current
  }

  /** No process is picked that has ended, is blocked or sleeps, or is the current one; every other may be. */
  lemma MayRunStates(p: Process, current: Process?)
    ensures MayRun(p, current) <==> p != current && p.state !in {Terminated, Blocked, Sleeping, Zombie}
  {
  }

  class RunQueue {
    const bitmap: array<bv32>
    const head: array<Process?>
    const tail: array<Process?>
    var running: nat
    ghost var lists: seq<seq<Process>>
    ghost var queued: set<Process>
    ghost var clock: nat

    ghost predicate Valid()
      reads this, bitmap, head, tail, queued
    {
      && bitmap.Length == WORDS && head.Length == NR_PRIORITIES && tail.Length == NR_PRIORITIES && head != tail
      && |lists| == NR_PRIORITIES
      && running == |queued|
      && Covers(lists, queued)
      && (forall q: nat :: q < NR_PRIORITIES ==> ListValid(q, lists[q], clock))
      && (forall q: nat :: q < 32 * WORDS ==> BitValid(q))
    }

    /** The links and the ends of a priority describe a list. */
    ghost predicate Holds(q: nat, list: seq<Process>)
      requires q < head.Length && q < tail.Length
      reads head, tail, list
    {
      Linked(list) && head[q] == At(list, 0) && tail[q] == At(list, |list| - 1)
    }

    /** What holds of the list of a priority; the limit is above every stamp. */
    ghost predicate ListValid(q: nat, list: seq<Process>, limit: nat)
      requires q < head.Length && q < tail.Length
      reads head, tail, list
    {
      && Holds(q, list) && Distinct(list) && Ordered(Keys(list))
      && (forall p :: p in list ==> Clamp(p.priority) == q && p.stamp < limit)
    }

    ghost predicate BitValid(q: nat)
      requires bitmap.Length == WORDS && |lists| == NR_PRIORITIES && q < 32 * WORDS
      reads this, bitmap
    {
      Flag(bitmap, q) <==> q < NR_PRIORITIES && lists[q] != []
    }

    constructor ()
      ensures Valid() && queued == {} && fresh(bitmap) && fresh(head) && fresh(tail)
    {
      bitmap := new bv32[WORDS](_ => 0);
      head := new Process?[NR_PRIORITIES](_ => null);
      tail := new Process?[NR_PRIORITIES](_ => null);
      running := 0;
      lists := seq(NR_PRIORITIES, _ => []);
      queued := {};
      clock := 0;
      new;
      forall q: nat | q < 32 * WORDS
        ensures BitValid(q)
      {
        ZeroWord(BitOf(q));
      }
    }

    /** No list of a zero word has a member. */
    lemma EmptyWord(i: nat)
      requires Valid() && i < WORDS && bitmap[i] == 0
      ensures forall q: nat :: 32 * i <= q < 32 * (i + 1) && q < NR_PRIORITIES ==> lists[q] == []
    {
      hide ListValid, Marked;
      forall q: nat | 32 * i <= q < 32 * (i + 1) && q < NR_PRIORITIES
        ensures lists[q] == []
      {
        assert BitValid(q);
        ZeroWord(BitOf(q));
      }
    }

    /** The lowest set bit of a word belongs to its first list with members. */
    lemma FirstOfWord(i: nat, k: bv5)
      requires Valid() && i < WORDS && Marked(bitmap[i], k) && forall j: bv5 | j < k :: !Marked(bitmap[i], j)
      ensures 32 * i + k as int < NR_PRIORITIES && lists[32 * i + k as int] != []
      ensures forall q: nat :: 32 * i <= q < 32 * i + k as int ==> lists[q] == []
    {
      hide ListValid, Marked, BitOf;
      PlaceOfBit(i, k);
      assert BitValid(32 * i + k as int);
      forall q: nat | 32 * i <= q < 32 * i + k as int
        ensures lists[q] == []
      {
        BitBelow(i, k, q);
        assert BitValid(q);
      }
    }

    /** `prio_find_highest`. */
    method FindHighest() returns (prio: int)
      requires Valid()
      ensures -1 <= prio < NR_PRIORITIES
      ensures prio == -1 ==> queued == {}
      ensures prio >= 0 ==> lists[prio] != [] && forall q :: 0 <= q < prio ==> lists[q] == []
    {
      hide ListValid, BitValid;
      for i := 0 to WORDS
        invariant forall q :: 0 <= q < 32 * i && q < NR_PRIORITIES ==> lists[q] == []
      {
        if bitmap[i] != 0 {
          var k := LowestBit(bitmap[i]);
          FirstOfWord(i, k);
          return i * 32 + k as int;
        }
        EmptyWord(i);
      }
      prio := -1;
    }

    /** The forward link to a place of a list: the field of the process before it, or the head. */
    method SetForward(prio: nat, prev: Process?, x: Process?, ghost list: seq<Process>, ghost i: int)
      requires prio < head.Length && Distinct(list) && -1 <= i < |list| && prev == At(list, i)
      modifies head, list`runNext
      ensures forall j :: 0 <= j < |list| ==> list[j].runNext == if j == i then x else old(list[j].runNext)
      ensures forall q :: 0 <= q < head.Length ==> head[q] == if i < 0 && q == prio then x else old(head[q])
    {
      if prev != null {
        prev.runNext := x;
      } else {
        head[prio] := x;
      }
    }

    /** The backward link to a place of a list: the field of the process behind it, or the tail. */
    method SetBackward(prio: nat, cur: Process?, x: Process?, ghost list: seq<Process>, ghost i: nat)
      requires prio < tail.Length && Distinct(list) && i <= |list| && cur == At(list, i)
      modifies tail, list`runPrev
      ensures forall j :: 0 <= j < |list| ==> list[j].runPrev == if j == i then x else old(list[j].runPrev)
      ensures forall q :: 0 <= q < tail.Length ==> tail[q] == if i == |list| && q == prio then x else old(tail[q])
    {
      if cur != null {
        cur.runPrev := x;
      } else {
        tail[prio] := x;
      }
    }

    /** Links a process in between two neighbours, either of which may be missing. */
    method Splice(p: Process, prio: nat, prev: Process?, cur: Process?, ghost list: seq<Process>, ghost k: nat)
      requires head != tail && prio < head.Length && prio < tail.Length && Holds(prio, list) && Distinct(list) && p !in list
      requires k <= |list| && prev == At(list, k - 1) && cur == At(list, k)
      modifies head, tail, list`runNext, list`runPrev, p`runNext, p`runPrev
      ensures Holds(prio, Inserted(list, k, p)) && Distinct(Inserted(list, k, p))
      ensures forall q :: 0 <= q < head.Length && q != prio ==> head[q] == old(head[q])
      ensures forall q :: 0 <= q < tail.Length && q != prio ==> tail[q] == old(tail[q])
    {
      hide Distinct, At;
      p.runNext := cur;
      p.runPrev := prev;
      SetForward(prio, prev, p, list, k - 1);
      SetBackward(prio, cur, p, list, k);
      InsertLinks(list, k, p);
      InsertEnds(list, k, p);
      InsertDistinct(list, k, p);
    }

    /** Takes a process out between its neighbours. */
    method Unlink(p: Process, prio: nat, ghost list: seq<Process>, ghost k: nat)
      requires head != tail && prio < head.Length && prio < tail.Length && Holds(prio, list) && Distinct(list)
      requires k < |list| && list[k] == p
      modifies head, tail, list`runNext, list`runPrev
      ensures Holds(prio, Removed(list, k)) && Distinct(Removed(list, k)) && p !in Removed(list, k)
      ensures p.runNext == null && p.runPrev == null
      ensures forall q :: 0 <= q < head.Length && q != prio ==> head[q] == old(head[q])
      ensures forall q :: 0 <= q < tail.Length && q != prio ==> tail[q] == old(tail[q])
    {
      hide Distinct, At;
      SetForward(prio, p.runPrev, p.runNext, list, k - 1);
      SetBackward(prio, p.runNext, p.runPrev, list, k + 1);
      RemoveDistinct(list, k);
      p.runNext := null;
      p.runPrev := null;
      RemoveLinks(list, k);
      RemoveEnds(list, k);
    }

    /**
     The same when the priority has been changed first, as `proces_set_priority` does: the list it is taken
     out of stays whole exactly when the process has a neighbour on both sides.
     */
    method UnlinkElsewhere(p: Process, prio: nat, ghost q: nat, ghost list: seq<Process>, ghost k: nat)
      requires head != tail && prio < head.Length && prio < tail.Length && q < head.Length && q < tail.Length && prio != q
      requires Holds(q, list) && Distinct(list) && k < |list| && list[k] == p
      modifies head, tail, list`runNext, list`runPrev
      ensures Holds(q, Removed(list, k)) <==> 0 < k < |list| - 1
      ensures Linked(Removed(list, k)) && Distinct(Removed(list, k)) && p !in Removed(list, k)
      ensures p.runNext == null && p.runPrev == null
      ensures forall r :: 0 <= r < head.Length ==> head[r] == if r == prio && k == 0 then At(list, 1) else old(head[r])
      ensures forall r :: 0 <= r < tail.Length ==> tail[r] == if r == prio && k == |list| - 1 then At(list, k - 1) else old(tail[r])
    {
      hide Distinct, At;
      AtEnds(list, k);
      SetForward(prio, p.runPrev, p.runNext, list, k - 1);
      SetBackward(prio, p.runNext, p.runPrev, list, k + 1);
      RemoveDistinct(list, k);
      p.runNext := null;
      p.runPrev := null;
      RemoveLinks(list, k);
      RemoveEnds(list, k);
    }

    /** Finds where a process that is not urgent goes. */
    method FindSpot(p: Process, prio: nat, ghost list: seq<Process>) returns (prev: Process?, cur: Process?, ghost k: nat)
      requires prio < head.Length && prio < tail.Length && Holds(prio, list) && !Urgent(p.schedClass)
      ensures IsSpot(Keys(list), KeyOf(p), k) && prev == At(list, k - 1) && cur == At(list, k)
      ensures (prev != null ==> prev in list && prev.vruntime <= p.vruntime) && (cur != null ==> cur in list && cur.vruntime > p.vruntime)
    {
      cur, prev, k := head[prio], null, 0;
      while cur != null && cur.vruntime <= p.vruntime
        invariant k <= |list| && cur == At(list, k) && prev == At(list, k - 1)
        invariant forall i :: 0 <= i < k ==> list[i].vruntime <= p.vruntime
        decreases |list| - k
      {
        prev := cur;
        cur := cur.runNext;
        k := k + 1;
      }
    }

    /** Puts a process into the list of its priority, leaving the bitmap and the counters. */
    method LinkIn(p: Process, prio: nat, ghost list: seq<Process>) returns (ghost k: nat)
      requires head != tail && prio < head.Length && prio < tail.Length && Holds(prio, list) && Distinct(list) && p !in list
      requires Ordered(Keys(list)) && forall x :: x in list ==> x.stamp < clock
      modifies head, tail, list`runNext, list`runPrev, p`runNext, p`runPrev, p`stamp
      ensures k <= |list|
      ensures Holds(prio, Inserted(list, k, p)) && Distinct(Inserted(list, k, p)) && Ordered(Keys(Inserted(list, k, p)))
      ensures p.stamp == clock && IsSpot(old(Keys(list)), KeyOf(p), k)
      ensures forall q :: 0 <= q < head.Length && q != prio ==> head[q] == old(head[q])
      ensures forall q :: 0 <= q < tail.Length && q != prio ==> tail[q] == old(tail[q])
    {
      hide Linked, Distinct, Ordered, At;
      ghost var ks := Keys(list);
      p.stamp := clock;
      assert Keys(list) == ks;
      if Urgent(p.schedClass) {
        k := |list|;
        EndsOf(list);
        Splice(p, prio, tail[prio], null, list, k);
      } else {
        var prev, cur;
        prev, cur, k := FindSpot(p, prio, list);
        Splice(p, prio, prev, cur, list, k);
      }
      assert Keys(list) == ks;
      InsertKeys(list, k, p);
      InsertKeepsOrder(ks, KeyOf(p), k);
    }

    /** Lists are disjoint, and all their members are queued. */
    lemma ListsApart(prio: nat)
      requires Valid() && prio < NR_PRIORITIES
      ensures forall q: nat, i :: q < NR_PRIORITIES && q != prio && 0 <= i < |lists[q]| ==> lists[q][i] !in lists[prio]
      ensures forall q: nat, i :: q < NR_PRIORITIES && 0 <= i < |lists[q]| ==> lists[q][i] in queued
    {
      forall q: nat, i | q < NR_PRIORITIES && q != prio && 0 <= i < |lists[q]|
        ensures lists[q][i] !in lists[prio]
      {
        assert ListValid(q, lists[q], clock) && ListValid(prio, lists[prio], clock) && lists[q][i] in lists[q];
      }
    }

    /** The changes of `runq_enqueue` to links and ends. */
    method LinkQueued(p: Process, prio: nat) returns (ghost k: nat, ghost ls: seq<seq<Process>>)
      requires Valid() && p !in queued && prio == Clamp(p.priority)
      modifies head, tail, queued`runNext, queued`runPrev, p`runNext, p`runPrev, p`stamp
      ensures k <= |lists[prio]| && ls == lists[prio := Inserted(lists[prio], k, p)]
      ensures p.stamp == clock && IsSpot(old(Keys(lists[prio])), KeyOf(p), k)
      ensures forall q: nat :: q < NR_PRIORITIES ==> ListValid(q, ls[q], clock + 1)
    {
      hide Distinct, Ordered, At, Flag, BitValid, IsSpot, Covers;
      ghost var list := lists[prio];
      ListsApart(prio);
      k := LinkIn(p, prio, list);
      ls := lists[prio := Inserted(list, k, p)];
      forall q: nat | q < NR_PRIORITIES
        ensures ListValid(q, ls[q], clock + 1)
      {
        assert old(ListValid(q, lists[q], clock));
        if q != prio {
          assert Linked(lists[q]);
          assert Keys(lists[q]) == old(Keys(lists[q]));
        }
      }
    }

    /** `runq_enqueue`. */
    method Enqueue(p: Process) returns (ghost k: nat)
      requires Valid() && p !in queued
      modifies this`running, this`lists, this`queued, this`clock, bitmap, head, tail
      modifies queued`runNext, queued`runPrev, p`runNext, p`runPrev, p`stamp
      ensures Valid()
      ensures queued == old(queued) + {p} && p.stamp == old(clock) < clock
      ensures IsSpot(old(Keys(lists[Clamp(p.priority)])), KeyOf(p), k)
      ensures k <= |old(lists)[Clamp(p.priority)]| && (p.schedClass == Realtime || p.schedClass == Critical ==> k == |old(lists)[Clamp(p.priority)]|)
      ensures var list := old(lists)[Clamp(p.priority)];
        p.schedClass in {Idle, Background, Normal, Interactive} ==>
        (forall i :: 0 <= i < k ==> list[i].vruntime <= p.vruntime) && (k < |list| ==> list[k].vruntime > p.vruntime)
      ensures lists == old(lists)[Clamp(p.priority) := Inserted(old(lists)[Clamp(p.priority)], k, p)]
    {
      hide ListValid, Flag, IsSpot, Covers;
      ghost var ls;
      ghost var ks, list := Keys(lists[Clamp(p.priority)]), lists[Clamp(p.priority)];
      assert forall i :: 0 <= i < |list| ==> ks[i].vruntime == list[i].vruntime;
      k, ls := LinkQueued(p, Clamp(p.priority));
      SpotByClass(p.schedClass, ks, p.vruntime, p.stamp, k);
      SetFlag(bitmap, Clamp(p.priority));
      running := running + 1;
      CoversInsert(lists, queued, Clamp(p.priority), k, p);
      queued := queued + {p};
      clock := clock + 1;
      lists := ls;
      forall q: nat | q < 32 * WORDS
        ensures BitValid(q)
      {
        assert old(BitValid(q));
      }
    }

    /** The changes of `runq_dequeue` to links, ends and bitmap. */
    method UnlinkQueued(p: Process, prio: nat, ghost k: nat) returns (ghost ls: seq<seq<Process>>)
      requires Valid() && prio < NR_PRIORITIES && k < |lists[prio]| && lists[prio][k] == p
      modifies bitmap, head, tail, queued`runNext, queued`runPrev
      ensures ls == lists[prio := Removed(lists[prio], k)]
      ensures p.runNext == null && p.runPrev == null && p in queued && Covers(ls, queued - {p})
      ensures forall q: nat :: q < NR_PRIORITIES ==> ListValid(q, ls[q], clock)
      ensures forall q: nat :: q < 32 * WORDS ==> (Flag(bitmap, q) <==> (q != prio || ls[q] != []) && old(Flag(bitmap, q)))
    {
      hide Distinct, Ordered, At, Flag, BitValid, Covers;
      ghost var list := lists[prio];
      ListsApart(prio);
      CoversRemove(lists, queued, prio, k);
      Unlink(p, prio, list, k);
      HeadNull(Removed(list, k));
      if head[prio] == null {
        ClearFlag(bitmap, prio);
      }
      ls := lists[prio := Removed(list, k)];
      forall q: nat | q < NR_PRIORITIES
        ensures ListValid(q, ls[q], clock)
      {
        assert old(ListValid(q, lists[q], clock));
        assert Keys(lists[q]) == old(Keys(lists[q]));
        if q != prio {
          assert Linked(lists[q]);
        } else {
          RemoveKeys(list, k);
          RemoveKeepsOrder(Keys(list), k);
        }
      }
    }

    /** A queued process is in the list of its priority. */
    lemma PlaceOf(p: Process) returns (k: nat)
      requires Valid() && p in queued
      ensures k < |lists[Clamp(p.priority)]| && lists[Clamp(p.priority)][k] == p
    {
      var q: nat :| q < |lists| && p in lists[q];
      assert ListValid(q, lists[q], clock);
      k :| 0 <= k < |lists[q]| && lists[q][k] == p;
    }

    /** `runq_dequeue` of a queued process. */
    method Dequeue(p: Process) returns (ghost k: nat)
      requires Valid() && p in queued
      modifies this`running, this`lists, this`queued, bitmap, head, tail, queued`runNext, queued`runPrev
      ensures Valid()
      ensures queued == old(queued) - {p} && p.runNext == null && p.runPrev == null
      ensures k < |old(lists)[Clamp(p.priority)]| && old(lists)[Clamp(p.priority)][k] == p
      ensures lists == old(lists)[Clamp(p.priority) := Removed(old(lists)[Clamp(p.priority)], k)]
    {
      hide ListValid, Flag, Covers;
      k := PlaceOf(p);
      ghost var ls := UnlinkQueued(p, Clamp(p.priority), k);
      if running > 0 {
        running := running - 1;
      }
      queued := queued - {p};
      lists := ls;
      forall q: nat | q < 32 * WORDS
        ensures BitValid(q)
      {
        assert old(BitValid(q));
      }
    }

    /** A process that stands at an end of the list of another priority makes that list one of no processes whatsoever. */
    lemma Misplaced(p: Process, q: nat, list: seq<Process>, limit: nat)
      requires q < head.Length && q < tail.Length && Clamp(p.priority) != q && (head[q] == p || tail[q] == p)
      ensures !ListValid(q, list, limit)
    {
    }

    /** The new priority of a queued process, and what taking it out under that priority does to links and ends. */
    method UnlinkChanged(p: Process, priority: int, ghost q: nat, ghost k: nat) returns (ghost ls: seq<seq<Process>>)
      requires Valid() && q == Clamp(p.priority) != Clamp(priority) && k < |lists[q]| && lists[q][k] == p && p in queued
      modifies head, tail, queued`runNext, queued`runPrev, p`priority
      ensures p.priority == priority && p.runNext == null && p.runPrev == null
      ensures ls == lists[q := Removed(lists[q], k)]
      ensures 0 < k < |lists[q]| - 1 ==> forall r: nat :: r < NR_PRIORITIES ==> ListValid(r, ls[r], clock)
      ensures k == 0 ==> head[q] == p && head[Clamp(priority)] == At(lists[q], 1)
      ensures k == |lists[q]| - 1 ==> tail[q] == p && tail[Clamp(priority)] == At(lists[q], k - 1)
    {
      hide Ordered, At, Flag, BitValid, Covers, Distinct;
      ghost var list := lists[q];
      ls := lists[q := Removed(list, k)];
      ListsApart(q);
      AtEnds(list, k);
      p.priority := priority;
      UnlinkElsewhere(p, Clamp(p.priority), q, list, k);
      if 0 < k < |list| - 1 {
        forall r: nat | r < NR_PRIORITIES
          ensures ListValid(r, ls[r], clock)
        {
          assert old(ListValid(r, lists[r], clock));
          assert Keys(lists[r]) == old(Keys(lists[r]));
          if r != q {
            assert Linked(lists[r]);
          } else {
            RemoveKeys(list, k);
            RemoveKeepsOrder(Keys(list), k);
          }
        }
      }
    }

    /**
     `runq_dequeue` once `proces_set_priority` has changed the priority of a queued process to one of another list.
     The queue stays valid exactly when the process has a neighbour on both sides. Otherwise an end of its old list
     still names it, which no list of that priority can, and the other list's end is that of the old one.
     */
    method DequeueChanged(p: Process, priority: int) returns (ghost q: nat, ghost k: nat)
      requires Valid() && p in queued && Clamp(priority) != Clamp(p.priority)
      modifies this`running, this`lists, this`queued, bitmap, head, tail, queued`runNext, queued`runPrev, p`priority
      ensures p.priority == priority && p.runNext == null && p.runPrev == null && q == old(Clamp(p.priority))
      ensures k < |old(lists)[q]| && old(lists)[q][k] == p
      ensures 0 < k < |old(lists)[q]| - 1 ==> Valid() && queued == old(queued) - {p} && lists == old(lists)[q := Removed(old(lists)[q], k)]
      ensures !(0 < k < |old(lists)[q]| - 1) ==> forall list, limit :: !ListValid(q, list, limit)
      ensures k == 0 ==> head[q] == p && head[Clamp(priority)] == At(old(lists)[q], 1)
      ensures k == |old(lists)[q]| - 1 ==> tail[q] == p && tail[Clamp(priority)] == At(old(lists)[q], k - 1)
    {
      hide ListValid, At, Flag, Covers;
      k := PlaceOf(p);
      q := Clamp(p.priority);
      ghost var list := lists[q];
      RemovedCovers(q, k);
      ghost var ls := UnlinkChanged(p, priority, q, k);
      if head[Clamp(p.priority)] == null {
        ClearFlag(bitmap, Clamp(p.priority));
      }
      if running > 0 {
        running := running - 1;
      }
      queued := queued - {p};
      lists := ls;
      if 0 < k < |list| - 1 {
        assert Removed(list, k) != [];
        assert ListValid(Clamp(priority), lists[Clamp(priority)], clock);
        HeadIsEmpty(Clamp(priority), lists[Clamp(priority)], clock);
        forall r: nat | r < 32 * WORDS
          ensures BitValid(r)
        {
          assert old(BitValid(r));
        }
      } else {
        forall l, limit
          ensures !ListValid(q, l, limit)
        {
          Misplaced(p, q, l, limit);
        }
      }
    }

    /** `proces_set_priority` for a process that stands between two others of its list. */
    method SetPriority(p: Process, priority: int) returns (was: int, ghost q: nat, ghost k: nat, ghost j: nat)
      requires Valid() && p in queued && Clamp(priority) != Clamp(p.priority) && p.runPrev != null && p.runNext != null
      modifies this`running, this`lists, this`queued, this`clock, bitmap, head, tail, p`priority
      modifies queued`runNext, queued`runPrev, p`stamp
      ensures Valid() && queued == old(queued) && was == old(p.priority) && p.priority == priority
      ensures q == old(Clamp(p.priority)) && k < |old(lists)[q]| && old(lists)[q][k] == p
      ensures j <= |old(lists)[Clamp(priority)]| && p.stamp == old(clock)
      ensures lists == old(lists)[q := Removed(old(lists)[q], k)][Clamp(priority) := Inserted(old(lists)[Clamp(priority)], j, p)]
      ensures IsSpot(old(Keys(lists[Clamp(priority)])), KeyOf(p), j)
    {
      hide ListValid, BitValid, Flag, Covers, Ordered;
      was := p.priority;
      Between(p);
      ghost var l := lists[Clamp(priority)];
      q, k := DequeueChanged(p, priority);
      assert Keys(l) == old(Keys(l));
      j := Enqueue(p);
    }

    /** A queued process with both links stands between two others. */
    lemma Between(p: Process)
      requires Valid() && p in queued && p.runPrev != null && p.runNext != null
      ensures forall k: nat :: k < |lists[Clamp(p.priority)]| && lists[Clamp(p.priority)][k] == p ==> 0 < k < |lists[Clamp(p.priority)]| - 1
    {
      assert ListValid(Clamp(p.priority), lists[Clamp(p.priority)], clock);
    }

    lemma RemovedCovers(q: nat, k: nat)
      requires Valid() && q < NR_PRIORITIES && k < |lists[q]|
      ensures Covers(lists[q := Removed(lists[q], k)], queued - {lists[q][k]})
    {
      ListsApart(q);
      assert ListValid(q, lists[q], clock);
      CoversRemove(lists, queued, q, k);
    }

    lemma HeadIsEmpty(q: nat, list: seq<Process>, limit: nat)
      requires q < head.Length && q < tail.Length && ListValid(q, list, limit)
      ensures head[q] == null <==> list == []
    {
    }

    /**
     The order of a list, by the classes of its processes: real-time and critical ones stand in the order of their
     arrival, all others in the order of their virtual run time, with ties in the order of their arrival.
     */
    lemma ListOrder(q: nat, i: nat, j: nat)
      requires Valid() && q < NR_PRIORITIES && i < j < |lists[q]|
      ensures (forall p :: p in lists[q] ==> p.schedClass == Realtime || p.schedClass == Critical) ==>
        lists[q][i].stamp < lists[q][j].stamp
      ensures (forall p :: p in lists[q] ==> p.schedClass in {Idle, Background, Normal, Interactive}) ==>
        lists[q][i].vruntime < lists[q][j].vruntime
        || (lists[q][i].vruntime == lists[q][j].vruntime && lists[q][i].stamp < lists[q][j].stamp)
    {
      var list := lists[q];
      assert ListValid(q, list, clock);
      assert InOrder(Keys(list)[i], Keys(list)[j]);
      assert list[i] in list && list[j] in list;
    }

    lemma HeadOfList(q: nat)
      requires Valid() && q < NR_PRIORITIES
      ensures head[q] == At(lists[q], 0)
    {
      assert ListValid(q, lists[q], clock);
    }

    /** The process after one of a list is the next of that list. */
    lemma NextInList(q: nat, i: nat)
      requires Valid() && q < NR_PRIORITIES && i < |lists[q]|
      ensures lists[q][i].runNext == At(lists[q], i + 1) && lists[q][i] in queued && Clamp(lists[q][i].priority) == q
      ensures forall j :: 0 <= j < |lists[q]| && lists[q][j] == lists[q][i] ==> j == i
    {
      assert ListValid(q, lists[q], clock);
      ListsApart(q);
    }

    /** The first list with members has no process the scheduler may pick. */
    ghost predicate NoneToPick(current: Process?)
      requires |lists| == NR_PRIORITIES
      reads this, queued
    {
      forall q, i :: 0 <= q < NR_PRIORITIES && 0 <= i < |lists[q]| && lists[q][i] in queued && IsFirst(q) ==>
        !MayRun(lists[q][i], current)
    }

    /** Whether a priority is the lowest-numbered one with members. */
    ghost predicate IsFirst(q: int)
      requires |lists| == NR_PRIORITIES
      reads this
    {
      0 <= q < NR_PRIORITIES && lists[q] != [] && forall r :: 0 <= r < q ==> lists[r] == []
    }

    /** Walks a list to its first process that may run. */
    method FirstToRun(prio: nat, current: Process?) returns (p: Process?, ghost i: nat)
      requires Valid() && prio < NR_PRIORITIES
      ensures i <= |lists[prio]| && p == At(lists[prio], i)
      ensures forall j :: 0 <= j < i ==> !MayRun(lists[prio][j], current)
      ensures p != null ==> MayRun(p, current) && p in queued && Clamp(p.priority) == prio
      ensures p != null ==> forall j :: 0 <= j < |lists[prio]| && lists[prio][j] == p ==> j == i
    {
      p, i := head[prio], 0;
      HeadOfList(prio);
      while p != null
        invariant i <= |lists[prio]| && p == At(lists[prio], i)
        invariant forall j :: 0 <= j < i ==> !MayRun(lists[prio][j], current)
        decreases |lists[prio]| - i
      {
        NextInList(prio, i);
        if (p.state == Ready || p.state == Running) && p != current {
          return;
        }
        p := p.runNext;
        i := i + 1;
      }
    }

    /**
     `sched_pick_next` on one processor: the first process that may run of the lowest-numbered priority
     with members, taken out of the queue; the idle task when that list has none.
     */
    method PickNext(current: Process?, idle: Process?) returns (r: Process?, ghost q: int, ghost k: nat)
      requires Valid()
      modifies this`running, this`lists, this`queued, bitmap, head, tail, queued`runNext, queued`runPrev
      ensures Valid()
      ensures q == -1 ==> r == idle && queued == old(queued) && lists == old(lists) && old(NoneToPick(current))
      ensures q != -1 ==> old(IsFirst(q)) && k < |old(lists)[q]| && r == old(lists)[q][k] && MayRun(r, current)
      ensures q != -1 ==> forall i :: 0 <= i < k ==> !MayRun(old(lists)[q][i], current)
      ensures q != -1 ==> queued == old(queued) - {r} && lists == old(lists)[q := Removed(old(lists)[q], k)]
    {
      hide ListValid, BitValid, Covers;
      q, k := -1, 0;
      var prio := FindHighest();
      if prio >= 0 {
        ghost var i;
        r, i := FirstToRun(prio, current);
        if r != null {
          q := prio;
          k := Dequeue(r);
          return;
        }
      }
      r := idle;
    }
  }
}
