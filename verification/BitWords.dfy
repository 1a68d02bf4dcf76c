/** Bitmaps in words of 32 bits, as the run queue's `prio_bitmap_*` and the allocator's `frame_alloc_*` use them. */
module BitWords {
  import opened ModArith

  predicate Marked(w: bv32, k: bv5) {
    (w >> k) & 1 == 1
  }

  /** The bit of a priority inside its word. */
  function BitOf(q: nat): (k: bv5)
    ensures k as int == q % 32
  {
    ModTwice(q, 32);
    AsBit(q % 32)
  }

  function AsBit(x: nat): (k: bv5)
    requires x < 32
    ensures k as int == x % 32
  {
    x as bv5
  }

  function WithBit(w: bv32, k: bv5): bv32 {
    w | (1 << k)
  }

  function WithoutBit(w: bv32, k: bv5): bv32 {
    w & !(1 << k)
  }

  lemma SetBit(w: bv32, k: bv5, j: bv5)
    ensures Marked(WithBit(w, k), j) <==> j == k || Marked(w, j)
  {
  }

  lemma ClearBit(w: bv32, k: bv5, j: bv5)
    ensures Marked(WithoutBit(w, k), j) <==> j != k && Marked(w, j)
  {
  }

  lemma PlaceOfBit(i: nat, k: bv5)
    ensures 32 * i <= 32 * i + k as int < 32 * (i + 1) && (32 * i + k as int) / 32 == i && BitOf(32 * i + k as int) == k
  {
    Width(k);
    SameBit(BitOf(32 * i + k as int), k);
  }

  lemma BitBelow(i: nat, k: bv5, q: nat)
    requires 32 * i <= q < 32 * i + k as int
    ensures q / 32 == i && BitOf(q) < k
  {
    Width(k);
    BitOrder(BitOf(q), k);
  }

  lemma BitOrder(j: bv5, k: bv5)
    requires j as int < k as int
    ensures j < k
  {
  }

  lemma BitsApart(q: nat, q': nat)
    requires q / 32 == q' / 32
    ensures BitOf(q) == BitOf(q') <==> q == q'
  {
  }

  lemma SameBit(j: bv5, k: bv5)
    requires j as int == k as int
    ensures j == k
  {
  }

  lemma Width(k: bv5)
    ensures k as int < 32
  {
  }

  lemma ZeroWord(j: bv5)
    ensures !Marked(0, j)
  {
  }

  /** `__builtin_ctz`: the lowest set bit of a word that is not zero. */
  method LowestBit(w: bv32) returns (k: bv5)
    requires w != 0
    ensures Marked(w, k) && forall j: bv5 | j < k :: !Marked(w, j)
  {
    k := 0;
    while !Marked(w, k)
      invariant LowClear(w, k)
      decreases 31 - k as int
    {
      NextBit(w, k);
      k := k + 1;
    }
    forall j: bv5 | j < k
      ensures !Marked(w, j)
    {
      LowBits(w, k, j);
    }
  }

  predicate LowClear(w: bv32, k: bv5) {
    w & ((1 << k) - 1) == 0
  }

  lemma NextBit(w: bv32, k: bv5)
    requires w != 0 && LowClear(w, k) && !Marked(w, k)
    ensures k < 31 && LowClear(w, k + 1)
    ensures (k + 1) as int == k as int + 1
  {
  }

  lemma LowBits(w: bv32, k: bv5, j: bv5)
    requires LowClear(w, k) && j < k
    ensures !Marked(w, j)
  {
  }

  /** Bit q of a bitmap: `frame_alloc_test`. */
  predicate Flag(words: array<bv32>, q: nat)
    requires q < 32 * words.Length
    reads words
  {
    Marked(words[q / 32], BitOf(q))
  }

  /** `prio_bitmap_set` and `frame_alloc_set`. */
  method SetFlag(words: array<bv32>, q: nat)
    requires q < 32 * words.Length
    modifies words
    ensures forall r: nat :: r < 32 * words.Length ==> (Flag(words, r) <==> r == q || old(Flag(words, r)))
  {
    hide Marked, BitOf, WithBit, WithoutBit;
    ghost var w := words[q / 32];
    words[q / 32] := WithBit(words[q / 32], BitOf(q));
    forall r: nat | r < 32 * words.Length
      ensures Flag(words, r) <==> r == q || old(Flag(words, r))
    {
      SetBit(w, BitOf(q), BitOf(r));
      if r / 32 == q / 32 {
        BitsApart(r, q);
      }
    }
  }

  /** `prio_bitmap_clear` and `frame_alloc_clear`. */
  method ClearFlag(words: array<bv32>, q: nat)
    requires q < 32 * words.Length
    modifies words
    ensures forall r: nat :: r < 32 * words.Length ==> (Flag(words, r) <==> r != q && old(Flag(words, r)))
  {
    hide Marked, BitOf, WithBit, WithoutBit;
    ghost var w := words[q / 32];
    words[q / 32] := WithoutBit(words[q / 32], BitOf(q));
    forall r: nat | r < 32 * words.Length
      ensures Flag(words, r) <==> r != q && old(Flag(words, r))
    {
      ClearBit(w, BitOf(q), BitOf(r));
      if r / 32 == q / 32 {
        BitsApart(r, q);
      }
    }
  }
}
