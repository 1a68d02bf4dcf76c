/** GHASH of `tls_crypto.c` on blocks of 16 bytes, against the field arithmetic of section 6 of NIST SP 800-38D. */
module Ghash {
  import opened GaloisField

  type Block = s: seq<bv8> | |s| == 16 witness seq(16, _ => 0)

  // ---- Bits of bytes ----

  /** Bit k of a byte, counted from the left. */
  function Bit(b: bv8, k: nat): bool
    requires k < 8
  {
    (b >> (7 - k)) & 1 == 1
  }

  ghost function Bits(s: seq<bv8>): (e: Element)
    requires |s| == 16
  {
    seq(128, i requires 0 <= i < 128 => Bit(s[i / 8], i % 8))
  }

  lemma XorBit(a: bv8, b: bv8, k: nat)
    requires k < 8
    ensures Bit(a ^ b, k) == (Bit(a, k) != Bit(b, k))
  {
    XorShift(a, b, 7 - k);
    XorLowest(a >> (7 - k), b >> (7 - k));
  }

  lemma XorShift(a: bv8, b: bv8, n: nat)
    requires n < 8
    ensures (a ^ b) >> n == (a >> n) ^ (b >> n)
  {
    if n == 0 {} else if n == 1 {} else if n == 2 {} else if n == 3 {}
    else if n == 4 {} else if n == 5 {} else if n == 6 {} else {}
  }

  lemma XorLowest(x: bv8, y: bv8)
    ensures ((x ^ y) & 1 == 1) == ((x & 1 == 1) != (y & 1 == 1))
  {
  }

  lemma ShiftBit(a: bv8, b: bv8, k: nat)
    requires k < 8
    ensures Bit(ShiftByte(a, b), k) == if k == 0 then Bit(b, 7) else Bit(a, k - 1)
    ensures Bit(a >> 1, k) == (k > 0 && Bit(a, k - 1))
  {
    if k == 0 {} else if k == 1 {} else if k == 2 {} else if k == 3 {}
    else if k == 4 {} else if k == 5 {} else if k == 6 {} else {}
  }

  /** The reduction byte 0xe1 holds the taps of the field polynomial. */
  lemma ReductionBit(k: nat)
    requires k < 8
    ensures Bit(0xe1, k) == Tap(k)
  {
    if k == 0 {} else if k == 1 {} else if k == 2 {} else if k == 3 {}
    else if k == 4 {} else if k == 5 {} else if k == 6 {} else {}
  }

  lemma ZeroBit(k: nat)
    requires k < 8
    ensures !Bit(0, k)
  {
    if k == 0 {} else if k == 1 {} else if k == 2 {} else if k == 3 {}
    else if k == 4 {} else if k == 5 {} else if k == 6 {} else {}
  }

  /** A block is determined by its bits. */
  lemma BitsInjective(s: Block, t: Block)
    requires Bits(s) == Bits(t)
    ensures s == t
  {
    forall j | 0 <= j < 16
      ensures s[j] == t[j]
    {
      forall k: nat | k < 8
        ensures Bit(s[j], k) == Bit(t[j], k)
      {
        assert Bits(s)[8 * j + k] == Bit(s[j], k) && Bits(t)[8 * j + k] == Bit(t[j], k);
      }
      ByteOfBits(s[j], t[j]);
    }
  }

  lemma ByteOfBits(a: bv8, b: bv8)
    requires forall k: nat | k < 8 :: Bit(a, k) == Bit(b, k)
    ensures a == b
  {
    assert Bit(a, 0) == Bit(b, 0) && Bit(a, 1) == Bit(b, 1) && Bit(a, 2) == Bit(b, 2) && Bit(a, 3) == Bit(b, 3);
    assert Bit(a, 4) == Bit(b, 4) && Bit(a, 5) == Bit(b, 5) && Bit(a, 6) == Bit(b, 6) && Bit(a, 7) == Bit(b, 7);
  }

  // ---- GHASH ----

  function XorByte(a: bv8, b: bv8): bv8 {
    a ^ b
  }

  ghost function XorBlocks(s: Block, t: Block): Block {
    seq(16, i requires 0 <= i < 16 => XorByte(s[i], t[i]))
  }

  lemma BitsXor(s: Block, t: Block)
    ensures Bits(XorBlocks(s, t)) == Plus(Bits(s), Bits(t))
  {
    hide Bit;
    forall i | 0 <= i < 128
      ensures Bits(XorBlocks(s, t))[i] == Plus(Bits(s), Bits(t))[i]
    {
      XorBit(s[i / 8], t[i / 8], i % 8);
    }
  }

  method XorBlock(left: array<bv8>, right: array<bv8>)
    requires left.Length == 16 && right.Length == 16 && left != right
    modifies left
    ensures left[..] == XorBlocks(old(left[..]), right[..])
    ensures Bits(left[..]) == Plus(old(Bits(left[..])), Bits(right[..]))
  {
    for i := 0 to 16
      invariant forall j :: 0 <= j < i ==> left[j] == old(left[j]) ^ right[j]
      invariant forall j :: i <= j < 16 ==> left[j] == old(left[j])
    {
      left[i] := left[i] ^ right[i];
    }
    BitsXor(old(left[..]), right[..]);
  }

  /** A block moved one bit to the right, with the bit that falls out folded back through 0xe1. */
  ghost function Shifted(s: Block): Block {
    seq(16, i requires 0 <= i < 16 => ShiftedByte(s, i))
  }

  ghost function ShiftedByte(s: Block, i: nat): bv8
    requires i < 16
  {
    if i > 0 then ShiftByte(s[i], s[i - 1]) else FoldByte(s[0], s[15])
  }

  function ShiftByte(b: bv8, before: bv8): bv8 {
    (b >> 1) | (before << 7)
  }

  function FoldByte(first: bv8, last: bv8): bv8 {
    if last & 1 == 1 then (first >> 1) ^ 0xe1 else first >> 1
  }

  lemma BitsShifted(s: Block)
    ensures Bits(Shifted(s)) == TimesX(Bits(s))
  {
    forall i | 0 <= i < 128
      ensures Bits(Shifted(s))[i] == TimesX(Bits(s))[i]
    {
      BitShifted(s, i / 8, i % 8);
      assert i == 8 * (i / 8) + i % 8;
    }
  }

  lemma BitShifted(s: Block, j: nat, k: nat)
    requires j < 16 && k < 8
    ensures Bit(Shifted(s)[j], k) == TimesX(Bits(s))[8 * j + k]
  {
    hide Bit, Bits, Tap, ShiftByte, FoldByte;
    BitBefore(s, j, k);
    TapsInFirstByte(8 * j + k);
    if j > 0 {
      ShiftBit(s[j], s[j - 1], k);
    } else {
      FirstByte(s[0], s[15], k);
    }
  }

  lemma TapsInFirstByte(i: nat)
    ensures i >= 8 ==> !Tap(i)
  {
  }

  lemma FirstByte(first: bv8, last: bv8, k: nat)
    requires k < 8
    ensures Bit(FoldByte(first, last), k) == ((k > 0 && Bit(first, k - 1)) != (Bit(last, 7) && Tap(k)))
  {
    LowestBit(last);
    ShiftBit(first, 0, k);
    XorBit(first >> 1, 0xe1, k);
    ReductionBit(k);
  }

  lemma BitBefore(s: Block, j: nat, k: nat)
    requires j < 16 && k < 8
    ensures Bits(s)[127] == Bit(s[15], 7)
    ensures k > 0 ==> Bits(s)[8 * j + k - 1] == Bit(s[j], k - 1)
    ensures k == 0 && j > 0 ==> Bits(s)[8 * j + k - 1] == Bit(s[j - 1], 7)
  {
    if k > 0 {
      assert (8 * j + k - 1) / 8 == j;
    } else if j > 0 {
      assert (8 * j - 1) / 8 == j - 1;
    }
  }

  lemma LowestBit(b: bv8)
    ensures Bit(b, 7) == (b & 1 == 1)
  {
  }

  method ShiftFactor(factor: array<bv8>)
    requires factor.Length == 16
    modifies factor
    ensures Bits(factor[..]) == TimesX(old(Bits(factor[..])))
  {
    ghost var s := factor[..];
    var low := factor[15] & 1;
    for i := 16 downto 1
      invariant forall j :: 0 <= j < i ==> factor[j] == s[j]
      invariant forall j :: i <= j < 16 ==> factor[j] == ShiftByte(s[j], s[j - 1])
    {
      factor[i] := ShiftByte(factor[i], factor[i - 1]);
    }
    factor[0] := factor[0] >> 1;
    if low == 1 {
      factor[0] := factor[0] ^ 0xe1;
    }
    assert factor[..] == Shifted(s);
    BitsShifted(s);
  }

  method CopyBlock(output: array<bv8>, input: array<bv8>)
    requires output.Length == 16 && input.Length == 16
    modifies output
    ensures output[..] == old(input[..])
  {
    for i := 0 to 16
      invariant forall j :: 0 <= j < i ==> output[j] == old(input[j])
      invariant input[i..] == old(input[i..])
    {
      output[i] := input[i];
    }
  }

  /** `ghash_multiply`: replaces the value by its product with the hash key. */
  method GhashMultiply(value: array<bv8>, hash: array<bv8>)
    requires value.Length == 16 && hash.Length == 16 && value != hash
    modifies value
    ensures Bits(value[..]) == Times(old(Bits(value[..])), Bits(hash[..]))
  {
    hide Bit, Plus, TimesX;
    ghost var x, y := Bits(value[..]), Bits(hash[..]);
    var result := new bv8[16](_ => 0);
    var factor := new bv8[16];
    CopyBlock(factor, hash);
    ZeroBits(result[..]);
    for bit := 0 to 128
      modifies result, factor
      invariant Bits(result[..]) == Partial(x, y, bit)
      invariant Bits(factor[..]) == TimesPower(y, bit)
    {
      var selected := Bit(value[bit / 8], bit % 8);
      PlusZero(Partial(x, y, bit));
      if selected {
        XorBlock(result, factor);
      }
      ShiftFactor(factor);
    }
    CopyBlock(value, result);
  }

  lemma PlusZero(x: Element)
    ensures Plus(x, Zero()) == x
  {
  }

  lemma ZeroBits(s: Block)
    requires forall i :: 0 <= i < 16 ==> s[i] == 0
    ensures Bits(s) == Zero()
  {
    forall i | 0 <= i < 128
      ensures !Bits(s)[i]
    {
      ZeroBit(i % 8);
    }
  }

  /** Zero-padded blocks of a byte string. */
  ghost function PadBlocks(data: seq<bv8>): (xs: seq<Element>) {
    if |data| == 0 then [] else
      var take := if |data| < 16 then |data| else 16;
      [Bits(Padded(data[..take]))] + PadBlocks(data[take..])
  }

  ghost function Padded(data: seq<bv8>): Block
    requires |data| <= 16
  {
    seq(16, i requires 0 <= i => if i < |data| then data[i] else 0)
  }

  /** Bytes 16i to 16i + 15 of a string, zeros where it has ended. */
  ghost function BlockAt(data: seq<bv8>, i: nat): Block {
    seq(16, j requires 0 <= j => if 16 * i + j < |data| then data[16 * i + j] else 0)
  }

  /** There is a block for every sixteen bytes begun, and each holds the bytes of its place. */
  lemma {:induction false} PadBlocksAt(data: seq<bv8>, i: nat)
    ensures |PadBlocks(data)| == (|data| + 15) / 16
    ensures i < |PadBlocks(data)| ==> PadBlocks(data)[i] == Bits(BlockAt(data, i))
    decreases |data|
  {
    hide Bits;
    if |data| > 0 {
      var take := if |data| < 16 then |data| else 16;
      PadBlocksAt(data[take..], if i > 0 then i - 1 else 0);
      if i == 0 {
        assert Padded(data[..take]) == BlockAt(data, 0);
      } else if i < |PadBlocks(data)| {
        assert BlockAt(data[take..], i - 1) == BlockAt(data, i);
      }
    }
  }

  /** Strings of one length with the same padded blocks are the same. */
  lemma {:induction false} PadBlocksUnique(s: seq<bv8>, t: seq<bv8>)
    requires |s| == |t| && PadBlocks(s) == PadBlocks(t)
    ensures s == t
    decreases |s|
  {
    hide Bits;
    if |s| > 0 {
      var take := if |s| < 16 then |s| else 16;
      assert PadBlocks(s)[0] == Bits(Padded(s[..take])) && PadBlocks(t)[0] == Bits(Padded(t[..take]));
      assert PadBlocks(s)[1..] == PadBlocks(s[take..]) && PadBlocks(t)[1..] == PadBlocks(t[take..]);
      BitsInjective(Padded(s[..take]), Padded(t[..take]));
      assert s[..take] == Padded(s[..take])[..take] && t[..take] == Padded(t[..take])[..take];
      PadBlocksUnique(s[take..], t[take..]);
      assert s == s[..take] + s[take..] && t == t[..take] + t[take..];
    }
  }

  lemma {:induction false} PadBlocksCount(s: seq<bv8>, t: seq<bv8>)
    requires |s| == |t|
    ensures |PadBlocks(s)| == |PadBlocks(t)|
    decreases |s|
  {
    if |s| > 0 {
      var take := if |s| < 16 then |s| else 16;
      PadBlocksCount(s[take..], t[take..]);
    }
  }

  /** GHASH from a given state: Horner's rule in the field. */
  ghost function Horner(e: Element, xs: seq<Element>, h: Element): Element
    decreases |xs|
  {
    if |xs| == 0 then e else Horner(Times(Plus(e, xs[0]), h), xs[1..], h)
  }

  /** `ghash_update`. */
  method GhashUpdate(state: array<bv8>, hash: array<bv8>, data: seq<bv8>)
    requires state.Length == 16 && hash.Length == 16 && state != hash
    modifies state
    ensures Bits(state[..]) == Horner(old(Bits(state[..])), PadBlocks(data), Bits(hash[..]))
  {
    hide Plus, Times, Bits;
    var block := new bv8[16];
    var at := 0;
    ghost var h, goal := Bits(hash[..]), Horner(Bits(state[..]), PadBlocks(data), Bits(hash[..]));
    while at < |data|
      modifies state, block
      invariant at <= |data|
      invariant Horner(Bits(state[..]), PadBlocks(data[at..]), h) == goal
    {
      ghost var was, e, xs := state[..], Bits(state[..]), PadBlocks(data[at..]);
      var take := if |data| - at < 16 then |data| - at else 16;
      for i := 0 to 16
        modifies block
        invariant forall j :: 0 <= j < i ==> block[j] == if j < take then data[at + j] else 0
      {
        block[i] := if i < take then data[at + i] else 0;
      }
      assert block[..] == Padded(data[at..][..take]);
      assert data[at..][take..] == data[at + take..];
      assert xs == [Bits(block[..])] + PadBlocks(data[at + take..]);
      assert state[..] == was;
      XorBlock(state, block);
      GhashMultiply(state, hash);
      assert xs[1..] == PadBlocks(data[at + take..]);
      at := at + take;
    }
  }

  lemma {:induction false} HornerConcat(e: Element, xs: seq<Element>, ys: seq<Element>, h: Element)
    ensures Horner(e, xs + ys, h) == Horner(Horner(e, xs, h), ys, h)
    decreases |xs|
  {
    hide Plus, Times;
    if |xs| == 0 {
      assert xs + ys == ys;
    } else {
      assert (xs + ys)[1..] == xs[1..] + ys;
      HornerConcat(Times(Plus(e, xs[0]), h), xs[1..], ys, h);
    }
  }

  ghost function KeyPower(h: Element, n: nat): Element
    requires n > 0
  {
    if n == 1 then h else Times(KeyPower(h, n - 1), h)
  }

  /** The sum of every block times the power of the key its place calls for, as section 6.4 of NIST SP 800-38D defines GHASH. */
  ghost function KeyPolynomial(xs: seq<Element>, h: Element): Element {
    if |xs| == 0 then Zero() else Plus(Times(xs[0], KeyPower(h, |xs|)), KeyPolynomial(xs[1..], h))
  }

  lemma {:induction false} HornerFrom(e: Element, xs: seq<Element>, h: Element)
    requires |xs| > 0
    ensures Horner(e, xs, h) == Plus(Times(e, KeyPower(h, |xs|)), KeyPolynomial(xs, h))
    decreases |xs|
  {
    hide Plus, Times;
    var k := KeyPower(h, |xs|);
    TimesDistributes(e, xs[0], k);
    TimesDistributes(e, xs[0], h);
    if |xs| == 1 {
      TimesSplit(e, xs[0], h);
      PlusLaws(Times(xs[0], h), Zero(), Zero());
      assert KeyPolynomial(xs[1..], h) == Zero();
    } else {
      var j := KeyPower(h, |xs| - 1);
      HornerFrom(Times(Plus(e, xs[0]), h), xs[1..], h);
      TimesAssociates(Plus(e, xs[0]), h, j);
      TimesCommutes(h, j);
      TimesSplit(e, xs[0], k);
      PlusLaws(Times(e, k), Times(xs[0], k), KeyPolynomial(xs[1..], h));
    }
  }

  lemma TimesSplit(x: Element, y: Element, z: Element)
    ensures Times(Plus(x, y), z) == Plus(Times(x, z), Times(y, z))
  {
    TimesDistributes(x, y, z);
  }

  /** GHASH evaluates the polynomial whose coefficients are the blocks at the hash key. */
  lemma HornerIsPolynomial(xs: seq<Element>, h: Element)
    ensures Horner(Zero(), xs, h) == KeyPolynomial(xs, h)
  {
    hide Plus, Times;
    if |xs| > 0 {
      HornerFrom(Zero(), xs, h);
      TimesZero(KeyPower(h, |xs|));
      PlusLaws(Zero(), KeyPolynomial(xs, h), Zero());
      PlusLaws(KeyPolynomial(xs, h), Zero(), Zero());
    }
  }
}
