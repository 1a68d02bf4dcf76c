/** Canonical little-endian bytes of a field element: `curve_pack`, `curve_unpack` and `curve_select`. */
module Packing {
  import opened Bytes
  import opened ModArith
  import opened Field
  import opened Limbs
  import BigEndian

  /** Number denoted by the first n bytes, least significant first. */
  ghost function LittleEndian(b: seq<byte>, n: nat): int
    requires n <= |b|
    decreases n, b
  {
    if n == 0 then 0 else LittleEndian(b, n - 1) + b[n - 1] as int * ByteWeight(n - 1)
  }

  ghost function ByteWeight(i: nat): (w: int)
    ensures w > 0
  {
    if i == 0 then 1 else 256 * ByteWeight(i - 1)
  }

  lemma {:induction false} BytesBelow(b: seq<byte>, n: nat)
    requires n <= |b|
    ensures 0 <= LittleEndian(b, n) < ByteWeight(n)
  {
    if n > 0 {
      BytesBelow(b, n - 1);
      TermBound(b[n - 1] as int, 255, ByteWeight(n - 1));
    }
  }

  /** The little-endian bytes of a number are unique. */
  lemma {:induction false} BytesUnique(b: seq<byte>, b': seq<byte>, n: nat)
    requires n == |b| == |b'| && LittleEndian(b, n) == LittleEndian(b', n)
    ensures b == b'
  {
    if n > 0 {
      var w := ByteWeight(n - 1);
      BytesBelow(b, n - 1);
      BytesBelow(b', n - 1);
      BytePrefix(b, n - 1);
      BytePrefix(b', n - 1);
      RowsApart(w, b[n - 1] as int, LittleEndian(b, n - 1), b'[n - 1] as int, LittleEndian(b', n - 1));
      BytesUnique(b[..n - 1], b'[..n - 1], n - 1);
      assert b == b[..n - 1] + [b[n - 1]] && b' == b'[..n - 1] + [b'[n - 1]];
    }
  }

  lemma {:induction false} BytePrefix(b: seq<byte>, n: nat)
    requires n <= |b|
    ensures LittleEndian(b[..n], n) == LittleEndian(b, n)
    decreases n
  {
    if n > 0 {
      BytePrefix(b, n - 1);
      BytePrefix(b[..n], n - 1);
      assert b[..n][..n - 1] == b[..n - 1];
    }
  }

  /** Limb vectors for the same field element pack to the same bytes, and unpacking them gives that element back. */
  lemma PackingIsCanonical(x: seq<int64>, y: seq<int64>, b: seq<byte>, c: seq<byte>)
    requires |x| == |y| == 16 && |b| == |c| == 32
    requires LittleEndian(b, 32) == Val(x) % P && LittleEndian(c, 32) == Val(y) % P
    ensures b == c <==> Residue(x) == Residue(y)
    ensures DecodeU(b) == Residue(x)
  {
    hide Val, LittleEndian;
    if Residue(x) == Residue(y) {
      BytesUnique(b, c, 32);
    }
    ModUnique(LittleEndian(b, 32), 0, LittleEndian(b, 32), P + 19);
  }

  lemma {:induction false} ByteWeightPairs(n: nat)
    ensures ByteWeight(2 * n) == Weight(n)
  {
    if n > 0 {
      ByteWeightPairs(n - 1);
      assert ByteWeight(2 * n) == 256 * ByteWeight(2 * n - 1) == 256 * (256 * ByteWeight(2 * n - 2));
    }
  }

  /** Two bytes to a limb: both readings denote the same number. */
  lemma {:induction false} PairsAgree(b: seq<byte>, s: seq<int64>, n: nat)
    requires 2 * n <= |b| && n <= |s|
    requires forall i :: 0 <= i < n ==> s[i] as int == b[2 * i] as int + 256 * b[2 * i + 1] as int
    ensures LittleEndian(b, 2 * n) == Sum(s, n)
  {
    if n > 0 {
      PairsAgree(b, s, n - 1);
      ByteWeightPairs(n - 1);
      var w := Weight(n - 1);
      assert LittleEndian(b, 2 * n) == LittleEndian(b, 2 * n - 1) + b[2 * n - 1] as int * (256 * w);
      assert LittleEndian(b, 2 * n - 1) == LittleEndian(b, 2 * n - 2) + b[2 * n - 2] as int * w;
      var lo, hi := b[2 * n - 2] as int, b[2 * n - 1] as int;
      assert (lo + 256 * hi) * w == lo * w + hi * (256 * w);
    }
  }

  /** The mask `curve_select` builds from its 0/1 selector. */
  function SelectMask(selector: bv64): bv64 {
    !(selector - 1)
  }

  function Xor(x: bv64, y: bv64): bv64 {
    x ^ y
  }

  function Masked(mask: bv64, x: bv64, y: bv64): bv64 {
    mask & (x ^ y)
  }

  /** The difference of two limbs, or nothing, as the selector has it. */
  function Changed(x: bv64, y: bv64, selector: bv64): bv64 {
    Masked(SelectMask(selector), x, y)
  }

  /** On 64-bit words, exclusive-oring two limbs with the masked difference exchanges them or keeps them. */
  lemma MaskedExchange(x: bv64, y: bv64, selector: bv64)
    requires selector == 0 || selector == 1
    ensures Xor(x, Changed(x, y, selector)) == if selector == 1 then y else x
    ensures Xor(y, Changed(x, y, selector)) == if selector == 1 then x else y
  {
    hide Xor, Masked, SelectMask;
    MaskConstant(selector);
    if selector == 1 {
      XorAllOnes(x, y);
    } else {
      XorZero(x, y);
    }
  }

  lemma MaskConstant(selector: bv64)
    requires selector == 0 || selector == 1
    ensures SelectMask(selector) == if selector == 1 then 0xffff_ffff_ffff_ffff else 0
  {
  }

  lemma XorAllOnes(x: bv64, y: bv64)
    ensures Xor(x, Masked(0xffff_ffff_ffff_ffff, x, y)) == y && Xor(y, Masked(0xffff_ffff_ffff_ffff, x, y)) == x
  {
  }

  lemma XorZero(x: bv64, y: bv64)
    ensures Xor(x, Masked(0, x, y)) == x && Xor(y, Masked(0, x, y)) == y
  {
  }

  // ---- Limbs as 64-bit words in two's complement ----

  /** A word from its eight bytes, the lowest first. */
  function Word8(a: bv8, b: bv8, c: bv8, d: bv8, e: bv8, f: bv8, g: bv8, h: bv8): bv64 {
    (a as bv64) | ((b as bv64) << 8) | ((c as bv64) << 16) | ((d as bv64) << 24) | ((e as bv64) << 32) | ((f as bv64) << 40) | ((g as bv64) << 48) | ((h as bv64) << 56)
  }

  function ByteAt(w: bv64, k: bv6): bv8 {
    ((w >> k) & 0xff) as bv8
  }

  lemma BytesOfWord(a: bv8, b: bv8, c: bv8, d: bv8, e: bv8, f: bv8, g: bv8, h: bv8)
    ensures var w := Word8(a, b, c, d, e, f, g, h);
      && ByteAt(w, 0) == a && ByteAt(w, 8) == b && ByteAt(w, 16) == c && ByteAt(w, 24) == d
      && ByteAt(w, 32) == e && ByteAt(w, 40) == f && ByteAt(w, 48) == g && ByteAt(w, 56) == h
  {
  }

  lemma ByteRange(b: bv8)
    ensures 0 <= b as int < 256
  {
  }

  /** A limb shifted right by some bytes. */
  function Shifted(x: int, n: nat): int {
    if n == 0 then x else Shifted(x, n - 1) / 256
  }

  function LimbByte(x: int, n: nat): (b: bv8)
    ensures b as int == Shifted(x, n) % 256
  {
    ModTwice(Shifted(x, n), 256);
    BigEndian.AsByte(Shifted(x, n) % 256)
  }

  /** A limb as the word that the processor holds. */
  function Word(x: int64): bv64 {
    var v := x as int;
    Word8(LimbByte(v, 0), LimbByte(v, 1), LimbByte(v, 2), LimbByte(v, 3), LimbByte(v, 4), LimbByte(v, 5), LimbByte(v, 6), LimbByte(v, 7))
  }

  /** The limb that a word is: its top byte counts as signed. */
  function Limb(w: bv64): int64 {
    ByteRange(ByteAt(w, 0)); ByteRange(ByteAt(w, 8)); ByteRange(ByteAt(w, 16)); ByteRange(ByteAt(w, 24)); ByteRange(ByteAt(w, 32)); ByteRange(ByteAt(w, 40)); ByteRange(ByteAt(w, 48)); ByteRange(ByteAt(w, 56));
    Signed(ByteAt(w, 0) as int, ByteAt(w, 8) as int, ByteAt(w, 16) as int, ByteAt(w, 24) as int, ByteAt(w, 32) as int, ByteAt(w, 40) as int, ByteAt(w, 48) as int, ByteAt(w, 56) as int)
  }

  function Signed(a: int, b: int, c: int, d: int, e: int, f: int, g: int, h: int): int64
    requires 0 <= a < 256 && 0 <= b < 256 && 0 <= c < 256 && 0 <= d < 256 && 0 <= e < 256 && 0 <= f < 256 && 0 <= g < 256 && 0 <= h < 256
  {
    var top := if h < 0x80 then h else h - 0x100;
    (a + 256 * (b + 256 * (c + 256 * (d + 256 * (e + 256 * (f + 256 * (g + 256 * top))))))) as int64
  }

  lemma SignedBytes(x: int64)
    ensures var v := x as int;
      Signed(Shifted(v, 0) % 256, Shifted(v, 1) % 256, Shifted(v, 2) % 256, Shifted(v, 3) % 256, Shifted(v, 4) % 256, Shifted(v, 5) % 256, Shifted(v, 6) % 256, Shifted(v, 7) % 256) == x
  {
    hide Shifted;
    var v := x as int;
    ShiftedStart(x);
    ShiftedStep(v, 6);
    ShiftedStep(v, 5);
    ShiftedStep(v, 4);
    ShiftedStep(v, 3);
    ShiftedStep(v, 2);
    ShiftedStep(v, 1);
    ShiftedStep(v, 0);
    TopByte(Shifted(v, 7));
  }

  /** The top byte, signed, is what is left of the limb. */
  lemma TopByte(top: int)
    requires -0x80 <= top < 0x80
    ensures top == if top % 256 < 0x80 then top % 256 else top % 256 - 0x100
  {
  }

  lemma ShiftedStart(x: int64)
    ensures Shifted(x as int, 0) == x as int && -0x80 <= Shifted(x as int, 7) < 0x80
  {
    var v := x as int;
    assert -0x80_0000_0000_0000 <= Shifted(v, 1) < 0x80_0000_0000_0000;
    assert -0x8000_0000_0000 <= Shifted(v, 2) < 0x8000_0000_0000;
    assert -0x80_0000_0000 <= Shifted(v, 3) < 0x80_0000_0000;
    assert -0x8000_0000 <= Shifted(v, 4) < 0x8000_0000;
    assert -0x80_0000 <= Shifted(v, 5) < 0x80_0000;
    assert -0x8000 <= Shifted(v, 6) < 0x8000;
    assert -0x80 <= Shifted(v, 7) < 0x80;
  }

  lemma ShiftedStep(v: int, n: nat)
    ensures Shifted(v, n) == 256 * Shifted(v, n + 1) + Shifted(v, n) % 256
  {
  }

  lemma LimbOfWord(x: int64)
    ensures Limb(Word(x)) == x
  {
    hide LimbByte, ByteAt, Word8, Signed, Shifted;
    var v := x as int;
    BytesOfWord(LimbByte(v, 0), LimbByte(v, 1), LimbByte(v, 2), LimbByte(v, 3), LimbByte(v, 4), LimbByte(v, 5), LimbByte(v, 6), LimbByte(v, 7));
    SignedBytes(x);
  }

  /** `curve_select`: both limbs meet the masked difference. */
  method Select(left: array<int64>, right: array<int64>, selector: bv64)
    requires left.Length == 16 && right.Length == 16 && left != right && (selector == 0 || selector == 1)
    modifies left, right
    ensures left[..] == old(if selector == 1 then right[..] else left[..])
    ensures right[..] == old(if selector == 1 then left[..] else right[..])
  {
    hide Word, Limb, Xor, Changed;
    for i := 0 to 16
      invariant forall k :: 0 <= k < i ==> left[k] == old(if selector == 1 then right[k] else left[k])
      invariant forall k :: 0 <= k < i ==> right[k] == old(if selector == 1 then left[k] else right[k])
      invariant forall k :: i <= k < 16 ==> left[k] == old(left[k]) && right[k] == old(right[k])
    {
      ExchangeLimbs(left[i], right[i], selector);
      var changed := Changed(Word(left[i]), Word(right[i]), selector);
      left[i] := Limb(Xor(Word(left[i]), changed));
      right[i] := Limb(Xor(Word(right[i]), changed));
    }
  }

  lemma ExchangeLimbs(x: int64, y: int64, selector: bv64)
    requires selector == 0 || selector == 1
    ensures var changed := Changed(Word(x), Word(y), selector);
      && Limb(Xor(Word(x), changed)) == (if selector == 1 then y else x)
      && Limb(Xor(Word(y), changed)) == (if selector == 1 then x else y)
  {
    hide Word, Limb, Xor, Changed;
    LimbOfWord(x);
    LimbOfWord(y);
    MaskedExchange(Word(x), Word(y), selector);
  }

  // ---- Conditional subtraction of p ----

  function PrimeLimb(i: int64): int64 {
    if i == 0 then 0xffed else if i == 15 then 0x7fff else 0xffff
  }

  ghost function PrimeLimbs(): (s: seq<int64>)
    ensures |s| == 16
  {
    seq(16, i requires 0 <= i < 16 => PrimeLimb(i as int64))
  }

  lemma {:induction false} PrimePrefix(n: nat)
    requires 1 <= n <= 15
    ensures Sum(PrimeLimbs(), n) == Weight(n) - 19
  {
    if n == 1 {
      assert Sum(PrimeLimbs(), 0) == 0;
    } else {
      PrimePrefix(n - 1);
    }
  }

  lemma PrimeValue()
    ensures Val(PrimeLimbs()) == P
  {
    PrimePrefix(15);
    WeightValues();
  }

  /** State of the trial subtraction before limb i is masked: a borrow may still sit in limb i. */
  ghost predicate Trial(copy: seq<int64>, candidate: seq<int64>, i: nat)
    requires |copy| == |candidate| == 16 && i < 16
  {
    && (forall k :: 0 <= k < i ==> 0 <= candidate[k] < 65536)
    && (if i == 15 then -0x8000 else -0x10000) <= candidate[i] <= 0x8000 + (if i == 15 then 0 else 0x7fff)
    && Sum(candidate, i + 1) == Sum(copy, i + 1) - Sum(PrimeLimbs(), i + 1)
  }

  lemma TrialStep(copy: seq<int64>, before: seq<int64>, after: seq<int64>, i: nat)
    requires |copy| == |before| == |after| == 16 && Digits(copy, 16)
    requires 1 <= i < 16 && Trial(copy, before, i - 1)
    requires after == before[i := after[i]][i - 1 := before[i - 1] % 65536]
    requires after[i] == copy[i] - PrimeLimb(i as int64) - (before[i - 1] / 65536) % 2
    ensures Trial(copy, after, i)
  {
    hide Sum, Weight;
    var b := before[i - 1];
    var c := ((b / 65536) % 2) as int;
    assert b as int == (b % 65536) as int - 65536 * c;
    SumAgrees(before, after, i - 1);
    SumStep(before, i - 1);
    SumStep(after, i - 1);
    SumStep(after, i);
    SumStep(copy, i);
    SumStep(PrimeLimbs(), i);
    assert PrimeLimbs()[i] == PrimeLimb(i as int64);
    BorrowStep((b % 65536) as int, c, Weight(i - 1), copy[i] as int, PrimeLimb(i as int64) as int);
  }

  /** A borrow c of weight 65536w taken from limb i leaves the difference of the prefixes right. */
  lemma BorrowStep(m: int, c: int, w: int, x: int, p: int)
    ensures m * w + (x - p - c) * (65536 * w) == (m - 65536 * c) * w + x * (65536 * w) - p * (65536 * w)
  {
    Distribute(65536 * w, x - p, -c);
    Distribute(65536 * w, x, -p);
    Distribute(w, m, -65536 * c);
    assert (-c) * (65536 * w) == -(c * (65536 * w)) && (-p) * (65536 * w) == -(p * (65536 * w));
    assert (-65536 * c) * w == -(c * (65536 * w));
  }

  /** The sign left in limb 15 tells whether the number reached p. */
  lemma TrialSign(copy: seq<int64>, candidate: seq<int64>)
    requires |copy| == |candidate| == 16 && Trial(copy, candidate, 15)
    ensures Val(candidate) == Val(copy) - P
    ensures candidate[15] < 0 <==> Val(copy) < P
  {
    PrimeValue();
    DigitsRange(candidate, 15);
    SignOfProduct(candidate[15] as int, Weight(15));
  }

  lemma SignOfProduct(c: int, w: int)
    requires w > 0
    ensures c >= 0 ==> c * w >= 0
    ensures c < 0 ==> c * w <= -w
  {
    if c < 0 {
      TermBound(c, -1, w);
    }
  }

  /** Limb i of the trial subtraction: subtracts the limb of p and the borrow, then masks limb i - 1. */
  method TrialLimb(copy: array<int64>, candidate: array<int64>, i: nat)
    requires copy.Length == 16 && candidate.Length == 16 && copy != candidate && Digits(copy[..], 16)
    requires 1 <= i < 16 && Trial(copy[..], candidate[..], i - 1)
    modifies candidate
    ensures Trial(copy[..], candidate[..], i)
  {
    hide Sum, Weight, PrimeLimbs;
    ghost var c, before := copy[..], candidate[..];
    assert 0 <= c[i] < 65536;
    candidate[i] := copy[i] - (if i < 15 then 0xffff else 0x7fff) - (candidate[i - 1] / 65536) % 2;
    candidate[i - 1] := candidate[i - 1] % 65536;
    assert candidate[..] == before[i := candidate[i]][i - 1 := before[i - 1] % 65536];
    TrialStep(c, before, candidate[..], i);
  }

  /** Computes copy - p into candidate, borrowing limb by limb; returns the borrow left in limb 15. */
  method TrialSubtract(copy: array<int64>, candidate: array<int64>) returns (select: int64)
    requires copy.Length == 16 && candidate.Length == 16 && copy != candidate && Digits(copy[..], 16)
    modifies candidate
    ensures Trial(copy[..], candidate[..], 15) && select == (candidate[15] / 65536) % 2
  {
    assert 0 <= copy[..][0] < 65536;
    candidate[0] := copy[0] - 0xffed;
    FirstTrial(copy[..], candidate[..]);
    for i := 1 to 16
      invariant Trial(copy[..], candidate[..], i - 1)
    {
      TrialLimb(copy, candidate, i);
    }
    select := (candidate[15] / 65536) % 2;
  }

  /** One pass of `curve_pack`: subtracts p once when the number has reached p. */
  method SubtractPrime(copy: array<int64>, candidate: array<int64>)
    requires copy.Length == 16 && candidate.Length == 16 && copy != candidate && Digits(copy[..], 16)
    modifies copy, candidate
    ensures Digits(copy[..], 16)
    ensures Val(copy[..]) == old(if Val(copy[..]) < P then Val(copy[..]) else Val(copy[..]) - P)
  {
    hide Sum, Val;
    var select := TrialSubtract(copy, candidate);
    TrialSign(copy[..], candidate[..]);
    assert select == 0 <==> candidate[15] >= 0;
    Select(copy, candidate, if select == 0 then 1 else 0);
  }

  lemma FirstTrial(copy: seq<int64>, candidate: seq<int64>)
    requires |copy| == |candidate| == 16 && Digits(copy, 16) && candidate[0] == copy[0] - 0xffed
    ensures Trial(copy, candidate, 0)
  {
    assert Sum(copy, 0) == 0 && Sum(candidate, 0) == 0 && Sum(PrimeLimbs(), 0) == 0;
    assert Weight(0) == 1;
  }

  /** `curve_pack`: the bytes are the unique little-endian form of the residue in [0, p). */
  method Pack(output: array<byte>, input: array<int64>)
    requires output.Length == 32 && input.Length == 16 && Within(input[..], CarryBound as int)
    modifies output
    ensures LittleEndian(output[..], 32) == Val(input[..]) % P
  {
    var copy := new int64[16](_ => 0);
    var candidate := new int64[16](_ => 0);
    for i := 0 to 16
      modifies copy
      invariant forall k :: 0 <= k < i ==> copy[k] == input[k]
    {
      copy[i] := input[i];
    }
    assert copy[..] == input[..];
    CarryThrice(copy);
    ghost var v := Val(copy[..]);
    for pass := 0 to 2
      modifies copy, candidate
      invariant Digits(copy[..], 16)
      invariant Val(copy[..]) == if v < P then v else if pass == 0 then v else if pass == 1 || v < 2 * P then v - P else v - 2 * P
    {
      SubtractPrime(copy, candidate);
    }
    Canonical(Val(input[..]), v, Val(copy[..]));
    StoreBytes(output, copy);
  }

  /** Splits every limb into its low and its high byte. */
  method StoreBytes(output: array<byte>, copy: array<int64>)
    requires output.Length == 32 && copy.Length == 16 && Digits(copy[..], 16)
    modifies output
    ensures LittleEndian(output[..], 32) == Val(copy[..])
  {
    ghost var d := copy[..];
    assert forall k :: 0 <= k < 16 ==> 0 <= copy[k] == d[k] < 65536;
    for i := 0 to 16
      invariant forall k :: 0 <= k < i ==> d[k] as int == output[2 * k] as int + 256 * output[2 * k + 1] as int
    {
      output[2 * i] := (copy[i] % 256) as byte;
      output[2 * i + 1] := (copy[i] / 256 % 256) as byte;
    }
    PairsAgree(output[..], d, 16);
  }

  /** Two conditional subtractions reach the residue, because 2^256 < 3p. */
  lemma Canonical(input: int, v: int, r: int)
    requires Cong(v, input, P) && 0 <= v < 3 * P
    requires r == if v < P then v else if v < 2 * P then v - P else v - 2 * P
    ensures r == input % P
  {
    var k := if v < P then 0 else if v < 2 * P then 1 else 2;
    ModUnique(v, k, r, P);
  }

  /** The three carry passes that open `curve_pack` leave digits, whatever the size of the limbs. */
  method CarryThrice(copy: array<int64>)
    requires copy.Length == 16 && Within(copy[..], CarryBound as int)
    modifies copy
    ensures Digits(copy[..], 16) && 0 <= Val(copy[..]) < 3 * P
    ensures Cong(Val(copy[..]), old(Val(copy[..])), P)
  {
    ghost var start := Val(copy[..]);
    ReduceTwice(copy);
    ghost var s := copy[..];
    ghost var k := Car(copy);
    ThirdPass(s, copy[..], k);
    DigitsRange(copy[..], 16);
    WeightValues();
    FromMultiple(Val(copy[..]), Val(s), -2 * k, P);
    CongTrans(Val(copy[..]), Val(s), start, P);
  }

  /** `curve_unpack`: the number in the bytes with its top bit masked off. */
  method Unpack(output: array<int64>, input: array<byte>)
    requires output.Length == 16 && input.Length == 32
    modifies output
    ensures Digits(output[..], 16)
    ensures Val(output[..]) == DecodeU(input[..])
  {
    hide Sum, Weight;
    for i := 0 to 16
      invariant forall k :: 0 <= k < i ==> output[k] as int == input[2 * k] as int + 256 * input[2 * k + 1] as int
    {
      output[i] := input[2 * i] as int64 + input[2 * i + 1] as int64 * 256;
    }
    ghost var s := output[..];
    PairsAgree(input[..], s, 16);
    output[15] := output[15] % 0x8000;
    assert output[..] == s[15 := output[15]];
    SumUpdate(s, 15, output[15], 16);
    MaskTop(s);
  }

  /** Masking limb 15 to fifteen bits is reduction modulo 2^255. */
  lemma MaskTop(s: seq<int64>)
    requires |s| == 16 && Digits(s, 16)
    ensures Val(s) + ((s[15] % 0x8000) as int - s[15] as int) * Weight(15) == Val(s) % (P + 19)
  {
    WeightValues();
    DigitsRange(s, 15);
    var hi, lo := (s[15] / 0x8000) as int, (s[15] % 0x8000) as int;
    var w := Weight(15);
    assert P + 19 == 0x8000 * w;
    assert (lo - s[15] as int) * w == -(hi * (0x8000 * w));
    TermBound(lo, 0x7fff, w);
    assert s[15] as int * w == lo * w + hi * (0x8000 * w);
    ModUnique(Val(s), hi, Sum(s, 15) + lo * w, P + 19);
  }

  /** decodeUCoordinate of section 5 of RFC 7748: little-endian, the unused most significant bit ignored. */
  ghost function DecodeU(b: seq<byte>): int
    requires |b| == 32
  {
    LittleEndian(b, 32) % (P + 19)
  }
}
