/**
 Field elements modulo 2^255 - 19 as sixteen signed 64-bit limbs of weight 2^16,
 as `curve_car`, `curve_add`, `curve_sub` and `curve_mul` keep them. `int64` is a
 newtype, so every intermediate result of the methods below is proved to fit.
 */
module Limbs {
  import opened ModArith
  import opened Field

  newtype int64 = x: int | -0x8000_0000_0000_0000 <= x < 0x8000_0000_0000_0000

  /** Weight of limb i. */
  ghost function Weight(i: nat): (w: int)
    ensures w > 0
  {
    if i == 0 then 1 else 65536 * Weight(i - 1)
  }

  /** Number denoted by the first n limbs. */
  ghost function Sum(s: seq<int64>, n: nat): int
    requires n <= |s|
    decreases n, s
  {
    if n == 0 then 0 else Sum(s, n - 1) + s[n - 1] as int * Weight(n - 1)
  }

  ghost function Val(s: seq<int64>): int
    requires |s| == 16
  {
    Sum(s, 16)
  }

  lemma {:induction false} WeightAdd(i: nat, j: nat)
    ensures Weight(i + j) == Weight(i) * Weight(j)
  {
    if j == 0 {
    } else {
      WeightAdd(i, j - 1);
      assert Weight(i) * (65536 * Weight(j - 1)) == 65536 * (Weight(i) * Weight(j - 1));
    }
  }

  /** The element of the prime field that sixteen limbs stand for. */
  ghost function Residue(s: seq<int64>): int
    requires |s| == 16
  {
    Val(s) % P
  }

  lemma WeightValues()
    ensures Weight(15) == 0x1_0000_0000_0000_0000_0000_0000_0000_0000_0000_0000_0000_0000_0000_0000_0000
    ensures Weight(16) == 2 * P + 38
  {
    assert Weight(1) == 65536 * Weight(0) == 0x1_0000;
    WeightAdd(1, 1);
    assert Weight(2) == 0x1_0000_0000;
    WeightAdd(2, 2);
    assert Weight(4) == 0x1_0000_0000_0000_0000;
    WeightAdd(4, 4);
    assert Weight(8) == 0x1_0000_0000_0000_0000_0000_0000_0000_0000;
    WeightAdd(8, 8);
    assert Weight(16) == 65536 * Weight(15);
  }

  lemma {:induction false} SumAgrees(s: seq<int64>, t: seq<int64>, n: nat)
    requires n <= |s| && n <= |t|
    requires forall k :: 0 <= k < n ==> s[k] == t[k]
    ensures Sum(s, n) == Sum(t, n)
  {
    if n > 0 {
      SumAgrees(s, t, n - 1);
    }
  }

  lemma SumStep(s: seq<int64>, n: nat)
    requires n < |s|
    ensures Sum(s, n + 1) == Sum(s, n) + s[n] as int * Weight(n) && Sum(s, 0) == 0 && Weight(n + 1) == 65536 * Weight(n)
  {
  }

  /** Changing one limb changes the denoted number by the weighted difference. */
  lemma {:induction false} SumUpdate(s: seq<int64>, i: nat, x: int64, n: nat)
    requires i < n <= |s|
    ensures Sum(s[i := x], n) == Sum(s, n) + (x as int - s[i] as int) * Weight(i)
  {
    if i == n - 1 {
      SumAgrees(s[i := x], s, n - 1);
      assert x as int * Weight(i) == s[i] as int * Weight(i) + (x as int - s[i] as int) * Weight(i);
    } else {
      SumUpdate(s, i, x, n - 1);
    }
  }

  /** Limbs that are all proper base-65536 digits. */
  ghost predicate Digits(s: seq<int64>, n: nat)
    requires n <= |s|
  {
    forall k :: 0 <= k < n ==> 0 <= s[k] < 65536
  }

  lemma {:induction false} DigitsRange(s: seq<int64>, n: nat)
    requires n <= |s| && Digits(s, n)
    ensures 0 <= Sum(s, n) < Weight(n)
  {
    if n > 0 {
      DigitsRange(s, n - 1);
      TermBound(s[n - 1] as int, 65535, Weight(n - 1));
    }
  }

  lemma TermBound(x: int, bound: int, w: int)
    requires w > 0
    ensures x <= bound ==> x * w <= bound * w
    ensures x >= 0 ==> x * w >= 0
  {
    if x <= bound {
      assert 0 <= (bound - x) * w == bound * w - x * w;
    }
  }

  lemma {:induction false} SumBound(s: seq<int64>, n: nat, bound: int)
    requires 1 <= n <= |s| && bound >= 0
    requires forall k :: 0 <= k < n ==> -bound <= s[k] as int <= bound
    ensures -2 * (bound * Weight(n - 1)) <= Sum(s, n) <= 2 * (bound * Weight(n - 1))
  {
    var w := Weight(n - 1);
    TermBound(s[n - 1] as int, bound, w);
    TermBound(-bound, s[n - 1] as int, w);
    assert (-bound) * w == -(bound * w);
    if n == 1 {
      assert Sum(s, 0) == 0;
    } else {
      SumBound(s, n - 1, bound);
      var u := Weight(n - 2);
      assert bound * w == 65536 * (bound * u);
    }
  }

  /** One pass of carries over any limbs: the low 256 bits as digits, the overflow k folded in as 38k. */
  ghost predicate Carried(before: seq<int64>, after: seq<int64>, k: int)
    requires |before| == |after| == 16
  {
    && Val(before) == Val(after) + k * (2 * P)
    && (forall i :: 1 <= i < 16 ==> 0 <= after[i] < 65536)
    && 0 <= after[0] as int - 38 * k < 65536
  }

  const CarryBound: int64 := 0x2000_0000_0000_0000

  /** Moving c units of limb i's carry into limb i + 1 keeps the number. */
  lemma CarryStep(s: seq<int64>, t: seq<int64>, i: nat, c: int)
    requires |s| == |t| == 16 && i < 15
    requires t == s[i := t[i]][i + 1 := t[i + 1]]
    requires t[i] as int == s[i] as int - 65536 * c && t[i + 1] as int == s[i + 1] as int + c
    ensures Val(t) == Val(s)
  {
    SumUpdate(s, i, t[i], 16);
    SumUpdate(s[i := t[i]], i + 1, t[i + 1], 16);
    assert (-65536 * c) * Weight(i) == -(c * (65536 * Weight(i)));
  }

  /** Folding the carry of limb 15 into limb 0 subtracts a multiple of 2p. */
  lemma FoldStep(s: seq<int64>, t: seq<int64>, c: int)
    requires |s| == |t| == 16
    requires t == s[0 := t[0]][15 := t[15]]
    requires t[15] as int == s[15] as int - 65536 * c && t[0] as int == s[0] as int + 38 * c
    ensures Val(s) == Val(t) + c * (2 * P)
  {
    SumUpdate(s, 0, t[0], 16);
    SumUpdate(s[0 := t[0]], 15, t[15], 16);
    WeightValues();
    assert Weight(0) == 1;
  }

  /** Body of the carry loop for limb i: normalise it and pass the carry c on. */
  method CarryLimb(value: array<int64>, i: nat) returns (ghost c: int)
    requires value.Length == 16 && i < 16
    requires forall j :: 0 <= j < 16 ==> -2 * CarryBound <= value[j] <= 2 * CarryBound - 65536
    modifies value
    ensures var next := (i + 1) % 16;
      && value[..] == old(value[..])[i := value[i]][next := value[next]]
      && 0 <= value[i] < 65536
      && value[i] as int == old(value[i]) as int - 65536 * c
      && value[next] as int == old(value[next]) as int + (if i == 15 then 38 * c else c)
  {
    value[i] := value[i] + 65536;
    var carry := value[i];
    var next := (i + 1) % 16;
    value[next] := value[next] + (carry / 65536 - 1 + (if i == 15 then 37 * (carry / 65536 - 1) else 0));
    value[i] := value[i] - (carry / 65536) * 65536;
    c := carry as int / 65536 - 1;
    assert value[..] == old(value[..])[i := value[i]][next := value[next]];
  }

  method Car(value: array<int64>) returns (ghost k: int)
    requires value.Length == 16
    requires forall i :: 0 <= i < 16 ==> -CarryBound <= value[i] <= CarryBound
    modifies value
    ensures Carried(old(value[..]), value[..], k)
  {
    k := 0;
    for i := 0 to 16
      invariant forall j :: i < j < 16 ==> value[j] == old(value[j])
      invariant i < 16 ==> -CarryBound - CarryBound / 32768 <= value[i] <= CarryBound + CarryBound / 32768
      invariant forall j :: (if i == 16 then 1 else 0) <= j < i ==> 0 <= value[j] < 65536
      invariant i == 16 ==> 0 <= value[0] as int - 38 * k < 65536
      invariant old(Val(value[..])) == Val(value[..]) + k * (2 * P)
      invariant i < 16 ==> k == 0
    {
      ghost var s := value[..];
      ghost var c := CarryLimb(value, i);
      if i < 15 {
        CarryStep(s, value[..], i, c);
      } else {
        assert value[..] == s[0 := value[0]][15 := value[15]];
        FoldStep(s, value[..], c);
        k := c;
      }
    }
  }

  /** The bounds of every field element that `curve_mul` returns. */
  ghost predicate Reduced(s: seq<int64>)
  {
    |s| == 16 && -38 <= s[0] <= 65573 && forall i :: 1 <= i < 16 ==> 0 <= s[i] < 65536
  }

  /** The carried limbs are the digits of the number modulo 2^256, apart from the 38k in limb 0. */
  lemma CarriedRange(before: seq<int64>, after: seq<int64>, k: int)
    requires |before| == |after| == 16 && Carried(before, after, k)
    ensures 0 <= Val(after) - 38 * k < Weight(16)
    ensures Val(before) == Val(after) - 38 * k + k * Weight(16)
    ensures 0 <= Val(after) - after[0] as int
  {
    var low := (after[0] as int - 38 * k) as int64;
    SumUpdate(after, 0, low, 16);
    assert Weight(0) == 1;
    DigitsRange(after[0 := low], 16);
    WeightValues();
    SumUpdate(after, 0, 0, 16);
    DigitsRange(after[0 := 0], 16);
  }

  /** The overflow of the first pass is bounded by the size of the limbs. */
  lemma FirstPass(before: seq<int64>, after: seq<int64>, k: int, bound: int)
    requires |before| == |after| == 16 && Carried(before, after, k) && bound >= 0
    requires forall i :: 0 <= i < 16 ==> -bound <= before[i] as int <= bound
    ensures -bound / 16384 - 2 <= k <= bound / 16384 + 1
  {
    CarriedRange(before, after, k);
    SumBound(before, 16, bound);
    QuotientBound(Val(before), Val(after) - 38 * k, k, bound, Weight(15));
  }

  lemma QuotientBound(v: int, r: int, k: int, bound: int, w: int)
    requires w > 0 && bound >= 0 && v == r + k * (65536 * w) && 0 <= r < 65536 * w
    requires -2 * (bound * w) <= v <= 2 * (bound * w)
    ensures -bound / 16384 - 2 <= k <= bound / 16384 + 1
  {
    var hi, lo := 65536 * k - 2 * bound, 65536 * (k + 1) + 2 * bound;
    assert k * (65536 * w) == (65536 * k) * w;
    assert hi * w == (65536 * k) * w - 2 * (bound * w) <= 0;
    assert lo * w == (65536 * k) * w + 65536 * w + 2 * (bound * w) > 0;
    assert hi >= 1 ==> hi * w >= 1;
    assert lo <= 0 ==> lo * w <= 0;
  }

  /** A pass over limbs that are digits but for limb 0 brings every limb into the output bounds. */
  lemma SecondPass(before: seq<int64>, after: seq<int64>, k: int)
    requires |before| == |after| == 16 && Carried(before, after, k)
    requires forall i :: 1 <= i < 16 ==> 0 <= before[i] < 65536
    requires -0x40_0000_0000_0000 <= before[0] <= 0x40_0000_0000_0000
    ensures -1 <= k <= 1 && Reduced(after)
  {
    CarriedRange(before, after, k);
    SumUpdate(before, 0, 0, 16);
    assert Weight(0) == 1;
    DigitsRange(before[0 := 0], 16);
    WeightValues();
  }

  /** A pass over limbs within the output bounds leaves proper digits only. */
  lemma ThirdPass(before: seq<int64>, after: seq<int64>, k: int)
    requires |before| == |after| == 16 && Carried(before, after, k) && Reduced(before)
    ensures Digits(after, 16)
  {
    SecondPass(before, after, k);
    CarriedRange(before, after, k);
    SumUpdate(before, 0, 0, 16);
    SumUpdate(after, 0, 0, 16);
    assert Weight(0) == 1;
    DigitsRange(before[0 := 0], 16);
    WeightValues();
    if k == 1 {
      TopBound(before);
    } else if k == -1 {
      assert Val(after) + 38 >= Weight(16) - 38;
      TopBound(after);
    }
  }

  /** Limb 0 of a number close to 2^256 is itself large. */
  lemma TopBound(s: seq<int64>)
    requires |s| == 16 && forall i :: 1 <= i < 16 ==> 0 <= s[i] < 65536
    ensures Val(s) - s[0] as int <= Weight(16) - 65536
  {
    SumUpdate(s, 0, 0, 16);
    assert Weight(0) == 1;
    MultipleOfBase(s[0 := 0], 16);
    DigitsRange(s[0 := 0], 16);
    WeightValues();
  }

  lemma {:induction false} MultipleOfBase(s: seq<int64>, n: nat)
    requires 1 <= n <= |s| && s[0] == 0
    ensures Sum(s, n) % 65536 == 0
  {
    if n > 1 {
      MultipleOfBase(s, n - 1);
      assert s[n - 1] as int * (65536 * Weight(n - 2)) == 65536 * (s[n - 1] as int * Weight(n - 2));
    } else {
      assert Sum(s, 0) == 0;
    }
  }

  // ---- Multiplication ----

  /** The n limbs from position m on, read as a number of their own. */
  ghost function High(t: seq<int64>, m: nat, n: nat): int
    requires m + n <= |t|
    decreases n, m, t
  {
    if n == 0 then 0 else High(t, m, n - 1) + t[m + n - 1] as int * Weight(n - 1)
  }

  lemma DistributeTerm(w: int, h: int, x: int, u: int)
    ensures w * (h + x * u) == w * h + x * (w * u)
  {
    assert w * (x * u) == x * (w * u);
  }

  lemma {:induction false} SplitHigh(t: seq<int64>, m: nat, n: nat)
    requires m + n <= |t|
    ensures Sum(t, m + n) == Sum(t, m) + Weight(m) * High(t, m, n)
  {
    if n > 0 {
      SplitHigh(t, m, n - 1);
      WeightAdd(m, n - 1);
      DistributeTerm(Weight(m), High(t, m, n - 1), t[m + n - 1] as int, Weight(n - 1));
      assert Sum(t, m + n) == Sum(t, m + n - 1) + t[m + n - 1] as int * Weight(m + n - 1);
    }
  }

  lemma FoldTerm(x: int, y: int, w: int)
    ensures (x + 38 * y) * w == x * w + 38 * (y * w)
  {
  }

  lemma {:induction false} FoldHigh(t: seq<int64>, folded: seq<int64>, n: nat)
    requires |t| == 31 && |folded| == 31 && n <= 15
    requires forall i :: 0 <= i < n ==> folded[i] as int == t[i] as int + 38 * t[i + 16] as int
    ensures Sum(folded, n) == Sum(t, n) + 38 * High(t, 16, n)
  {
    if n > 0 {
      FoldHigh(t, folded, n - 1);
      FoldTerm(t[n - 1] as int, t[n + 15] as int, Weight(n - 1));
    }
  }

  /** Folding the high limbs in with factor 38 keeps the residue modulo p. */
  lemma FoldCongruent(t: seq<int64>, folded: seq<int64>)
    requires |t| == 31 && |folded| == 31
    requires forall i :: 0 <= i < 15 ==> folded[i] as int == t[i] as int + 38 * t[i + 16] as int
    requires folded[15] == t[15]
    ensures Cong(Sum(folded, 16), Sum(t, 31), P)
  {
    SplitHigh(t, 16, 15);
    FoldHigh(t, folded, 15);
    WeightValues();
    var h := High(t, 16, 15);
    assert Weight(16) * h == (2 * P) * h + 38 * h;
    FromMultiple(Sum(folded, 16), Sum(t, 31), -2 * h, P);
  }

  const LeftBound: int64 := 0x2_0100
  const RightBound: int64 := 0x4_0000_0000
  const RowBound: int64 := 0x8_0400_0000_0000

  lemma ProductBound(x: int, y: int, a: int, b: int)
    requires -a <= x <= a && -b <= y <= b
    ensures -(a * b) <= x * y <= a * b
  {
    assert (a - x) * (b + y) + (a + x) * (b - y) == 2 * (a * b) - 2 * (x * y);
    assert (a - x) * (b - y) + (a + x) * (b + y) == 2 * (a * b) + 2 * (x * y);
    assert (a - x) * (b + y) >= 0 && (a + x) * (b - y) >= 0 && (a - x) * (b - y) >= 0 && (a + x) * (b + y) >= 0;
  }

  lemma Distribute(a: int, b: int, c: int)
    ensures a * (b + c) == a * b + a * c && (b + c) * a == b * a + c * a
  {
  }

  lemma Rearrange(l: int, u: int, r: int, w: int)
    ensures (l * r) * (u * w) == (l * u) * (r * w)
  {
    assert (l * r) * (u * w) == l * (r * (u * w));
    assert r * (u * w) == u * (r * w);
    assert l * (u * (r * w)) == (l * u) * (r * w);
  }

  /** One accumulation of the inner loop: term (i, j) of the product of left and right. */
  lemma AccumulateTerm(t: seq<int64>, i: nat, j: nat, x: int64, l: int, right: seq<int64>)
    requires |t| == 31 && i < 16 && j < 16 && |right| == 16
    requires x as int == t[i + j] as int + l * right[j] as int
    ensures Sum(t[i + j := x], 31) - (l * Weight(i)) * Sum(right, j + 1) == Sum(t, 31) - (l * Weight(i)) * Sum(right, j)
  {
    var r := right[j] as int;
    SumUpdate(t, i + j, x, 31);
    WeightAdd(i, j);
    Rearrange(l, Weight(i), r, Weight(j));
    Distribute(l * Weight(i), Sum(right, j), r * Weight(j));
  }

  ghost predicate Within(s: seq<int64>, bound: int)
  {
    forall k :: 0 <= k < |s| ==> -bound <= s[k] as int <= bound
  }

  /** Row i of the schoolbook product: adds left[i] times the right operand at offset i. */
  method MulRow(temporary: array<int64>, left: array<int64>, right: array<int64>, i: nat, ghost bound: int)
    requires temporary.Length == 31 && left.Length == 16 && right.Length == 16 && i < 16
    requires temporary != left && temporary != right
    requires -LeftBound <= left[i] <= LeftBound && Within(right[..], RightBound as int)
    requires 0 <= bound <= 15 * RowBound as int && Within(temporary[..], bound)
    modifies temporary
    ensures Sum(temporary[..], 31) == old(Sum(temporary[..], 31)) + (left[i] as int * Weight(i)) * Val(right[..])
    ensures Within(temporary[..], bound + RowBound as int)
  {
    ghost var l := left[i] as int * Weight(i);
    ghost var start := Sum(temporary[..], 31);
    for j := 0 to 16
      invariant Sum(temporary[..], 31) == start + l * Sum(right[..], j)
      invariant forall k :: i + j <= k < 31 ==> -bound <= temporary[k] as int <= bound
      invariant Within(temporary[..], bound + RowBound as int)
    {
      ghost var t := temporary[..];
      assert -bound <= t[i + j] as int <= bound && -RightBound <= right[..][j] <= RightBound;
      ProductBound(left[i] as int, right[j] as int, LeftBound as int, RightBound as int);
      temporary[i + j] := temporary[i + j] + left[i] * right[j];
      assert temporary[..] == t[i + j := temporary[i + j]];
      AccumulateTerm(t, i, j, temporary[i + j], left[i] as int, right[..]);
    }
  }

  /** The thirty-one limbs of the schoolbook product. */
  method Product(left: array<int64>, right: array<int64>) returns (temporary: array<int64>)
    requires left.Length == 16 && right.Length == 16
    requires Within(left[..], LeftBound as int) && Within(right[..], RightBound as int)
    ensures fresh(temporary) && temporary.Length == 31
    ensures Sum(temporary[..], 31) == Val(left[..]) * Val(right[..])
    ensures Within(temporary[..], 16 * RowBound as int)
  {
    hide Sum, Weight;
    temporary := new int64[31](_ => 0);
    ZeroSum(temporary[..], 31);
    ghost var l, r := left[..], Val(right[..]);
    SumStep(l, 0);
    for i := 0 to 16
      modifies temporary
      invariant Sum(temporary[..], 31) == Sum(l, i) * r
      invariant Within(temporary[..], i * RowBound as int)
    {
      assert -LeftBound <= l[i] <= LeftBound;
      MulRow(temporary, left, right, i, i * RowBound as int);
      SumStep(l, i);
      Distribute(r, Sum(l, i), l[i] as int * Weight(i));
    }
  }

  lemma FoldWithin(t: seq<int64>, folded: seq<int64>, bound: int)
    requires |t| == 31 && |folded| == 31 && Within(t, bound)
    requires forall i :: 0 <= i < 15 ==> folded[i] as int == t[i] as int + 38 * t[i + 16] as int
    requires forall i :: 15 <= i < 31 ==> folded[i] == t[i]
    ensures Within(folded, 39 * bound)
  {
    forall k | 0 <= k < 31
      ensures -39 * bound <= folded[k] as int <= 39 * bound
    {
      assert -bound <= t[k] as int <= bound;
      if k < 15 {
        assert -bound <= t[k + 16] as int <= bound;
      }
    }
  }

  /** Folds the high limbs of a product into its low sixteen with factor 38. */
  method Fold(temporary: array<int64>)
    requires temporary.Length == 31 && Within(temporary[..], 16 * RowBound as int)
    modifies temporary
    ensures Within(temporary[..], 39 * 16 * RowBound as int)
    ensures Cong(Sum(temporary[..], 16), old(Sum(temporary[..], 31)), P)
  {
    ghost var t := temporary[..];
    for i := 0 to 15
      invariant forall k :: i <= k < 31 ==> temporary[k] == t[k]
      invariant forall k :: 0 <= k < i ==> temporary[k] as int == t[k] as int + 38 * t[k + 16] as int
    {
      temporary[i] := temporary[i] + 38 * temporary[i + 16];
    }
    FoldCongruent(t, temporary[..]);
    FoldWithin(t, temporary[..], 16 * RowBound as int);
  }

  /** `curve_mul`: the product modulo p within the output bounds; output may alias an operand. */
  method MulLimbs(output: array<int64>, left: array<int64>, right: array<int64>)
    requires output.Length == 16 && left.Length == 16 && right.Length == 16
    requires Within(left[..], LeftBound as int) && Within(right[..], RightBound as int)
    modifies output
    ensures Reduced(output[..])
    ensures Residue(output[..]) == Mul(old(Residue(left[..])), old(Residue(right[..])))
  {
    ghost var product := Val(left[..]) * Val(right[..]);
    var temporary := Product(left, right);
    assert Sum(temporary[..], 31) == product;
    Fold(temporary);
    ghost var limbs := temporary[..];
    assert Cong(Sum(limbs, 16), product, P);
    hide Cong;
    for i := 0 to 16
      modifies output
      invariant forall k :: 0 <= k < i ==> output[k] == temporary[k]
    {
      output[i] := temporary[i];
    }
    assert limbs == temporary[..];
    assert forall k :: 0 <= k < 16 ==> output[k] == limbs[k];
    SumAgrees(output[..], limbs, 16);
    assert Val(output[..]) == Sum(limbs, 16);
    ReduceTwice(output);
    CongTrans(Val(output[..]), Sum(limbs, 16), product, P);
    MulResidue(Val(output[..]), old(Val(left[..])), old(Val(right[..])));
  }

  /** The two carry passes that end `curve_mul`. */
  method ReduceTwice(output: array<int64>)
    requires output.Length == 16 && Within(output[..], CarryBound as int)
    modifies output
    ensures Reduced(output[..]) && Cong(Val(output[..]), old(Val(output[..])), P)
  {
    ghost var s0 := output[..];
    assert forall i :: 0 <= i < 16 ==> output[i] == s0[i];
    ghost var k1 := Car(output);
    ghost var s1 := output[..];
    FirstPass(s0, s1, k1, CarryBound as int);
    ghost var k2 := Car(output);
    SecondPass(s1, output[..], k2);
    FromMultiple(Val(output[..]), Val(s0), -2 * (k1 + k2), P);
  }

  lemma {:induction false} ZeroSum(s: seq<int64>, n: nat)
    requires n <= |s| && forall i :: 0 <= i < n ==> s[i] == 0
    ensures Sum(s, n) == 0
  {
    if n > 0 {
      ZeroSum(s, n - 1);
    }
  }
}
