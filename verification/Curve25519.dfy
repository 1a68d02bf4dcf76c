/** `curve_inverse` and `curve_scalar_mult`: the limb ladder refines the X25519 function of RFC 7748. */
module Curve25519 {
  import opened Bytes
  import opened Field
  import opened Limbs
  import opened ModArith
  import opened Packing
  import opened Rfc7748
  import Montgomery

  // ---- Field operations on limbs, with what they do to residues ----

  method AddLimbs(output: array<int64>, left: array<int64>, right: array<int64>, ghost l: int, ghost r: int)
    requires output.Length == 16 && left.Length == 16 && right.Length == 16
    requires 0 <= l < 0x1_0000_0000_0000 && 0 <= r < 0x1_0000_0000_0000
    requires Within(left[..], l) && Within(right[..], r)
    modifies output
    ensures Within(output[..], l + r)
    ensures Residue(output[..]) == Add(old(Residue(left[..])), old(Residue(right[..])))
  {
    ghost var x, y := left[..], right[..];
    for i := 0 to 16
      invariant forall k :: i <= k < 16 ==> left[k] == x[k] && right[k] == y[k]
      invariant forall k :: 0 <= k < i ==> output[k] as int == x[k] as int + y[k] as int
    {
      assert -l <= x[i] as int <= l && -r <= y[i] as int <= r;
      output[i] := left[i] + right[i];
    }
    SumOfSums(x, y, output[..], 16, 1);
    AddResidue(Val(output[..]), Val(x), Val(y));
  }

  method SubLimbs(output: array<int64>, left: array<int64>, right: array<int64>, ghost l: int, ghost r: int)
    requires output.Length == 16 && left.Length == 16 && right.Length == 16
    requires 0 <= l < 0x1_0000_0000_0000 && 0 <= r < 0x1_0000_0000_0000
    requires Within(left[..], l) && Within(right[..], r)
    modifies output
    ensures Within(output[..], l + r)
    ensures Residue(output[..]) == Sub(old(Residue(left[..])), old(Residue(right[..])))
  {
    ghost var x, y := left[..], right[..];
    for i := 0 to 16
      invariant forall k :: i <= k < 16 ==> left[k] == x[k] && right[k] == y[k]
      invariant forall k :: 0 <= k < i ==> output[k] as int == x[k] as int - y[k] as int
    {
      assert -l <= x[i] as int <= l && -r <= y[i] as int <= r;
      output[i] := left[i] - right[i];
    }
    SumOfSums(x, y, output[..], 16, -1);
    SubResidue(Val(output[..]), Val(x), Val(y));
  }

  lemma {:induction false} SumOfSums(x: seq<int64>, y: seq<int64>, z: seq<int64>, n: nat, sign: int)
    requires n <= |x| && n <= |y| && n <= |z|
    requires forall k :: 0 <= k < n ==> z[k] as int == x[k] as int + sign * y[k] as int
    ensures Sum(z, n) == Sum(x, n) + sign * Sum(y, n)
  {
    if n > 0 {
      SumOfSums(x, y, z, n - 1, sign);
      ScaledTerm(x[n - 1] as int, y[n - 1] as int, sign, Weight(n - 1), Sum(y, n - 1));
    }
  }

  lemma ScaledTerm(x: int, y: int, s: int, w: int, sum: int)
    ensures (x + s * y) * w == x * w + s * (y * w)
    ensures s * (sum + y * w) == s * sum + s * (y * w)
  {
    assert (s * y) * w == s * (y * w);
  }

  /** The uncarried multiplication by 121665 of the ladder. */
  method ScaleLimbs(output: array<int64>, input: array<int64>, ghost bound: int)
    requires output.Length == 16 && input.Length == 16 && output != input
    requires 0 <= bound < 0x1_0000_0000 && Within(input[..], bound)
    modifies output
    ensures Within(output[..], 121665 * bound)
    ensures Residue(output[..]) == Mul(A24, Residue(input[..]))
  {
    ghost var x := input[..];
    for i := 0 to 16
      invariant forall k :: 0 <= k < i ==> output[k] as int == 121665 * x[k] as int
    {
      assert -bound <= x[i] as int <= bound;
      output[i] := input[i] * 121665;
    }
    ScaledSum(x, output[..], 16);
    MulResidue(Val(output[..]), A24, Val(x));
  }

  lemma {:induction false} ScaledSum(x: seq<int64>, z: seq<int64>, n: nat)
    requires n <= |x| && n <= |z|
    requires forall k :: 0 <= k < n ==> z[k] as int == 121665 * x[k] as int
    ensures Sum(z, n) == 121665 * Sum(x, n)
  {
    if n > 0 {
      ScaledSum(x, z, n - 1);
      assert (121665 * x[n - 1] as int) * Weight(n - 1) == 121665 * (x[n - 1] as int * Weight(n - 1));
    }
  }

  method SquareLimbs(output: array<int64>, input: array<int64>)
    requires output.Length == 16 && input.Length == 16 && Within(input[..], LeftBound as int)
    modifies output
    ensures Reduced(output[..])
    ensures Residue(output[..]) == Square(old(Residue(input[..])))
  {
    MulLimbs(output, input, input);
  }

  method CopyLimbs(output: array<int64>, input: array<int64>)
    requires output.Length == 16 && input.Length == 16
    modifies output
    ensures output[..] == old(input[..])
  {
    for i := 0 to 16
      invariant forall k :: 0 <= k < i ==> output[k] == old(input[k])
      invariant forall k :: i <= k < 16 ==> input[k] == old(input[k])
    {
      output[i] := input[i];
    }
  }

  // ---- Inversion ----

  /** The exponent reached after the rounds for bits 253 down to `bit`. */
  ghost function Exponent(bit: nat): (e: nat)
    requires bit <= 254
    ensures e > 0
    decreases 254 - bit
  {
    if bit == 254 then 1 else 2 * Exponent(bit + 1) + (if bit != 2 && bit != 4 then 1 else 0)
  }

  lemma {:induction false} ExponentAbove4(bit: nat)
    requires 5 <= bit <= 254
    ensures Exponent(bit) == Power2(255 - bit) - 1
    decreases 254 - bit
  {
    if bit == 254 {
      assert Power2(1) == 2 * Power2(0);
    } else {
      ExponentAbove4(bit + 1);
    }
  }

  lemma DoubleProduct(x: int, y: int)
    ensures x * (2 * y) == 2 * (x * y)
  {
  }

  lemma {:induction false} Power2Add(a: nat, b: nat)
    ensures Power2(a + b) == Power2(a) * Power2(b)
  {
    if b > 0 {
      Power2Add(a, b - 1);
      assert Power2(a + b) == 2 * Power2(a + b - 1) && Power2(b) == 2 * Power2(b - 1);
      DoubleProduct(Power2(a), Power2(b - 1));
    }
  }

  lemma SmallPowers()
    ensures Power2(1) == 2 && Power2(2) == 4 && Power2(3) == 8 && Power2(4) == 16 && Power2(5) == 32
    ensures Power2(6) == 64 && Power2(7) == 128 && Power2(8) == 256 && Power2(10) == 1024
  {
    assert Power2(0) == 1;
    assert Power2(1) == 2 * Power2(0);
    assert Power2(2) == 2 * Power2(1);
    assert Power2(3) == 2 * Power2(2);
    assert Power2(4) == 2 * Power2(3);
    assert Power2(5) == 2 * Power2(4);
    assert Power2(6) == 2 * Power2(5);
    assert Power2(7) == 2 * Power2(6);
    assert Power2(8) == 2 * Power2(7);
    assert Power2(9) == 2 * Power2(8);
    assert Power2(10) == 2 * Power2(9);
  }

  lemma {:induction false} Power2Weight(n: nat)
    ensures Power2(16 * n) == Weight(n)
  {
    if n > 0 {
      Power2Weight(n - 1);
      Power2Add(16 * (n - 1), 16);
      SmallPowers();
      Power2Add(8, 8);
    }
  }

  /** The square-and-multiply chain of `curve_inverse` raises to exactly p - 2 = 2^255 - 21. */
  lemma ExponentIsPrimeMinusTwo(bit: nat)
    requires bit == 0
    ensures Exponent(bit) == P - 2
  {
    ExponentAbove4(bit + 5);
    TopPower(bit + 15);
    assert Exponent(bit + 4) == 2 * Exponent(bit + 5);
    assert Exponent(bit + 3) == 2 * Exponent(bit + 4) + 1;
    assert Exponent(bit + 2) == 2 * Exponent(bit + 3);
    assert Exponent(bit + 1) == 2 * Exponent(bit + 2) + 1;
  }

  lemma TopPower(limbs: nat)
    requires limbs == 15
    ensures 32 * Power2(16 * limbs + 10) == P + 19
  {
    Power2Weight(limbs);
    WeightValues();
    Power2Add(16 * limbs, 10);
    SmallPowers();
  }

  /** One round of the chain: square, then multiply by the input unless the exponent's bit is clear. */
  method InverseRound(value: array<int64>, input: array<int64>, bit: nat, ghost x: int, ghost e: nat)
    requires value.Length == 16 && input.Length == 16 && value != input && e > 0
    requires Reduced(input[..]) && Residue(input[..]) == x
    requires Reduced(value[..]) && Residue(value[..]) == Pow(x, e)
    modifies value
    ensures Reduced(value[..])
    ensures Residue(value[..]) == Pow(x, 2 * e + (if bit != 2 && bit != 4 then 1 else 0))
  {
    ReducedWithin(value[..]);
    SquareLimbs(value, value);
    PowAdd(x, e, e);
    if bit != 2 && bit != 4 {
      ReducedWithin(value[..]);
      ReducedWithin(input[..]);
      MulLimbs(value, value, input);
      MulCommutes(x, Pow(x, 2 * e));
    }
  }

  lemma ReducedWithin(s: seq<int64>)
    requires Reduced(s)
    ensures Within(s, 65573)
  {
  }

  /** `curve_inverse`; output may be input itself. */
  method Inverse(output: array<int64>, input: array<int64>)
    requires output.Length == 16 && input.Length == 16 && Reduced(input[..])
    modifies output
    ensures Reduced(output[..])
    ensures Residue(output[..]) == Pow(old(Residue(input[..])), P - 2)
  {
    var value := new int64[16](_ => 0);
    CopyLimbs(value, input);
    ghost var x := Residue(input[..]);
    FirstPower(Val(input[..]));
    var bit := 253;
    while bit >= 0
      modifies value
      invariant -1 <= bit <= 253
      invariant input[..] == old(input[..])
      invariant Reduced(value[..]) && Residue(value[..]) == Pow(x, Exponent(bit + 1))
    {
      InverseRound(value, input, bit, x, Exponent(bit + 1));
      bit := bit - 1;
    }
    ExponentIsPrimeMinusTwo(bit + 1);
    CopyLimbs(output, value);
  }

  lemma FirstPower(v: int)
    ensures v % P == Pow(v % P, 1)
  {
    assert Pow(v % P, 0) == 1;
    ModUnique(v % P, 0, v % P, P);
  }

  // ---- The ladder ----

  ghost predicate Distinct(a: array<int64>, b: array<int64>, c: array<int64>, d: array<int64>, e: array<int64>, f: array<int64>, point: array<int64>) {
    && a.Length == b.Length == c.Length == d.Length == e.Length == f.Length == point.Length == 16
    && a != b && a != c && a != d && a != e && a != f && a != point
    && b != c && b != d && b != e && b != f && b != point
    && c != d && c != e && c != f && c != point
    && d != e && d != f && d != point && e != f && e != point && f != point
  }

  /** The field elements the arrays a, b, c, d hold during the ladder. */
  ghost function View(a: seq<int64>, b: seq<int64>, c: seq<int64>, d: seq<int64>): Ladder
    requires |a| == |b| == |c| == |d| == 16
  {
    Ladder(Residue(a), Residue(c), Residue(b), Residue(d))
  }

  /** The round up to the two cross products. */
  method FirstHalf(a: array<int64>, b: array<int64>, c: array<int64>, d: array<int64>, e: array<int64>, f: array<int64>, point: array<int64>, ghost s: Ladder)
    requires Distinct(a, b, c, d, e, f, point)
    requires Reduced(a[..]) && Reduced(b[..]) && Reduced(c[..]) && Reduced(d[..])
    requires View(a[..], b[..], c[..], d[..]) == s
    modifies a, b, c, d, e, f
    ensures Reduced(a[..]) && Reduced(c[..]) && Reduced(d[..]) && Reduced(f[..])
    ensures Residue(d[..]) == Square(Add(s.x2, s.z2))
    ensures Residue(f[..]) == Square(Sub(s.x2, s.z2))
    ensures Residue(a[..]) == Mul(Add(s.x3, s.z3), Sub(s.x2, s.z2))
    ensures Residue(c[..]) == Mul(Sub(s.x3, s.z3), Add(s.x2, s.z2))
  {
    hide Add, Sub, Mul, Square, Residue;
    ReducedWithin(a[..]);
    ReducedWithin(b[..]);
    ReducedWithin(c[..]);
    ReducedWithin(d[..]);
    AddLimbs(e, a, c, 65573, 65573);
    SubLimbs(a, a, c, 65573, 65573);
    AddLimbs(c, b, d, 65573, 65573);
    SubLimbs(b, b, d, 65573, 65573);
    SquareLimbs(d, e);
    SquareLimbs(f, a);
    MulLimbs(a, c, a);
    MulLimbs(c, b, e);
  }

  /** The rest of the round, with one product whose right factor is 121665 times an uncarried difference. */
  method SecondHalf(a: array<int64>, b: array<int64>, c: array<int64>, d: array<int64>, e: array<int64>, f: array<int64>, point: array<int64>,
                    ghost u: int, ghost cb: int, ghost da: int, ghost aa: int, ghost bb: int)
    requires Distinct(a, b, c, d, e, f, point)
    requires Reduced(a[..]) && Reduced(c[..]) && Reduced(d[..]) && Reduced(f[..]) && Reduced(point[..])
    requires Residue(a[..]) == cb && Residue(c[..]) == da && Residue(d[..]) == aa && Residue(f[..]) == bb && Residue(point[..]) == u
    modifies a, b, c, d, e, f
    ensures Reduced(a[..]) && Reduced(b[..]) && Reduced(c[..]) && Reduced(d[..])
    ensures Residue(a[..]) == Mul(aa, bb)
    ensures Residue(c[..]) == Mul(Sub(aa, bb), Add(Mul(A24, Sub(aa, bb)), aa))
    ensures Residue(b[..]) == Square(Add(cb, da))
    ensures Residue(d[..]) == Mul(Square(Sub(cb, da)), u)
  {
    hide Add, Sub, Mul, Square, Residue;
    ReducedWithin(a[..]);
    ReducedWithin(c[..]);
    ReducedWithin(d[..]);
    ReducedWithin(f[..]);
    ReducedWithin(point[..]);
    AddLimbs(e, a, c, 65573, 65573);
    SubLimbs(a, a, c, 65573, 65573);
    SquareLimbs(b, a);
    ReducedWithin(b[..]);
    SubLimbs(c, d, f, 65573, 65573);
    ScaleLimbs(a, c, 131146);
    AddLimbs(a, a, d, 121665 * 131146, 65573);
    MulLimbs(c, c, a);
    MulLimbs(a, d, f);
    MulLimbs(d, b, point);
    SquareLimbs(b, e);
  }

  lemma RoundAgrees(u: int, s: Ladder, x2: int, z2: int, x3: int, z3: int)
    requires var a, b, c, d := Add(s.x2, s.z2), Sub(s.x2, s.z2), Add(s.x3, s.z3), Sub(s.x3, s.z3);
      var aa, bb, cb, da := Square(a), Square(b), Mul(c, b), Mul(d, a);
      && x2 == Mul(aa, bb) && z2 == Mul(Sub(aa, bb), Add(Mul(A24, Sub(aa, bb)), aa))
      && x3 == Square(Add(cb, da)) && z3 == Mul(Square(Sub(cb, da)), u)
    ensures Ladder(x2, z2, x3, z3) == Round(u, s)
  {
    var a, b, c, d := Add(s.x2, s.z2), Sub(s.x2, s.z2), Add(s.x3, s.z3), Sub(s.x3, s.z3);
    var aa, bb, cb, da := Square(a), Square(b), Mul(c, b), Mul(d, a);
    MulCommutes(Mul(A24, Sub(aa, bb)), aa);
    MulCommutes(cb, da);
    SquareOfDifference(cb, da);
    MulCommutes(u, Square(Sub(da, cb)));
    hide Add, Sub, Mul, Square;
  }

  /** One iteration of the ladder: swap, round, swap back. */
  method LadderRound(a: array<int64>, b: array<int64>, c: array<int64>, d: array<int64>, e: array<int64>, f: array<int64>, point: array<int64>, selected: bool)
    requires Distinct(a, b, c, d, e, f, point)
    requires Reduced(a[..]) && Reduced(b[..]) && Reduced(c[..]) && Reduced(d[..]) && Reduced(point[..])
    modifies a, b, c, d, e, f
    ensures Reduced(a[..]) && Reduced(b[..]) && Reduced(c[..]) && Reduced(d[..])
    ensures View(a[..], b[..], c[..], d[..])
      == Swap(selected, Round(Residue(point[..]), Swap(selected, old(View(a[..], b[..], c[..], d[..])))))
  {
    hide Add, Sub, Mul, Square, Residue, Round;
    ghost var u := Residue(point[..]);
    Select(a, b, if selected then 1 else 0);
    Select(c, d, if selected then 1 else 0);
    ghost var s := View(a[..], b[..], c[..], d[..]);
    FirstHalf(a, b, c, d, e, f, point, s);
    SecondHalf(a, b, c, d, e, f, point, u, Residue(a[..]), Residue(c[..]), Residue(d[..]), Residue(f[..]));
    RoundAgrees(u, s, Residue(a[..]), Residue(c[..]), Residue(b[..]), Residue(d[..]));
    Select(a, b, if selected then 1 else 0);
    Select(c, d, if selected then 1 else 0);
  }

  // ---- Scalars ----

  /** decodeScalar25519 of section 5 of RFC 7748: the three low bits and the top bit cleared, bit 254 set. */
  ghost function DecodeScalar(b: seq<byte>): int
    requires |b| == 32
  {
    LittleEndian(Clamp(b), 32)
  }

  ghost function Clamp(b: seq<byte>): (r: seq<byte>)
    requires |b| == 32
    ensures |r| == 32
  {
    b[0 := b[0] - b[0] % 8][31 := b[31] % 64 + 64]
  }

  /** The masks 248, 127 and 64 of the source do to a byte what `Clamp` states arithmetically. */
  lemma ClampMasks(x: bv8)
    ensures x & 248 == x - x % 8
    ensures (x & 127) | 64 == x % 64 + 64
  {
  }

  /** Bytes above position i, as a number. */
  lemma {:induction false} SplitBytes(b: seq<byte>, i: nat, n: nat) returns (hi: int)
    requires i < n <= |b|
    ensures LittleEndian(b, n) == LittleEndian(b, i) + ByteWeight(i) * (b[i] as int + 256 * hi)
  {
    if n == i + 1 {
      hi := 0;
      assert b[i] as int * ByteWeight(i) == ByteWeight(i) * b[i] as int;
    } else {
      var h := SplitBytes(b, i, n - 1);
      var k := ByteQuotient(i, n - 1);
      hi := h + b[n - 1] as int * k;
      ShiftedTerm(ByteWeight(i), b[i] as int, h, b[n - 1] as int, k);
    }
  }

  lemma ShiftedTerm(w: int, x: int, h: int, y: int, k: int)
    ensures w * (x + 256 * h) + y * (w * (256 * k)) == w * (x + 256 * (h + y * k))
  {
    assert y * (w * (256 * k)) == w * (256 * (y * k)) by {
      assert y * (w * (256 * k)) == (y * w) * (256 * k) == (w * y) * (256 * k) == w * (y * (256 * k));
      assert y * (256 * k) == 256 * (y * k);
    }
    Distribute(w, x + 256 * h, 256 * (y * k));
  }

  /** A later byte weight is a multiple of 256 times an earlier one. */
  lemma {:induction false} ByteQuotient(i: nat, n: nat) returns (k: int)
    requires i < n
    ensures ByteWeight(n) == ByteWeight(i) * (256 * k)
  {
    if n == i + 1 {
      k := 1;
    } else {
      var l := ByteQuotient(i, n - 1);
      k := 256 * l;
      assert 256 * (ByteWeight(i) * (256 * l)) == ByteWeight(i) * (256 * (256 * l));
    }
  }

  lemma {:induction false} Power2Bytes(i: nat)
    ensures Power2(8 * i) == ByteWeight(i)
  {
    if i > 0 {
      Power2Bytes(i - 1);
      Power2Add(8 * (i - 1), 8);
      SmallPowers();
    }
  }

  /** Bit 8i + r of a number lies at bit r of its byte i. */
  lemma ByteHoldsBit(b: seq<byte>, i: nat, r: nat)
    requires i < |b| && r < 8
    ensures Bit(LittleEndian(b, |b|), 8 * i + r) <==> (b[i] as int / Power2(r)) % 2 == 1
  {
    var hi := SplitBytes(b, i, |b|);
    var n, w, lo, x, q := LittleEndian(b, |b|), ByteWeight(i), LittleEndian(b, i), b[i] as int, Power2(r);
    BytesBelow(b, i);
    Power2Bytes(i);
    Power2Add(8 * i, r);
    SmallPowers();
    var m := Power2(7 - r);
    Power2Add(r, 7 - r);
    EvenMultiple(q, m, hi);
    QuotientOfParts(n, w, lo, x, q, m * hi);
    assert Power2(8 * i + r) == w * q;
    SameParity(x / q, m * hi);
  }

  /** Bit r of a byte whose three low bits are cleared. */
  lemma ClampedLow(x: int, r: nat)
    requires 0 <= x < 256 && r < 8
    ensures ((x - x % 8) / Power2(r)) % 2 == 1 <==> 3 <= r && (x / Power2(r)) % 2 == 1
  {
    SmallPowers();
    var h := x / 8;
    if r < 3 {
      var m := if r == 0 then 4 else if r == 1 then 2 else 1;
      EvenQuotient(0, Power2(r), m * h);
      assert x - x % 8 == Power2(r) * (2 * (m * h));
    } else {
      Power2Add(3, r - 3);
      EightFirst(x, Power2(r - 3));
      EightFirst(x - x % 8, Power2(r - 3));
      assert (x - x % 8) / 8 == h;
    }
  }

  lemma EightFirst(x: int, q: int)
    requires q > 0
    ensures x / (8 * q) == x / 8 / q
  {
    var h := x / 8;
    assert x == 8 * h + x % 8 && h == (h / q) * q + h % q;
    assert 8 * ((h / q) * q) == (h / q) * (8 * q);
    ModUnique(x, h / q, 8 * (h % q) + x % 8, 8 * q);
  }

  /** Adding an even multiple of a divisor leaves the quotient's parity. */
  lemma EvenQuotient(x: int, q: int, k: int)
    requires q > 0
    ensures ((x + q * (2 * k)) / q) % 2 == (x / q) % 2
  {
    assert x == (x / q) * q + x % q;
    assert (x / q + 2 * k) * q == (x / q) * q + q * (2 * k);
    ModUnique(x + q * (2 * k), x / q + 2 * k, x % q, q);
    SameParity(x / q, k);
  }

  /** Bit r of a byte whose two high bits are 01. */
  lemma ClampedHigh(x: int, r: nat)
    requires 0 <= x < 256 && r < 8
    ensures ((x % 64 + 64) / Power2(r)) % 2 == 1 <==> r == 6 || (r < 6 && (x / Power2(r)) % 2 == 1)
  {
    SmallPowers();
    if r < 6 {
      Power2Add(r, 6 - r);
      assert Power2(6 - r) == 2 * Power2(5 - r);
      LowOfByte(x, Power2(r), Power2(5 - r));
    } else {
      TopOfByte(x % 64 + 64);
    }
  }

  lemma LowOfByte(x: int, q: int, m: int)
    requires q > 0 && q * (2 * m) == 64
    ensures ((x % 64 + 64) / q) % 2 == (x / q) % 2
  {
    var low, high := x % 64, x / 64;
    EvenQuotient(low, q, m);
    EvenQuotient(low, q, m * high);
    assert q * (2 * (m * high)) == (q * (2 * m)) * high;
  }

  lemma TopOfByte(y: int)
    requires 64 <= y < 128
    ensures y / 64 == 1 && y / 128 == 0
  {
  }

  /** The same for the whole string: the place of a bit among the 256. */
  lemma ClampedBit(b: seq<byte>, i: nat, r: nat)
    requires |b| == 32 && i < 32 && r < 8
    ensures var t := 8 * i + r;
      (Clamp(b)[i] as int / Power2(r)) % 2 == 1 <==> t == 254 || (3 <= t < 254 && (b[i] as int / Power2(r)) % 2 == 1)
  {
    hide Power2;
    ClampedLow(b[0] as int, r);
    ClampedHigh(b[31] as int, r);
  }

  /** The bits of a decoded scalar: 254 is set, those from 3 to 253 are the bytes' own, no other is set. */
  lemma DecodedBits(b: seq<byte>, t: nat)
    requires |b| == 32 && t < 256
    ensures Bit(DecodeScalar(b), t) <==> t == 254 || (3 <= t < 254 && Bit(LittleEndian(b, 32), t))
  {
    hide LittleEndian, Bit, Clamp, Power2;
    ByteHoldsBit(Clamp(b), t / 8, t % 8);
    ByteHoldsBit(b, t / 8, t % 8);
    ClampedBit(b, t / 8, t % 8);
  }

  /** A decoded scalar is a multiple of the cofactor 8 with 255 bits. */
  lemma DecodedRange(b: seq<byte>)
    requires |b| == 32
    ensures Power2(254) <= DecodeScalar(b) < Power2(255) && DecodeScalar(b) % 8 == 0
  {
    hide LittleEndian, ByteWeight;
    var c := Clamp(b);
    var hi := SplitBytes(c, 0, 32);
    LowByte(c, hi);
    BytesBelow(c, 31);
    LastByte(c);
    Power2Bytes(31);
    Power2Add(248, 6);
    Power2Add(248, 7);
    SmallPowers();
    TopByteRange(LittleEndian(c, 31), c[31] as int, ByteWeight(31));
  }

  lemma LowByte(c: seq<byte>, hi: int)
    requires |c| == 32 && c[0] % 8 == 0 && LittleEndian(c, 32) == LittleEndian(c, 0) + ByteWeight(0) * (c[0] as int + 256 * hi)
    ensures LittleEndian(c, 32) % 8 == 0
  {
    hide LittleEndian, ByteWeight;
    NoBytes(c);
    EightDivides(c[0] as int, hi);
  }

  lemma NoBytes(c: seq<byte>)
    ensures LittleEndian(c, 0) == 0 && ByteWeight(0) == 1
  {
  }

  lemma EightDivides(x: int, hi: int)
    requires x % 8 == 0
    ensures (x + 256 * hi) % 8 == 0
  {
    ModUnique(x + 256 * hi, x / 8 + 32 * hi, 0, 8);
  }

  lemma LastByte(c: seq<byte>)
    requires |c| == 32
    ensures LittleEndian(c, 32) == LittleEndian(c, 31) + c[31] as int * ByteWeight(31)
  {
  }

  lemma TopByteRange(low: int, top: int, w: int)
    requires 0 <= low < w && 64 <= top < 128
    ensures 64 * w <= low + top * w < 128 * w
  {
    assert (top - 64) * w >= 0 && (127 - top) * w >= 0;
  }

  /** The bits of a decoded coordinate are the bytes' own below bit 255, which is ignored. */
  lemma CoordinateBits(b: seq<byte>, t: nat)
    requires |b| == 32 && t < 256
    ensures Bit(DecodeU(b), t) <==> t < 255 && Bit(LittleEndian(b, 32), t)
  {
    hide LittleEndian;
    PrimeIs();
    if t == 255 {
      ModUnique(DecodeU(b), 0, DecodeU(b), Power2(255));
    } else {
      Power2Add(t, 255 - t);
      LowBits(LittleEndian(b, 32), Power2(t), Power2(254 - t));
    }
  }

  /** The prime of the field. */
  lemma PrimeIs()
    ensures P == Power2(255) - 19
  {
    Power2Bytes(31);
    Power2Add(248, 7);
    SmallPowers();
    LargestByteWeight();
  }

  lemma LargestByteWeight()
    ensures 128 * ByteWeight(31) == P + 19
  {
    ByteWeightPairs(15);
    WeightValues();
    assert ByteWeight(31) == 256 * ByteWeight(30);
  }

  /** Bits below a power of two do not change when a number is reduced by it. */
  lemma LowBits(n: int, p: int, m: int)
    requires p > 0 && m > 0
    ensures p * (2 * m) > 0 && (n % (p * (2 * m)) / p) % 2 == (n / p) % 2
  {
    assert p * (2 * m) > 0;
    var q, r := n / (p * (2 * m)), n % (p * (2 * m));
    assert n == q * (p * (2 * m)) + r;
    assert q * (p * (2 * m)) == (2 * (q * m)) * p;
    assert r == (r / p) * p + r % p;
    assert (2 * (q * m) + r / p) * p == (2 * (q * m)) * p + (r / p) * p;
    ModUnique(n, 2 * (q * m) + r / p, r % p, p);
    SameParity(r / p, q * m);
  }

  lemma SameParity(y: int, k: int)
    ensures (y + 2 * k) % 2 == y % 2
  {
  }

  lemma EvenMultiple(q: int, m: int, hi: int)
    requires q * m == 128
    ensures 256 * hi == q * (2 * (m * hi))
  {
    assert q * (2 * (m * hi)) == 2 * ((q * m) * hi);
  }

  lemma RemainderRange(w: int, r: int, lo: int, q: int)
    requires w > 0 && 0 <= r < q && 0 <= lo < w
    ensures 0 <= w * r + lo < w * q
  {
    assert w * (q - 1 - r) >= 0;
    assert w * (q - 1 - r) == w * q - w - w * r;
    assert w * r >= 0;
  }

  lemma QuotientOfParts(n: int, w: int, lo: int, x: int, q: int, k: int)
    requires w > 0 && q > 0 && 0 <= lo < w
    requires n == lo + w * (x + q * (2 * k))
    ensures n / (w * q) == x / q + 2 * k
  {
    var r := x % q;
    assert x == q * (x / q) + r;
    var y := x / q + 2 * k;
    Distribute(q, x / q, 2 * k);
    Distribute(w, q * y, r);
    assert w * (q * y) == y * (w * q);
    RemainderRange(w, r, lo, q);
    ModUnique(n, y, w * r + lo, w * q);
  }

  function PowerOf2(r: nat): (p: int)
    requires r < 8
    ensures p == Power2(r) > 0
  {
    SmallPowers();
    if r == 0 then 1 else if r == 1 then 2 else if r == 2 then 4 else if r == 3 then 8
    else if r == 4 then 16 else if r == 5 then 32 else if r == 6 then 64 else 128
  }

  /** The RFC's function of the bytes both arguments arrive in. */
  ghost function SharedValue(scalar: seq<byte>, point: seq<byte>): int
    requires |scalar| == |point| == 32
  {
    X25519(DecodeScalar(scalar), DecodeU(point) % P)
  }

  /** For every private key and coordinate, the result is the quotient that the rounds along the scalar's digits end with. */
  lemma ValueByDigits(b: seq<byte>, u: int)
    requires |b| == 32
    ensures DecodeScalar(b) > 0
    ensures var end := Montgomery.BinaryLadder(DecodeScalar(b), u);
      X25519(DecodeScalar(b), u) == Mul(end.x2, Pow(end.z2, P - 2))
  {
    hide Round, Mul, Pow, DecodeScalar, Power2;
    DecodedRange(b);
    EagerIsLagged(DecodeScalar(b), u, 0);
    Montgomery.EagerIsBinary(DecodeScalar(b), u);
  }

  method ClampScalar(scalarInput: array<byte>) returns (scalar: array<byte>)
    requires scalarInput.Length == 32
    ensures fresh(scalar) && scalar[..] == Clamp(scalarInput[..])
  {
    scalar := new byte[32](_ => 0);
    for i := 0 to 32
      modifies scalar
      invariant forall k :: 0 <= k < i ==> scalar[k] == scalarInput[k]
    {
      scalar[i] := scalarInput[i];
    }
    scalar[0] := scalar[0] - scalar[0] % 8;
    scalar[31] := scalar[31] % 64 + 64;
  }

  /** What the ladder looks at is the bit of the scalar as a number. */
  method ScalarBit(scalar: array<byte>, bit: nat, ghost k: int) returns (selected: bool)
    requires scalar.Length == 32 && bit < 256 && k == LittleEndian(scalar[..], scalar.Length)
    ensures selected <==> Bit(k, bit)
  {
    selected := scalar[bit / 8] as int / PowerOf2(bit % 8) % 2 == 1;
    ByteHoldsBit(scalar[..], bit / 8, bit % 8);
  }

  /** `curve_scalar_mult`: writes the bytes of the RFC's X25519 of the decoded scalar and coordinate. */
  method ScalarMult(output: array<byte>, scalarInput: array<byte>, pointInput: array<byte>)
    requires output.Length == 32 && scalarInput.Length == 32 && pointInput.Length == 32
    modifies output
    ensures LittleEndian(output[..], 32) == old(SharedValue(scalarInput[..], pointInput[..]))
  {
    var scalar := ClampScalar(scalarInput);
    ghost var k := DecodeScalar(scalarInput[..]);
    var point := new int64[16](_ => 0);
    Unpack(point, pointInput);
    var a, c := Ladder25519(scalar, point, k);
    FinalProduct(a, c);
    ReducedWithin(a[..]);
    Pack(output, a);
    EagerIsLagged(k, Residue(point[..]), 0);
  }

  /** The affine coordinate: x_2 times the inverse of z_2. */
  method FinalProduct(a: array<int64>, c: array<int64>)
    requires a.Length == c.Length == 16 && a != c && Reduced(a[..]) && Reduced(c[..])
    modifies a, c
    ensures Reduced(a[..])
    ensures Residue(a[..]) == Mul(old(Residue(a[..])), Pow(old(Residue(c[..])), P - 2))
  {
    hide Residue, Mul, Pow;
    Inverse(c, c);
    ReducedWithin(a[..]);
    ReducedWithin(c[..]);
    MulLimbs(a, a, c);
  }

  /** The 255 rounds from bit 254 down to bit 0; returns the arrays holding x_2 and z_2. */
  method Ladder25519(scalar: array<byte>, point: array<int64>, ghost k: int) returns (a: array<int64>, c: array<int64>)
    requires scalar.Length == 32 && point.Length == 16 && Digits(point[..], 16)
    requires k == LittleEndian(scalar[..], 32)
    ensures fresh(a) && fresh(c) && a != c && a.Length == c.Length == 16
    ensures Reduced(a[..]) && Reduced(c[..])
    ensures var end := EagerLoop(k, Residue(point[..]), 0); Residue(a[..]) == end.x2 && Residue(c[..]) == end.z2
  {
    a := new int64[16](i => if i == 0 then 1 else 0);
    var b := new int64[16](_ => 0);
    c := new int64[16](_ => 0);
    var d := new int64[16](i => if i == 0 then 1 else 0);
    var e := new int64[16](_ => 0);
    var f := new int64[16](_ => 0);
    CopyLimbs(b, point);
    ghost var u := Residue(point[..]);
    OneAndZero(a[..], c[..]);
    OneAndZero(d[..], c[..]);
    var bit := 254;
    while bit >= 0
      modifies a, b, c, d, e, f
      invariant -1 <= bit <= 254
      invariant Reduced(a[..]) && Reduced(b[..]) && Reduced(c[..]) && Reduced(d[..])
      invariant View(a[..], b[..], c[..], d[..]) == EagerLoop(k, u, bit + 1)
    {
      var selected := ScalarBit(scalar, bit, k);
      LadderRound(a, b, c, d, e, f, point, selected);
      bit := bit - 1;
    }
  }

  lemma OneAndZero(one: seq<int64>, zero: seq<int64>)
    requires |one| == |zero| == 16 && one[0] == 1 && zero[0] == 0
    requires forall i :: 1 <= i < 16 ==> one[i] == 0 && zero[i] == 0
    ensures Residue(one) == 1 && Residue(zero) == 0
  {
    ZeroSum(zero, 16);
    assert one == zero[0 := 1];
    SumUpdate(zero, 0, 1, 16);
  }

  /** `x25519_public_key`: the scalar times the point with u-coordinate 9. */
  method PublicKey(privateKey: array<byte>, publicKey: array<byte>)
    requires privateKey.Length == 32 && publicKey.Length == 32
    modifies publicKey
    ensures LittleEndian(publicKey[..], 32) == X25519(DecodeScalar(old(privateKey[..])), 9)
  {
    var basePoint := new byte[32](i => if i == 0 then 9 else 0);
    NineAndZeros(basePoint[..], 32);
    assert DecodeU(basePoint[..]) % P == 9;
    ScalarMult(publicKey, privateKey, basePoint);
  }

  lemma {:induction false} NineAndZeros(b: seq<byte>, n: nat)
    requires 0 < n <= |b| && b[0] == 9 && forall i :: 0 < i < |b| ==> b[i] == 0
    ensures LittleEndian(b, n) == 9
    decreases n, b
  {
    if n > 1 {
      NineAndZeros(b, n - 1);
      assert b[n - 1] as int * ByteWeight(n - 1) == 0;
    } else {
      assert LittleEndian(b, 0) == 0 && ByteWeight(0) == 1;
    }
  }

  /** `x25519_shared_secret`: succeeds unless the shared secret is all zero. */
  method SharedSecret(privateKey: array<byte>, peerKey: array<byte>, sharedSecret: array<byte>) returns (ok: bool)
    requires privateKey.Length == 32 && peerKey.Length == 32 && sharedSecret.Length == 32
    modifies sharedSecret
    ensures LittleEndian(sharedSecret[..], 32) == old(SharedValue(privateKey[..], peerKey[..]))
    ensures ok <==> LittleEndian(sharedSecret[..], 32) != 0
  {
    ScalarMult(sharedSecret, privateKey, peerKey);
    ok := NonZero(sharedSecret);
  }

  /** The accumulated or of all bytes. */
  method NonZero(sharedSecret: array<byte>) returns (ok: bool)
    requires sharedSecret.Length == 32
    ensures ok <==> LittleEndian(sharedSecret[..], 32) != 0
  {
    ok := false;
    for i := 0 to 32
      invariant ok <==> LittleEndian(sharedSecret[..], i) != 0
    {
      NonZeroByte(sharedSecret[..], i);
      ok := ok || sharedSecret[i] != 0;
    }
  }

  lemma NonZeroByte(b: seq<byte>, i: nat)
    requires i < |b|
    ensures LittleEndian(b, i + 1) != 0 <==> LittleEndian(b, i) != 0 || b[i] != 0
  {
    BytesBelow(b, i);
    TermBound(1, b[i] as int, ByteWeight(i));
  }
}
