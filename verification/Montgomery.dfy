/**
 What the ladder of `Rfc7748` computes: each round doubles one point and adds two whose difference is known, on the curve
 y^2 = x^3 + 486662 x^2 + x, and the rounds follow the binary digits of the scalar.
 */
module Montgomery {
  import opened ModArith
  import opened Field
  import opened Rfc7748

  /** The coefficient of x^2 in the equation of the curve. */
  const A: int := 486662

  /** Numerator and denominator of the x-coordinate of twice the point x / z. */
  ghost function DoubleX(x: int, z: int): int { (x * x - z * z) * (x * x - z * z) }

  ghost function DoubleZ(x: int, z: int): int { 4 * (x * z) * (x * x + A * (x * z) + z * z) }

  /** The same for the sum of the points x / z and v / w whose difference is u / 1, up to a common factor of four. */
  ghost function SumX(x: int, z: int, v: int, w: int): int { 4 * ((x * v - z * w) * (x * v - z * w)) }

  ghost function SumZ(u: int, x: int, z: int, v: int, w: int): int { 4 * (u * ((x * w - z * v) * (x * w - z * v))) }

  lemma CongAddOf(x: int, y: int, x': int, y': int)
    requires Cong(x, x', P) && Cong(y, y', P)
    ensures Cong(Add(x, y), x' + y', P) && Cong(Sub(x, y), x' - y', P) && Cong(Mul(x, y), x' * y', P)
  {
    hide Cong;
    CongAdd(x, x', y, y', P);
    CongSub(x, x', y, y', P);
    CongMul(x, x', y, y', P);
    CongMod(x + y, P);
    CongMod(x - y, P);
    CongMod(x * y, P);
    CongTrans(Add(x, y), x + y, x' + y', P);
    CongTrans(Sub(x, y), x - y, x' - y', P);
    CongTrans(Mul(x, y), x * y, x' * y', P);
  }

  lemma Self(x: int)
    ensures Cong(x, x, P)
  {
  }

  /** The first two coordinates after a round are those of the doubled point. */
  lemma RoundDoubles(u: int, s: Ladder)
    ensures Cong(Round(u, s).x2, DoubleX(s.x2, s.z2), P) && Cong(Round(u, s).z2, DoubleZ(s.x2, s.z2), P)
  {
    hide Cong, Add, Sub, Mul;
    var x, z := s.x2, s.z2;
    var a, b := Add(x, z), Sub(x, z);
    var aa, bb := Square(a), Square(b);
    var e := Sub(aa, bb);
    Self(x);
    Self(z);
    CongAddOf(x, z, x, z);
    CongAddOf(a, a, x + z, x + z);
    CongAddOf(b, b, x - z, x - z);
    CongAddOf(aa, bb, (x + z) * (x + z), (x - z) * (x - z));
    Self(A24);
    CongAddOf(A24, e, A24, (x + z) * (x + z) - (x - z) * (x - z));
    CongAddOf(aa, Mul(A24, e), (x + z) * (x + z), A24 * ((x + z) * (x + z) - (x - z) * (x - z)));
    CongAddOf(e, Add(aa, Mul(A24, e)), (x + z) * (x + z) - (x - z) * (x - z),
              (x + z) * (x + z) + A24 * ((x + z) * (x + z) - (x - z) * (x - z)));
    DoubleTerms(x, z);
  }

  lemma DoubleTerms(x: int, z: int)
    ensures ((x + z) * (x + z)) * ((x - z) * (x - z)) == DoubleX(x, z)
    ensures var e := (x + z) * (x + z) - (x - z) * (x - z); e * ((x + z) * (x + z) + A24 * e) == DoubleZ(x, z)
  {
    var p, q, r := x * x, x * z, z * z;
    assert (x + z) * (x + z) == p + 2 * q + r && (x - z) * (x - z) == p - 2 * q + r && z * x == q;
    assert (x + z) * (x - z) == p - r;
    FourFactors(x + z, x - z);
    assert (x + z) * (x + z) - (x - z) * (x - z) == 4 * q;
    assert (x + z) * (x + z) + A24 * (4 * q) == p + A * q + r;
  }

  lemma FourFactors(a: int, b: int)
    ensures (a * a) * (b * b) == (a * b) * (a * b)
  {
    assert (a * a) * (b * b) == a * (a * (b * b)) == a * ((a * b) * b) == a * (b * (a * b));
    assert a * (b * (a * b)) == (a * b) * (a * b);
  }

  /** The last two are those of the sum. */
  lemma RoundAdds(u: int, s: Ladder)
    ensures Cong(Round(u, s).x3, SumX(s.x2, s.z2, s.x3, s.z3), P) && Cong(Round(u, s).z3, SumZ(u, s.x2, s.z2, s.x3, s.z3), P)
  {
    hide Cong, Add, Sub, Mul;
    var x, z, v, w := s.x2, s.z2, s.x3, s.z3;
    var a, b, c, d := Add(x, z), Sub(x, z), Add(v, w), Sub(v, w);
    var da, cb := Mul(d, a), Mul(c, b);
    Self(x);
    Self(z);
    Self(v);
    Self(w);
    Self(u);
    CongAddOf(x, z, x, z);
    CongAddOf(v, w, v, w);
    CongAddOf(d, a, v - w, x + z);
    CongAddOf(c, b, v + w, x - z);
    var f, g := (v - w) * (x + z), (v + w) * (x - z);
    CongAddOf(da, cb, f, g);
    CongAddOf(Add(da, cb), Add(da, cb), f + g, f + g);
    CongAddOf(Sub(da, cb), Sub(da, cb), f - g, f - g);
    CongAddOf(u, Square(Sub(da, cb)), u, (f - g) * (f - g));
    SumTerms(x, z, v, w);
    var m, n := x * v - z * w, x * w - z * v;
    assert f + g == 2 * m && f - g == -(2 * n);
    TwiceSquared(m);
    TwiceSquared(n);
    assert (f - g) * (f - g) == 4 * (n * n);
    FourInside(u, n * n);
  }

  lemma SumTerms(x: int, z: int, v: int, w: int)
    ensures (v - w) * (x + z) + (v + w) * (x - z) == 2 * (x * v - z * w)
    ensures (v - w) * (x + z) - (v + w) * (x - z) == -(2 * (x * w - z * v))
  {
    assert (v - w) * (x + z) == x * v + z * v - x * w - z * w;
    assert (v + w) * (x - z) == x * v - z * v + x * w - z * w;
  }

  lemma TwiceSquared(m: int)
    ensures (2 * m) * (2 * m) == 4 * (m * m) == (-(2 * m)) * (-(2 * m))
  {
  }

  lemma FourInside(u: int, n: int)
    ensures u * (4 * n) == 4 * (u * n)
  {
  }

  // ---- The binary digits of the scalar ----

  /** The ladder by the digits of the scalar, from the highest on, with no count of rounds. */
  ghost function BinaryLadder(k: nat, u: int): Ladder {
    if k == 0 then Start(u) else Swap(k % 2 == 1, Round(u, Swap(k % 2 == 1, BinaryLadder(k / 2, u))))
  }

  lemma QuotientByPower(k: nat, t: nat)
    ensures k / Power2(t) >= 0 && k / Power2(t) / 2 == k / Power2(t + 1)
  {
    QuotientNatural(k, Power2(t));
    HalfQuotient(k, Power2(t));
  }

  lemma HalfQuotient(k: int, p: int)
    requires p > 0
    ensures k / p / 2 == k / (2 * p)
  {
    var q := k / p;
    var h, b := q / 2, q % 2;
    assert k == q * p + k % p;
    assert q * p == h * (2 * p) + b * p;
    assert b == 0 || b == 1;
    ModUnique(k, h, b * p + k % p, 2 * p);
  }

  lemma {:induction false} PowerGrows(a: nat, b: nat)
    requires a <= b
    ensures Power2(a) <= Power2(b)
  {
    if a < b {
      PowerGrows(a, b - 1);
    }
  }

  lemma {:induction false} EagerIsBinaryAt(k: nat, u: int, t: nat)
    requires t <= 255 && Power2(254) <= k < Power2(255)
    ensures k / Power2(t) >= 0 && EagerLoop(k, u, t) == BinaryLadder(k / Power2(t), u)
    decreases 255 - t
  {
    hide Round;
    QuotientByPower(k, t);
    if t == 255 {
      ModUnique(k, 0, k, Power2(255));
    } else {
      EagerIsBinaryAt(k, u, t + 1);
      PowerGrows(t, 254);
      Reaches(k, Power2(t));
    }
  }

  lemma Reaches(k: nat, p: nat)
    requires 0 < p <= k
    ensures k / p > 0
  {
    assert k == (k / p) * p + k % p;
    QuotientNatural(k, p);
  }

  /** For a scalar whose highest bit is bit 254, as every decoded one, the rounds follow its digits, none more or less. */
  lemma EagerIsBinary(k: nat, u: int)
    requires Power2(254) <= k < Power2(255)
    ensures EagerLoop(k, u, 0) == BinaryLadder(k, u)
  {
    EagerIsBinaryAt(k, u, 0);
    assert Power2(0) == 1 && k / 1 == k;
  }
}
