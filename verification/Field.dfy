/** Arithmetic on residues modulo the prime of Curve25519. */
module Field {
  import opened ModArith

  /** 2^255 - 19. */
  const P: int := 0x7fff_ffff_ffff_ffff_ffff_ffff_ffff_ffff_ffff_ffff_ffff_ffff_ffff_ffff_ffff_ffed

  ghost function Add(x: int, y: int): int { (x + y) % P }

  ghost function Sub(x: int, y: int): int { (x - y) % P }

  ghost function Mul(x: int, y: int): int { (x * y) % P }

  ghost function Square(x: int): int { Mul(x, x) }

  ghost function Pow(x: int, e: nat): int {
    if e == 0 then 1 else Mul(x, Pow(x, e - 1))
  }

  /** A result congruent to the integer sum, difference or product has the field's sum, difference or product as residue. */
  lemma AddResidue(r: int, x: int, y: int)
    requires Cong(r, x + y, P)
    ensures r % P == Add(x % P, y % P)
  {
    CongMod(x, P);
    CongMod(y, P);
    CongAdd(x % P, x, y % P, y, P);
  }

  lemma SubResidue(r: int, x: int, y: int)
    requires Cong(r, x - y, P)
    ensures r % P == Sub(x % P, y % P)
  {
    CongMod(x, P);
    CongMod(y, P);
    CongSub(x % P, x, y % P, y, P);
  }

  lemma MulResidue(r: int, x: int, y: int)
    requires Cong(r, x * y, P)
    ensures r % P == Mul(x % P, y % P)
  {
    CongMod(x, P);
    CongMod(y, P);
    CongMul(x % P, x, y % P, y, P);
  }

  lemma MulCommutes(x: int, y: int)
    ensures Mul(x, y) == Mul(y, x) && Add(x, y) == Add(y, x)
  {
    assert x * y == y * x;
  }

  lemma MulAssociates(x: int, y: int, z: int)
    ensures Mul(Mul(x, y), z) == Mul(x, Mul(y, z))
  {
    CongMod(x * y, P);
    CongMod(y * z, P);
    CongMul(Mul(x, y), x * y, z, z, P);
    CongMul(x, x, Mul(y, z), y * z, P);
    assert (x * y) * z == x * (y * z);
  }

  /** The square of a difference does not depend on its direction. */
  lemma SquareOfDifference(x: int, y: int)
    ensures Square(Sub(x, y)) == Square(Sub(y, x))
  {
    CongMod(x - y, P);
    CongMod(y - x, P);
    CongMul(Sub(x, y), x - y, Sub(x, y), x - y, P);
    CongMul(Sub(y, x), y - x, Sub(y, x), y - x, P);
    assert (x - y) * (x - y) == (y - x) * (y - x);
  }

  lemma {:induction false} PowAdd(x: int, a: nat, b: nat)
    requires a > 0
    ensures Mul(Pow(x, a), Pow(x, b)) == Pow(x, a + b)
  {
    if b == 0 {
      ResidueTimesOne(Pow(x, a - 1), x);
    } else {
      PowAdd(x, a, b - 1);
      MulCommutes(x, Pow(x, b - 1));
      MulAssociates(Pow(x, a), Pow(x, b - 1), x);
      MulCommutes(x, Pow(x, a + b - 1));
    }
  }

  lemma ResidueTimesOne(y: int, x: int)
    ensures Mul(Mul(x, y), 1) == Mul(x, y)
  {
    ModUnique(Mul(x, y), 0, Mul(x, y), P);
  }
}
