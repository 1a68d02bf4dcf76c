/** The smaller of two numbers, and congruence modulo an arbitrary positive modulus. */
module ModArith {

  function Min(a: nat, b: nat): (m: nat)
    ensures m <= a && m <= b && (m == a || m == b)
  {
    if a < b then a else b
  }

  ghost predicate Cong(a: int, b: int, m: int)
    requires m > 0
  {
    a % m == b % m
  }

  lemma CongTrans(a: int, b: int, c: int, m: int)
    requires m > 0 && Cong(a, b, m) && Cong(b, c, m)
    ensures Cong(a, c, m)
  {
  }

  /** The quotient and remainder of a division are unique. */
  lemma ModUnique(x: int, q: int, r: int, m: int)
    requires m > 0 && 0 <= r < m && x == q * m + r
    ensures x / m == q && x % m == r
  {
    var d := x / m - q;
    assert d * m == r - x % m by {
      assert x == (x / m) * m + x % m;
      assert d * m == (x / m) * m - q * m;
    }
    assert d >= 1 ==> d * m >= m;
    assert d <= -1 ==> d * m <= -m;
  }

  lemma AddMultiple(x: int, k: int, m: int)
    requires m > 0
    ensures Cong(x + k * m, x, m)
  {
    var q := x / m + k;
    assert x + k * m == q * m + x % m by {
      assert x == (x / m) * m + x % m;
      assert q * m == (x / m) * m + k * m;
    }
    ModUnique(x + k * m, q, x % m, m);
  }

  lemma FromMultiple(x: int, y: int, k: int, m: int)
    requires m > 0 && x - y == k * m
    ensures Cong(x, y, m)
  {
    AddMultiple(y, k, m);
  }

  /** Congruent numbers differ by a multiple of the modulus. */
  lemma ToMultiple(x: int, y: int, m: int) returns (k: int)
    requires m > 0 && Cong(x, y, m)
    ensures x - y == k * m
  {
    k := x / m - y / m;
    assert x == (x / m) * m + x % m;
    assert y == (y / m) * m + y % m;
    assert k * m == (x / m) * m - (y / m) * m;
  }

  lemma CongAdd(a: int, a': int, b: int, b': int, m: int)
    requires m > 0 && Cong(a, a', m) && Cong(b, b', m)
    ensures Cong(a + b, a' + b', m)
  {
    var k := ToMultiple(a, a', m);
    var l := ToMultiple(b, b', m);
    assert (k + l) * m == k * m + l * m;
    FromMultiple(a + b, a' + b', k + l, m);
  }

  lemma CongSub(a: int, a': int, b: int, b': int, m: int)
    requires m > 0 && Cong(a, a', m) && Cong(b, b', m)
    ensures Cong(a - b, a' - b', m)
  {
    var k := ToMultiple(a, a', m);
    var l := ToMultiple(b, b', m);
    assert (k - l) * m == k * m - l * m;
    FromMultiple(a - b, a' - b', k - l, m);
  }

  lemma CongMul(a: int, a': int, b: int, b': int, m: int)
    requires m > 0 && Cong(a, a', m) && Cong(b, b', m)
    ensures Cong(a * b, a' * b', m)
  {
    var k := ToMultiple(a, a', m);
    var l := ToMultiple(b, b', m);
    var q := k * b + a' * l;
    calc {
      a * b - a' * b';
      (a - a') * b + a' * (b - b');
      (k * m) * b + a' * (l * m);
      { assert (k * m) * b == (k * b) * m; assert a' * (l * m) == (a' * l) * m; }
      (k * b) * m + (a' * l) * m;
      q * m;
    }
    FromMultiple(a * b, a' * b', q, m);
  }

  /** A number is congruent to its own residue. */
  lemma CongMod(a: int, m: int)
    requires m > 0
    ensures Cong(a % m, a, m)
  {
    assert a % m - a == (-(a / m)) * m by {
      assert a == (a / m) * m + a % m;
    }
    FromMultiple(a % m, a, -(a / m), m);
  }

  /** Cells of a table with n rows of width w lie below n * w. */
  lemma RowRange(n: int, w: int, row: int, column: int)
    requires 0 <= row < n && 0 <= column < w
    ensures 0 <= row * w <= row * w + column < n * w
  {
    assert (n - 1 - row) * w >= 0;
    assert (n - 1 - row) * w == n * w - w - row * w;
    assert row * w >= 0;
  }

  /** Different cells lie at different places. */
  lemma RowsApart(w: int, row: int, column: int, row': int, column': int)
    requires 0 <= column < w && 0 <= column' < w && row * w + column == row' * w + column'
    ensures row == row' && column == column'
  {
    ModUnique(row * w + column, row, column, w);
    ModUnique(row' * w + column', row', column', w);
  }

  lemma QuotientNatural(x: int, m: int)
    requires 0 <= x && m > 0
    ensures 0 <= x / m
  {
    assert x == (x / m) * m + x % m;
    assert (x / m + 1) * m == (x / m) * m + m;
  }

  lemma ProductAtLeast(a: int, b: int)
    requires 0 <= a && 1 <= b
    ensures a <= a * b
  {
    assert a * (b - 1) >= 0;
    assert a * (b - 1) == a * b - a;
  }

  lemma SmallModulus(x: int, m: int)
    requires 0 <= x < m
    ensures x / m == 0 && x % m == x
  {
  }

  lemma ModTwice(x: int, m: int)
    requires m > 0
    ensures x % m % m == x % m
  {
    SmallModulus(x % m, m);
  }
}
