/**
 The field GF(2^128) of GCM as polynomials over GF(2) modulo x^128 + x^7 + x^2 + x + 1:
 coefficient i of an element is bit i of its block, counted from the left (section 6.3 of
 NIST SP 800-38D).
 */
module GaloisField {

  type Element = s: seq<bool> | |s| == 128 witness seq(128, _ => false)
  type Long = s: seq<bool> | |s| == 255 witness seq(255, _ => false)

  ghost function Zero(): Element {
    seq(128, _ => false)
  }

  ghost function Plus(x: Element, y: Element): Element {
    seq(128, i requires 0 <= i < 128 => x[i] != y[i])
  }

  /** The coefficients of x^128 modulo the field polynomial: 1 + x + x^2 + x^7. */
  predicate Tap(i: int) {
    i == 0 || i == 1 || i == 2 || i == 7
  }

  /** Multiplication by x. */
  ghost function TimesX(v: Element): Element {
    seq(128, i requires 0 <= i < 128 => (i > 0 && v[i - 1]) != (v[127] && Tap(i)))
  }

  ghost function TimesPower(v: Element, n: nat): Element {
    if n == 0 then v else TimesX(TimesPower(v, n - 1))
  }

  ghost function Pick(b: bool, v: Element): Element {
    if b then v else Zero()
  }

  /** The sum of the first n terms x_i * x^i * y of a product: the state after n steps of the standard's algorithm. */
  ghost function Partial(x: Element, y: Element, n: nat): Element
    requires n <= 128
    decreases n, x, y
  {
    if n == 0 then Zero() else Plus(Partial(x, y, n - 1), Pick(x[n - 1], TimesPower(y, n - 1)))
  }

  /** The block product of section 6.3 of NIST SP 800-38D. */
  ghost function Times(x: Element, y: Element): Element {
    Partial(x, y, 128)
  }

  /** The element with the one coefficient of x^n. */
  ghost function Power(n: nat): Element {
    seq(128, i => i == n)
  }

  /** In the field, x times x^n is the next power, and x times x^127 is x^7 + x^2 + x + 1. */
  lemma PowersOfX(n: nat)
    requires n < 128
    ensures n < 127 ==> TimesX(Power(n)) == Power(n + 1)
    ensures n == 127 ==> TimesX(Power(n)) == Plus(Plus(Power(7), Power(2)), Plus(Power(1), Power(0)))
  {
  }

  // ---- Sums ----

  lemma PlusLaws(x: Element, y: Element, z: Element)
    ensures Plus(x, y) == Plus(y, x)
    ensures Plus(Plus(x, y), z) == Plus(x, Plus(y, z))
    ensures Plus(x, Zero()) == x && Plus(x, x) == Zero()
  {
  }

  /** Exchanges the middle terms of a sum of two sums. */
  lemma PlusSwap(a: Element, b: Element, c: Element, d: Element)
    ensures Plus(Plus(a, b), Plus(c, d)) == Plus(Plus(a, c), Plus(b, d))
  {
  }

  lemma TimesXPlus(v: Element, w: Element)
    ensures TimesX(Plus(v, w)) == Plus(TimesX(v), TimesX(w))
  {
  }

  lemma {:induction false} TimesPowerPlus(v: Element, w: Element, n: nat)
    ensures TimesPower(Plus(v, w), n) == Plus(TimesPower(v, n), TimesPower(w, n))
  {
    if n > 0 {
      TimesPowerPlus(v, w, n - 1);
      TimesXPlus(TimesPower(v, n - 1), TimesPower(w, n - 1));
    }
  }

  lemma {:induction false} TimesPowerZero(n: nat)
    ensures TimesPower(Zero(), n) == Zero()
  {
    if n > 0 {
      TimesPowerZero(n - 1);
      assert TimesX(Zero()) == Zero();
    }
  }

  /** The product distributes over sums in its second argument. */
  lemma {:induction false} PartialPlusRight(x: Element, y: Element, z: Element, n: nat)
    requires n <= 128
    ensures Partial(x, Plus(y, z), n) == Plus(Partial(x, y, n), Partial(x, z, n))
  {
    hide Plus, TimesPower;
    if n == 0 {
      PlusLaws(Zero(), Zero(), Zero());
    } else {
      PartialPlusRight(x, y, z, n - 1);
      TimesPowerPlus(y, z, n - 1);
      PlusLaws(Zero(), Zero(), Zero());
      var b := x[n - 1];
      PlusSwap(Partial(x, y, n - 1), Pick(b, TimesPower(y, n - 1)), Partial(x, z, n - 1), Pick(b, TimesPower(z, n - 1)));
    }
  }

  /** The product distributes over sums in its first argument. */
  lemma {:induction false} PartialPlusLeft(x: Element, y: Element, z: Element, n: nat)
    requires n <= 128
    ensures Partial(Plus(x, y), z, n) == Plus(Partial(x, z, n), Partial(y, z, n))
  {
    hide TimesPower;
    if n == 0 {
      PlusLaws(Zero(), Zero(), Zero());
    } else {
      PartialPlusLeft(x, y, z, n - 1);
      var v := TimesPower(z, n - 1);
      PickPlus(x[n - 1], y[n - 1], v);
      PlusSwap(Partial(x, z, n - 1), Pick(x[n - 1], v), Partial(y, z, n - 1), Pick(y[n - 1], v));
      assert Plus(x, y)[n - 1] == (x[n - 1] != y[n - 1]);
    }
  }

  lemma PickPlus(a: bool, b: bool, v: Element)
    ensures Pick(a != b, v) == Plus(Pick(a, v), Pick(b, v))
  {
    PlusLaws(v, v, v);
    PlusLaws(Zero(), v, v);
    PlusLaws(Zero(), Zero(), v);
  }

  /** The product distributes over exclusive or on both sides. */
  lemma TimesDistributes(x: Element, y: Element, z: Element)
    ensures Times(x, Plus(y, z)) == Plus(Times(x, y), Times(x, z))
    ensures Times(Plus(x, y), z) == Plus(Times(x, z), Times(y, z))
  {
    PartialPlusRight(x, y, z, 128);
    PartialPlusLeft(x, y, z, 128);
  }

  // ---- The product as polynomial multiplication and division ----

  function Coefficient(x: Element, i: int): bool {
    0 <= i < 128 && x[i]
  }

  ghost function Xor(t: seq<bool>): bool {
    if |t| == 0 then false else Xor(t[..|t| - 1]) != t[|t| - 1]
  }

  /** The terms that make up coefficient k of the polynomial product. */
  ghost function Terms(x: Element, y: Element, k: nat, n: nat): (t: seq<bool>)
    ensures |t| == n
  {
    seq(n, i requires 0 <= i => Coefficient(x, i) && Coefficient(y, k - i))
  }

  /** The product of two polynomials of degree below 128, by convolution of their coefficients. */
  ghost function PolynomialProduct(x: Element, y: Element): Long {
    seq(255, k requires 0 <= k => Xor(Terms(x, y, k, k + 1)))
  }

  /** One step of long division: cancels coefficient m with the field polynomial shifted by m - 128. */
  ghost function Cancel(p: Long, m: nat): Long
    requires 128 <= m < 255
  {
    seq(255, i requires 0 <= i < 255 => p[i] != (p[m] && (i == m || Tap(i - (m - 128)))))
  }

  /** The remainder of a polynomial of degree below n. */
  ghost function Remainder(p: Long, n: nat): Element
    requires 128 <= n <= 255
    decreases n, p
  {
    if n == 128 then p[..128] else Remainder(Cancel(p, n - 1), n - 1)
  }

  ghost function PlusLong(p: Long, q: Long): Long {
    seq(255, i requires 0 <= i < 255 => p[i] != q[i])
  }

  ghost function ZeroLong(): Long {
    seq(255, _ => false)
  }

  lemma {:induction false} RemainderPlus(p: Long, q: Long, n: nat)
    requires 128 <= n <= 255
    ensures Remainder(PlusLong(p, q), n) == Plus(Remainder(p, n), Remainder(q, n))
    decreases n
  {
    if n == 128 {
    } else {
      assert Cancel(PlusLong(p, q), n - 1) == PlusLong(Cancel(p, n - 1), Cancel(q, n - 1));
      RemainderPlus(Cancel(p, n - 1), Cancel(q, n - 1), n - 1);
    }
  }

  lemma {:induction false} RemainderZero(n: nat)
    requires 128 <= n <= 255
    ensures Remainder(ZeroLong(), n) == Zero()
    decreases n
  {
    if n > 128 {
      assert Cancel(ZeroLong(), n - 1) == ZeroLong();
      RemainderZero(n - 1);
    }
  }

  ghost function ShiftLong(p: Long): Long {
    seq(255, i requires 0 <= i < 255 => i > 0 && p[i - 1])
  }

  ghost predicate Below(p: Long, n: nat) {
    forall i :: n <= i < 255 ==> !p[i]
  }

  /** Multiplying by x commutes with taking the remainder. */
  lemma {:induction false} RemainderShift(p: Long, n: nat)
    requires 128 <= n < 255 && Below(p, n)
    ensures Remainder(ShiftLong(p), n + 1) == TimesX(Remainder(p, n))
    decreases n
  {
    if n == 128 {
      assert Cancel(ShiftLong(p), 128)[..128] == TimesX(p[..128]);
      assert Remainder(Cancel(ShiftLong(p), 128), 128) == Cancel(ShiftLong(p), 128)[..128];
    } else {
      CancelShift(p, n);
      RemainderShift(Cancel(p, n - 1), n - 1);
    }
  }

  lemma CancelShift(p: Long, n: nat)
    requires 128 < n < 255 && Below(p, n)
    ensures Cancel(ShiftLong(p), n) == ShiftLong(Cancel(p, n - 1)) && Below(Cancel(p, n - 1), n - 1)
  {
    var a, b, c := Cancel(ShiftLong(p), n), ShiftLong(Cancel(p, n - 1)), Cancel(p, n - 1);
    forall i | 0 <= i < 255
      ensures a[i] == b[i] && (i >= n - 1 ==> !c[i])
    {
      assert c[i] == (p[i] != (p[n - 1] && (i == n - 1 || Tap(i - (n - 129)))));
      assert a[i] == (ShiftLong(p)[i] != (ShiftLong(p)[n] && (i == n || Tap(i - (n - 128)))));
      assert ShiftLong(p)[n] == p[n - 1];
      if i > 0 {
        assert b[i] == c[i - 1];
        assert c[i - 1] == (p[i - 1] != (p[n - 1] && (i - 1 == n - 1 || Tap(i - 1 - (n - 129)))));
      }
    }
  }

  /** y times x^i as an unreduced polynomial. */
  ghost function Offset(y: Element, i: nat): Long {
    seq(255, k requires 0 <= k => Coefficient(y, k - i))
  }

  /** A polynomial that already has degree below n keeps its remainder when division starts higher. */
  lemma {:induction false} RemainderAbove(p: Long, n: nat, m: nat)
    requires 128 <= n <= m <= 255 && Below(p, n)
    ensures Remainder(p, m) == Remainder(p, n)
    decreases m
  {
    if m > n {
      assert Cancel(p, m - 1) == p;
      RemainderAbove(p, n, m - 1);
    }
  }

  lemma OffsetShift(y: Element, i: nat)
    requires 0 < i < 128
    ensures Offset(y, i) == ShiftLong(Offset(y, i - 1))
  {
    var a, b := Offset(y, i), ShiftLong(Offset(y, i - 1));
    forall k | 0 <= k < 255
      ensures a[k] == b[k]
    {
      assert a[k] == Coefficient(y, k - i);
      if k > 0 {
        assert Offset(y, i - 1)[k - 1] == Coefficient(y, (k - 1) - (i - 1));
        assert (k - 1) - (i - 1) == k - i;
      }
    }
  }

  lemma OffsetBelow(y: Element, i: nat)
    requires i < 128
    ensures Below(Offset(y, i), 128 + i)
  {
    var a := Offset(y, i);
    forall k | 128 + i <= k < 255
      ensures !a[k]
    {
    }
  }

  lemma {:induction false} RemainderOffset(y: Element, i: nat)
    requires i < 128
    ensures Remainder(Offset(y, i), 128 + i) == TimesPower(y, i)
  {
    if i == 0 {
      assert Offset(y, 0)[..128] == y;
    } else {
      RemainderOffset(y, i - 1);
      OffsetBelow(y, i - 1);
      OffsetShift(y, i);
      RemainderShift(Offset(y, i - 1), 127 + i);
    }
  }

  /** The polynomial product with only the terms of the first n coefficients of x. */
  ghost function PartialPolynomial(x: Element, y: Element, n: nat): Long
    requires n <= 128
    decreases n, x, y
  {
    if n == 0 then ZeroLong()
    else PlusLong(PartialPolynomial(x, y, n - 1), if x[n - 1] then Offset(y, n - 1) else ZeroLong())
  }

  lemma {:induction false} PartialRemainder(x: Element, y: Element, n: nat)
    requires n <= 128
    ensures Remainder(PartialPolynomial(x, y, n), 255) == Partial(x, y, n)
  {
    hide Remainder, Offset, PlusLong, Plus, TimesPower;
    RemainderZero(255);
    if n > 0 {
      PartialRemainder(x, y, n - 1);
      RemainderPlus(PartialPolynomial(x, y, n - 1), if x[n - 1] then Offset(y, n - 1) else ZeroLong(), 255);
      RemainderOffset(y, n - 1);
      OffsetBelow(y, n - 1);
      RemainderAbove(Offset(y, n - 1), 127 + n, 255);
    }
  }

  lemma {:induction false} PartialCoefficient(x: Element, y: Element, n: nat, k: nat)
    requires n <= 128 && k < 255
    ensures PartialPolynomial(x, y, n)[k] == Xor(Terms(x, y, k, n))
  {
    if n > 0 {
      PartialCoefficient(x, y, n - 1, k);
      assert Terms(x, y, k, n)[..n - 1] == Terms(x, y, k, n - 1);
    }
  }

  /** Terms beyond both operands' coefficients are zero and do not count. */
  lemma {:induction false} XorSame(s: seq<bool>, t: seq<bool>, n: nat)
    requires n <= |s| && n <= |t| && s[..n] == t[..n]
    requires forall i :: n <= i < |s| ==> !s[i]
    requires forall i :: n <= i < |t| ==> !t[i]
    ensures Xor(s) == Xor(t)
    decreases |s| + |t|
  {
    if |s| > n {
      assert s[..|s| - 1][..n] == t[..n];
      XorSame(s[..|s| - 1], t, n);
    } else if |t| > n {
      assert t[..|t| - 1][..n] == s[..n];
      XorSame(s, t[..|t| - 1], n);
    } else {
      assert s == s[..n] && t == t[..n];
    }
  }

  lemma ConvolutionIsPartial(x: Element, y: Element)
    ensures PolynomialProduct(x, y) == PartialPolynomial(x, y, 128)
  {
    forall k: nat | k < 255
      ensures PolynomialProduct(x, y)[k] == PartialPolynomial(x, y, 128)[k]
    {
      PartialCoefficient(x, y, 128, k);
      var n := if k + 1 < 128 then k + 1 else 128;
      XorSame(Terms(x, y, k, k + 1), Terms(x, y, k, 128), n);
    }
  }

  /** The standard's block product is the product of the polynomials modulo the field polynomial. */
  lemma TimesIsPolynomialProduct(x: Element, y: Element)
    ensures Times(x, y) == Remainder(PolynomialProduct(x, y), 255)
  {
    ConvolutionIsPartial(x, y);
    PartialRemainder(x, y, 128);
  }

  // ---- Commutativity and associativity ----

  ghost function Reversed(t: seq<bool>): (r: seq<bool>)
    ensures |r| == |t|
  {
    seq(|t|, i requires 0 <= i < |t| => t[|t| - 1 - i])
  }

  lemma {:induction false} XorCons(b: bool, t: seq<bool>)
    ensures Xor([b] + t) == (b != Xor(t))
  {
    if |t| == 0 {
      assert [b] + t == [b];
      assert [b][..0] == [];
    } else {
      XorCons(b, t[..|t| - 1]);
      assert ([b] + t)[..|t|] == [b] + t[..|t| - 1];
    }
  }

  lemma {:induction false} XorReversed(t: seq<bool>)
    ensures Xor(Reversed(t)) == Xor(t)
  {
    if |t| > 0 {
      var init := t[..|t| - 1];
      XorReversed(init);
      XorCons(t[|t| - 1], Reversed(init));
      assert Reversed(t) == [t[|t| - 1]] + Reversed(init);
    }
  }

  lemma TimesCommutes(x: Element, y: Element)
    ensures Times(x, y) == Times(y, x)
  {
    TimesIsPolynomialProduct(x, y);
    TimesIsPolynomialProduct(y, x);
    forall k: nat | k < 255
      ensures PolynomialProduct(x, y)[k] == PolynomialProduct(y, x)[k]
    {
      XorReversed(Terms(x, y, k, k + 1));
      assert Reversed(Terms(x, y, k, k + 1)) == Terms(y, x, k, k + 1);
    }
    assert PolynomialProduct(x, y) == PolynomialProduct(y, x);
  }

  lemma {:induction false} PartialTimesX(z: Element, a: Element, n: nat)
    requires n <= 128
    ensures Partial(z, TimesX(a), n) == TimesX(Partial(z, a, n))
  {
    if n == 0 {
      assert TimesX(Zero()) == Zero();
    } else {
      PartialTimesX(z, a, n - 1);
      TimesPowerShift(a, n - 1);
      assert TimesX(Zero()) == Zero();
      TimesXPlus(Partial(z, a, n - 1), Pick(z[n - 1], TimesPower(a, n - 1)));
    }
  }

  lemma {:induction false} TimesPowerShift(a: Element, n: nat)
    ensures TimesPower(TimesX(a), n) == TimesX(TimesPower(a, n))
  {
    if n > 0 {
      TimesPowerShift(a, n - 1);
    }
  }

  lemma {:induction false} TimesPowerLeft(a: Element, z: Element, n: nat)
    ensures Times(TimesPower(a, n), z) == TimesPower(Times(a, z), n)
  {
    hide TimesX, Times;
    if n > 0 {
      TimesPowerLeft(a, z, n - 1);
      TimesXLeft(TimesPower(a, n - 1), z);
    }
  }

  lemma TimesXLeft(b: Element, z: Element)
    ensures Times(TimesX(b), z) == TimesX(Times(b, z))
  {
    hide TimesX;
    TimesCommutes(TimesX(b), z);
    TimesCommutes(b, z);
    PartialTimesX(z, b, 128);
  }

  lemma {:induction false} PartialAssociates(x: Element, y: Element, z: Element, n: nat)
    requires n <= 128
    ensures Times(Partial(x, y, n), z) == Partial(x, Times(y, z), n)
  {
    hide Times, TimesPower, Plus;
    TimesZero(z);
    if n > 0 {
      PartialAssociates(x, y, z, n - 1);
      TimesDistributes(Partial(x, y, n - 1), Pick(x[n - 1], TimesPower(y, n - 1)), z);
      TimesPowerLeft(y, z, n - 1);
    }
  }

  lemma TimesZero(z: Element)
    ensures Times(Zero(), z) == Zero()
  {
    hide Plus;
    PlusLaws(Zero(), Zero(), Zero());
    TimesDistributes(Zero(), Zero(), z);
    PlusLaws(Times(Zero(), z), Times(Zero(), z), z);
  }

  lemma TimesAssociates(x: Element, y: Element, z: Element)
    ensures Times(Times(x, y), z) == Times(x, Times(y, z))
  {
    PartialAssociates(x, y, z, 128);
  }
}
