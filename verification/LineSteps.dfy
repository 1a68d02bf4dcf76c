/**
 The steps of the two line loops, `qemu_vga_line` and `malowanie_rysuj_liniedo`, in unbounded integers: how far each
 step is off the ideal line, and exactly which lines keep every operation within 32 bits.
 */
module LineSteps {
  import opened ModArith

  const LIMIT: int := 0x8000_0000

  function Abs(x: int): (a: nat) {
    if x < 0 then -x else x
  }

  function Max(a: int, b: int): (m: int) {
    if a >= b then a else b
  }

  function If(b: bool, v: int): (w: int) {
    if b then v else 0
  }

  /** Point i steps along and j steps across is within half a pixel of the line through (n, m). */
  ghost predicate HalfPixel(i: int, j: int, along: int, across: int) {
    -along <= 2 * (j * along - i * across) <= along
  }

  // ---- One step, in the terms of the deviation j * dx - i * dy ----

  /** Where the error term of `qemu_vga_line` is the deviation plus dx - dy, both comparisons keep the deviation small. */
  lemma ScreenStep(dx: int, dy: int, d: int)
    requires dx >= dy >= 0 && dx > 0 && -dx <= 2 * d < dx && (dx == dy ==> d == 0)
    ensures 2 * (d + dx - dy) > -dy
    ensures var e := d - dy + if 2 * (d + dx - dy) < dx then dx else 0;
      -dx <= 2 * e < dx && (dx == dy ==> e == 0)
  {
  }

  lemma ScreenStepSteep(dx: int, dy: int, d: int)
    requires 0 <= dx < dy && -dy < 2 * d <= dy
    ensures 2 * (d + dx - dy) < dx
    ensures var e := d + dx - if 2 * (d + dx - dy) > -dy then dy else 0;
      -dy < 2 * e <= dy
  {
  }

  /** `malowanie_rysuj_liniedo` starts its error term at half the longer difference instead. */
  lemma CanvasStep(dx: int, dy: int, d: int)
    requires dx > dy >= 0 && -dx <= 2 * d < dx
    ensures dx / 2 + d > -dx
    ensures var e := d - dy + if dx / 2 + d < dy then dx else 0;
      -dx <= 2 * e < dx
  {
  }

  lemma CanvasStepSteep(dx: int, dy: int, d: int)
    requires 0 <= dx <= dy && dy > 0 && -dy < 2 * d <= dy
    ensures -(dy / 2) + d < dy
    ensures var e := d + dx - if -(dy / 2) + d > -dx then dy else 0;
      -dy < 2 * e <= dy
  {
  }

  lemma FarMultiple(k: int, a: int)
    requires a > 0
    ensures k >= 1 ==> k * a >= a
    ensures k <= -1 ==> k * a <= -a
  {
  }

  /** A deviation of at most half the longer difference vanishes at the end of the longer axis. */
  lemma EndOfTrack(along: int, across: int, j: int)
    requires along > 0 && HalfPixel(along, j, along, across)
    ensures j == across
  {
    assert j * along - along * across == (j - across) * along;
    FarMultiple(j - across, along);
  }

  /** On the way, the other coordinate stays between its ends. */
  lemma InsideBox(i: int, j: int, along: int, across: int)
    requires along > 0 && 0 <= i <= along && across >= 0 && HalfPixel(i, j, along, across)
    ensures 0 <= j <= across
  {
    assert 0 <= i * across <= along * across by {
      assert (along - i) * across >= 0;
    }
    FarMultiple(j, along);
    assert (j - across) * along == j * along - along * across;
    FarMultiple(j - across, along);
  }

  ghost function Deviation(dx: int, dy: int, i: int, j: int): (d: int) {
    j * dx - i * dy
  }

  lemma DeviationStep(dx: int, dy: int, i: int, j: int, right: bool, down: bool)
    ensures Deviation(dx, dy, i + If(right, 1), j + If(down, 1)) == Deviation(dx, dy, i, j) - If(right, dy) + If(down, dx)
  {
  }

  /**
   What both loops keep: which pixel is next, how it was reached, and how far it is off the ideal line. Of two pixels
   equally far off, a flat line takes the one nearer to the start and a steep line the other.
   */
  ghost predicate Progress(dx: int, dy: int, i: int, j: int, n: int, d: int) {
    && d == Deviation(dx, dy, i, j) && (dx == dy == 0 ==> j == 0)
    && if dx >= dy then i == n <= dx && -dx <= 2 * d <= dx && (dx > 0 ==> 2 * d < dx)
    else j == n <= dy && -dy < 2 * d <= dy
  }

  lemma ProgressEnds(dx: int, dy: int, i: int, j: int, n: int, d: int)
    requires dx >= 0 && dy >= 0 && n >= 0 && Progress(dx, dy, i, j, n, d)
    ensures 0 <= i <= dx && 0 <= j <= dy
    ensures n == Max(dx, dy) <==> i == dx && j == dy
    ensures dx == dy ==> i == j && d == 0
  {
    if dx >= dy && dx > 0 {
      InsideBox(i, j, dx, dy);
      if i == dx {
        EndOfTrack(dx, dy, j);
      }
      if dx == dy {
        assert d == (j - i) * dx;
        FarMultiple(j - i, dx);
      }
    } else if dx < dy {
      assert -d == i * dy - j * dx;
      InsideBox(j, i, dy, dx);
      if j == dy {
        EndOfTrack(dy, dx, i);
      }
    }
  }

  lemma ProgressStart(dx: int, dy: int)
    requires dx >= 0 && dy >= 0
    ensures Progress(dx, dy, 0, 0, 0, 0)
  {
  }

  /** The pixel a loop has come to after n steps depends on n alone, and not on the loop. */
  lemma ProgressUnique(dx: int, dy: int, i: int, j: int, n: int, d: int, i': int, j': int, d': int)
    requires dx >= 0 && dy >= 0 && Progress(dx, dy, i, j, n, d) && Progress(dx, dy, i', j', n, d')
    ensures i == i' && j == j' && d == d'
  {
    if dx >= dy {
      assert d - d' == (j - j') * dx;
      if dx > 0 {
        FarMultiple(j - j', dx);
      }
    } else {
      assert d' - d == (i - i') * dy;
      FarMultiple(i - i', dy);
    }
  }

  /** A step of `qemu_vga_line` keeps the progress. */
  lemma ScreenAdvance(dx: int, dy: int, i: int, j: int, n: int, d: int, right: bool, down: bool)
    requires dx >= 0 && dy >= 0 && 0 <= n < Max(dx, dy) && Progress(dx, dy, i, j, n, d)
    requires right == (2 * (d + dx - dy) > -dy) && down == (2 * (d + dx - dy) < dx)
    ensures Progress(dx, dy, i + If(right, 1), j + If(down, 1), n + 1, d - If(right, dy) + If(down, dx))
  {
    hide Deviation;
    ProgressEnds(dx, dy, i, j, n, d);
    DeviationStep(dx, dy, i, j, right, down);
    if dx >= dy {
      ScreenStep(dx, dy, d);
    } else {
      ScreenStepSteep(dx, dy, d);
    }
  }

  /** Where the error term of `malowanie_rysuj_liniedo` starts; C division drops the fraction of either sign. */
  function StartError(dx: int, dy: int): (e: int) {
    if dx > dy then dx / 2 else -(dy / 2)
  }

  /** A step of `malowanie_rysuj_liniedo` keeps the progress. */
  lemma CanvasAdvance(dx: int, dy: int, i: int, j: int, n: int, d: int, right: bool, down: bool)
    requires dx >= 0 && dy >= 0 && 0 <= n < Max(dx, dy) && Progress(dx, dy, i, j, n, d)
    requires right == (StartError(dx, dy) + d > -dx) && down == (StartError(dx, dy) + d < dy)
    ensures Progress(dx, dy, i + If(right, 1), j + If(down, 1), n + 1, d - If(right, dy) + If(down, dx))
  {
    hide Deviation;
    ProgressEnds(dx, dy, i, j, n, d);
    DeviationStep(dx, dy, i, j, right, down);
    if dx > dy {
      CanvasStep(dx, dy, d);
    } else {
      CanvasStepSteep(dx, dy, d);
    }
  }

  // ---- Whole runs in unbounded integers ----

  datatype State = State(i: int, j: int, err: int)

  /** Steps along each axis and error term of `qemu_vga_line` after n rounds. */
  ghost function ScreenRun(dx: int, dy: int, n: nat): State {
    if n == 0 then State(0, 0, dx - dy) else
      var s := ScreenRun(dx, dy, n - 1);
      var right, down := 2 * s.err > -dy, 2 * s.err < dx;
      State(s.i + If(right, 1), s.j + If(down, 1), s.err - If(right, dy) + If(down, dx))
  }

  /** The same for `malowanie_rysuj_liniedo`. */
  ghost function CanvasRun(dx: int, dy: int, n: nat): State {
    if n == 0 then State(0, 0, StartError(dx, dy)) else
      var s := CanvasRun(dx, dy, n - 1);
      var right, down := s.err > -dx, s.err < dy;
      State(s.i + If(right, 1), s.j + If(down, 1), s.err - If(right, dy) + If(down, dx))
  }

  lemma {:induction false} ScreenRunProgress(dx: int, dy: int, n: nat)
    requires dx >= 0 && dy >= 0 && n <= Max(dx, dy)
    ensures var s := ScreenRun(dx, dy, n); Progress(dx, dy, s.i, s.j, n, s.err - (dx - dy))
  {
    hide Progress;
    if n == 0 {
      ProgressStart(dx, dy);
    } else {
      ScreenRunProgress(dx, dy, n - 1);
      var s := ScreenRun(dx, dy, n - 1);
      ScreenAdvance(dx, dy, s.i, s.j, n - 1, s.err - (dx - dy), 2 * s.err > -dy, 2 * s.err < dx);
    }
  }

  lemma {:induction false} CanvasRunProgress(dx: int, dy: int, n: nat)
    requires dx >= 0 && dy >= 0 && n <= Max(dx, dy)
    ensures var s := CanvasRun(dx, dy, n); Progress(dx, dy, s.i, s.j, n, s.err - StartError(dx, dy))
  {
    hide Progress;
    if n == 0 {
      ProgressStart(dx, dy);
    } else {
      CanvasRunProgress(dx, dy, n - 1);
      var s := CanvasRun(dx, dy, n - 1);
      CanvasAdvance(dx, dy, s.i, s.j, n - 1, s.err - StartError(dx, dy), s.err > -dx, s.err < dy);
    }
  }

  /** Both loops visit the same pixels, in the same order. */
  lemma SameRun(dx: int, dy: int, n: nat)
    requires dx >= 0 && dy >= 0 && n <= Max(dx, dy)
    ensures var s, t := ScreenRun(dx, dy, n), CanvasRun(dx, dy, n); s.i == t.i && s.j == t.j
  {
    ScreenRunProgress(dx, dy, n);
    CanvasRunProgress(dx, dy, n);
    var s, t := ScreenRun(dx, dy, n), CanvasRun(dx, dy, n);
    ProgressUnique(dx, dy, s.i, s.j, n, s.err - (dx - dy), t.i, t.j, t.err - StartError(dx, dy));
  }

  ghost predicate Fits(v: int) {
    -LIMIT <= v < LIMIT
  }

  /** Every operation of one round of `qemu_vga_line` stays within 32 bits. */
  ghost predicate ScreenRoundFits(dx: int, dy: int, err: int) {
    var right, down := 2 * err > -dy, 2 * err < dx;
    Fits(2 * err) && Fits(err - If(right, dy)) && Fits(err - If(right, dy) + If(down, dx))
  }

  ghost predicate CanvasRoundFits(dx: int, dy: int, err: int) {
    var right, down := err > -dx, err < dy;
    Fits(err - If(right, dy)) && Fits(err - If(right, dy) + If(down, dx))
  }

  ghost predicate ScreenRunFits(dx: int, dy: int) {
    forall n: nat | n < Max(dx, dy) :: ScreenRoundFits(dx, dy, ScreenRun(dx, dy, n).err)
  }

  ghost predicate CanvasRunFits(dx: int, dy: int) {
    forall n: nat | n < Max(dx, dy) :: CanvasRoundFits(dx, dy, CanvasRun(dx, dy, n).err)
  }

  // ---- Which deviations occur: the multiples of the greatest common divisor within half a pixel ----

  function Gcd(a: nat, b: nat): (g: nat)
    ensures a > 0 || b > 0 ==> g > 0
    decreases b
  {
    if b == 0 then a else Gcd(b, a % b)
  }

  /** The greatest common divisor divides both numbers and is a combination of them. */
  lemma {:induction false} Bezout(a: nat, b: nat) returns (p: nat, q: nat, u: int, w: int)
    ensures a == p * Gcd(a, b) && b == q * Gcd(a, b) && u * a + w * b == Gcd(a, b)
    decreases b
  {
    if b == 0 {
      p, q, u, w := 1, 0, 1, 0;
    } else {
      var t := a / b;
      QuotientNatural(a, b);
      assert a == t * b + a % b;
      var p', q', u', w' := Bezout(b, a % b);
      EuclidStep(a, b, t, a % b, Gcd(a, b), p', q', u', w');
      p, q, u, w := t * p' + q', p', w', u' - w' * t;
    }
  }

  lemma Divides(a: nat, b: nat) returns (p: nat, q: nat)
    ensures a == p * Gcd(a, b) && b == q * Gcd(a, b)
    ensures a > 0 ==> p > 0
    ensures b > 0 ==> q > 0
  {
    var u, w;
    p, q, u, w := Bezout(a, b);
  }

  lemma EuclidStep(a: int, b: int, t: nat, r: int, g: int, p: nat, q: nat, u: int, w: int)
    requires a == t * b + r && b == p * g && r == q * g && u * b + w * r == g
    ensures t * p >= 0 && a == (t * p + q) * g && w * a + (u - w * t) * b == g
  {
    assert (t * p + q) * g == t * (p * g) + q * g;
    assert w * a == w * t * b + w * r;
    assert (u - w * t) * b == u * b - w * t * b;
  }

  /** The largest multiple of g that is at most half of a, for g a divisor of a. */
  function Half(a: int, g: int): int
    requires g > 0
  {
    g * (a / g / 2)
  }

  /** The largest multiple of g that is less than half of a. */
  function BelowHalf(a: int, g: int): int
    requires g > 0
  {
    g * ((a / g - 1) / 2)
  }

  lemma HalfMultiples(a: int, p: int, g: int, k: int)
    requires g > 0 && p > 0 && a == p * g
    ensures Half(a, g) == (p / 2) * g && BelowHalf(a, g) == ((p - 1) / 2) * g
    ensures 2 * (k * g) <= a <==> k <= p / 2
    ensures 2 * (k * g) < a <==> k <= (p - 1) / 2
  {
    ModUnique(a, p, 0, g);
    assert 2 * (k * g) - a == (2 * k - p) * g;
    FarMultiple(2 * k - p, g);
  }

  lemma Scale(k: int, l: int, g: int)
    requires k <= l && g >= 0
    ensures k * g <= l * g
  {
    assert (l - k) * g >= 0;
    assert (l - k) * g == l * g - k * g;
  }

  lemma DeviationMultiple(i: int, j: int, p: int, q: int, g: int)
    ensures Deviation(p * g, q * g, i, j) == (j * p - i * q) * g
  {
    assert j * (p * g) == (j * p) * g;
    assert i * (q * g) == (i * q) * g;
    assert (j * p - i * q) * g == (j * p) * g - (i * q) * g;
  }

  /** Multiples within half of a are within these multiples. */
  lemma MultipleRange(a: int, p: int, g: int, k: int)
    requires g > 0 && p > 0 && a == p * g
    ensures -a <= 2 * (k * g) < a ==> -Half(a, g) <= k * g <= BelowHalf(a, g)
    ensures -a < 2 * (k * g) <= a ==> -BelowHalf(a, g) <= k * g <= Half(a, g)
    ensures 2 * (k * g) > a ==> k * g >= Half(a, g) + g
  {
    hide Half, BelowHalf;
    HalfMultiples(a, p, g, k);
    HalfMultiples(a, p, g, -k);
    assert (-k) * g == -(k * g);
    var h, l := p / 2, (p - 1) / 2;
    assert (h + 1) * g == h * g + g;
    if k <= h { Scale(k, h, g); } else { Scale(h + 1, k, g); }
    if k <= l { Scale(k, l, g); }
    if -k <= h { Scale(-k, h, g); }
    if -k <= l { Scale(-k, l, g); }
  }

  /** Deviations are multiples of the greatest common divisor, so within half a pixel they are within these multiples. */
  lemma DeviationRange(dx: int, dy: int, i: int, j: int, n: int, d: int)
    requires dx >= 0 && dy >= 0 && Max(dx, dy) > 0 && Progress(dx, dy, i, j, n, d)
    ensures var g := Gcd(dx, dy);
      if dx >= dy then -Half(dx, g) <= d <= BelowHalf(dx, g) else -BelowHalf(dy, g) <= d <= Half(dy, g)
  {
    hide Half, BelowHalf, Gcd, Deviation;
    var g := Gcd(dx, dy);
    var p, q := Divides(dx, dy);
    DeviationMultiple(i, j, p, q, g);
    if dx >= dy {
      MultipleRange(dx, p, g, j * p - i * q);
    } else {
      MultipleRange(dy, q, g, j * p - i * q);
    }
  }

  /** The next multiple after half of the longer difference is the least that makes a steep line step sideways. */
  lemma SidewaysRange(dx: int, dy: int, i: int, j: int)
    requires 0 <= dx <= dy && dy > 0 && 2 * (Deviation(dx, dy, i, j) + dx) > dy
    ensures Deviation(dx, dy, i, j) + dx >= Half(dy, Gcd(dx, dy)) + Gcd(dx, dy)
  {
    hide Half, BelowHalf, Gcd, Deviation;
    var g := Gcd(dx, dy);
    var p, q := Divides(dx, dy);
    DeviationMultiple(i, j, p, q, g);
    assert (j * p - i * q + p) * g == (j * p - i * q) * g + p * g;
    MultipleRange(dy, q, g, j * p - i * q + p);
  }

  /** Every multiple of the greatest common divisor occurs as a deviation at some step along an axis of length a. */
  lemma Attain(a: nat, b: nat, g: int, u: int, w: int, k: int) returns (n: nat, t: int)
    requires a > 0 && u * b + w * a == g
    ensures n < a && n * b - t * a == k * g
  {
    var q := k * u / a;
    n := k * u % a;
    t := -(q * b + k * w);
    assert k * u == q * a + n;
    assert (k * u) * b == (q * a) * b + n * b;
    assert k * g == k * (u * b) + k * (w * a);
    assert k * (u * b) == (k * u) * b && k * (w * a) == (k * w) * a;
    assert t * a == -((q * b) * a + (k * w) * a);
    assert (q * a) * b == (q * b) * a;
  }

  /** The step at which a multiple within half a pixel is the deviation. */
  lemma Attained(dx: int, dy: int, k: int) returns (i: int, j: int, n: nat)
    requires dx >= 0 && dy >= 0 && Max(dx, dy) > 0
    requires var d := k * Gcd(dx, dy); if dx >= dy then -dx <= 2 * d < dx else -dy < 2 * d <= dy
    ensures n < Max(dx, dy) && Progress(dx, dy, i, j, n, k * Gcd(dx, dy))
  {
    var g := Gcd(dx, dy);
    var p, q, u, w := Bezout(dx, dy);
    if dx >= dy {
      n, j := Attain(dx, dy, g, w, u, -k);
      i := n;
      assert (-k) * g == -(k * g);
    } else {
      n, i := Attain(dy, dx, g, u, w, k);
      j := n;
    }
  }

  // ---- Which lines keep every operation within 32 bits ----

  /** The condition for `qemu_vga_line`, on the differences of the ends. */
  predicate ScreenFits(dx: int, dy: int)
    requires dx >= 0 && dy >= 0
  {
    if dx == 0 && dy == 0 then true else
      var g := Gcd(dx, dy);
      if dx >= dy then 2 * (BelowHalf(dx, g) + dx - dy) < LIMIT && dx - 2 * dy - Half(dx, g) >= -LIMIT
      else 2 * (dx - dy - BelowHalf(dy, g)) >= -LIMIT && (dx == 0 || Half(dy, g) + g - 2 * dy >= -LIMIT)
  }

  /** The condition for `malowanie_rysuj_liniedo`: flat lines never leave the range. */
  predicate CanvasFits(dx: int, dy: int)
    requires dx >= 0 && dy >= 0
  {
    if dx > dy || dx == 0 then true else
      var g := Gcd(dx, dy);
      Half(dy, g) + g - dx - dy - dy / 2 >= -LIMIT
  }

  lemma ScreenRound(dx: int, dy: int, i: int, j: int, n: int, d: int)
    requires 0 <= dx < LIMIT && 0 <= dy < LIMIT && ScreenFits(dx, dy)
    requires 0 <= n < Max(dx, dy) && Progress(dx, dy, i, j, n, d)
    ensures ScreenRoundFits(dx, dy, d + dx - dy)
  {
    hide Half, BelowHalf, Gcd;
    var right, down := 2 * (d + dx - dy) > -dy, 2 * (d + dx - dy) < dx;
    ScreenAdvance(dx, dy, i, j, n, d, right, down);
    DeviationRange(dx, dy, i, j, n, d);
    DeviationRange(dx, dy, i + If(right, 1), j + If(down, 1), n + 1, d - If(right, dy) + If(down, dx));
    if dx < dy && right {
      SidewaysRange(dx, dy, i, j);
    }
  }

  lemma CanvasRound(dx: int, dy: int, i: int, j: int, n: int, d: int)
    requires 0 <= dx < LIMIT && 0 <= dy < LIMIT && CanvasFits(dx, dy)
    requires 0 <= n < Max(dx, dy) && Progress(dx, dy, i, j, n, d)
    ensures CanvasRoundFits(dx, dy, d + StartError(dx, dy))
  {
    hide Half, BelowHalf, Gcd;
    var err := d + StartError(dx, dy);
    var right, down := err > -dx, err < dy;
    ProgressEnds(dx, dy, i, j, n, d);
    CanvasAdvance(dx, dy, i, j, n, d, right, down);
    DeviationRange(dx, dy, i, j, n, d);
    if dx <= dy && right {
      SidewaysRange(dx, dy, i, j);
    }
  }

  lemma ScreenAt(dx: int, dy: int, i: int, j: int, n: nat, d: int)
    requires dx >= 0 && dy >= 0 && n <= Max(dx, dy) && Progress(dx, dy, i, j, n, d)
    ensures ScreenRun(dx, dy, n).err == d + dx - dy
  {
    var s := ScreenRun(dx, dy, n);
    ScreenRunProgress(dx, dy, n);
    ProgressUnique(dx, dy, i, j, n, d, s.i, s.j, s.err - (dx - dy));
  }

  lemma CanvasAt(dx: int, dy: int, i: int, j: int, n: nat, d: int)
    requires dx >= 0 && dy >= 0 && n <= Max(dx, dy) && Progress(dx, dy, i, j, n, d)
    ensures CanvasRun(dx, dy, n).err == d + StartError(dx, dy)
  {
    var s := CanvasRun(dx, dy, n);
    CanvasRunProgress(dx, dy, n);
    ProgressUnique(dx, dy, i, j, n, d, s.i, s.j, s.err - StartError(dx, dy));
  }

  lemma HalfBounds(a: int, r: int, g: int)
    requires g > 0 && r > 0 && a == r * g
    ensures Half(a, g) == (r / 2) * g && BelowHalf(a, g) == ((r - 1) / 2) * g
    ensures (-(r / 2)) * g == -Half(a, g) && (-((r - 1) / 2)) * g == -BelowHalf(a, g)
    ensures 0 <= Half(a, g) && 2 * Half(a, g) <= a && 0 <= BelowHalf(a, g) && 2 * BelowHalf(a, g) < a
    ensures 2 * (Half(a, g) + g) > a
  {
    hide Half, BelowHalf;
    HalfMultiples(a, r, g, r / 2);
    HalfMultiples(a, r, g, r / 2 + 1);
    HalfMultiples(a, r, g, (r - 1) / 2);
    assert (r / 2 + 1) * g == (r / 2) * g + g;
    Scale(0, r / 2, g);
    Scale(0, (r - 1) / 2, g);
  }

  /** The deviation at which a steep line with a sideways step is at its worst. */
  lemma WorstSideways(dx: int, dy: int) returns (i: int, j: int, n: nat)
    requires 0 < dx < dy
    ensures var d := Half(dy, Gcd(dx, dy)) + Gcd(dx, dy) - dx;
      n < Max(dx, dy) && Progress(dx, dy, i, j, n, d) && 2 * (d + dx) > dy
  {
    hide Half, BelowHalf, Gcd, Progress;
    var p, q := Divides(dx, dy);
    SidewaysMultiple(dx, dy, p, q, Gcd(dx, dy));
    var k: int := q / 2 + 1 - p as int;
    i, j, n := Attained(dx, dy, k);
  }

  lemma SidewaysMultiple(dx: int, dy: int, p: int, q: int, g: int)
    requires 0 < dx < dy && g > 0 && p > 0 && q > 0 && dx == p * g && dy == q * g
    ensures var d := (q / 2 + 1 - p) * g;
      d == Half(dy, g) + g - dx && -dy < 2 * d <= dy && 2 * (d + dx) > dy
  {
    hide Half, BelowHalf;
    FarMultiple(p, g);
    HalfBounds(dy, q, g);
    assert (q / 2 + 1 - p) * g == (q / 2) * g + g - p * g;
  }

  /** The extreme deviations of a run: half of the longer difference is reached on one side and just missed on the other. */
  lemma Extremes(dx: int, dy: int) returns (i: int, j: int, n: nat, i': int, j': int, n': nat)
    requires dx >= 0 && dy >= 0 && Max(dx, dy) > 0
    ensures var g := Gcd(dx, dy);
      && n < Max(dx, dy) && Progress(dx, dy, i, j, n, if dx >= dy then BelowHalf(dx, g) else -BelowHalf(dy, g))
      && n' < Max(dx, dy) && Progress(dx, dy, i', j', n', if dx >= dy then -Half(dx, g) else Half(dy, g))
  {
    hide Half, BelowHalf, Gcd, Progress;
    var g := Gcd(dx, dy);
    var p, q := Divides(dx, dy);
    var r: int := if dx >= dy then p else q;
    HalfBounds(Max(dx, dy), r, g);
    if dx >= dy {
      i, j, n := Attained(dx, dy, (r - 1) / 2);
      i', j', n' := Attained(dx, dy, -(r / 2));
    } else {
      i, j, n := Attained(dx, dy, -((r - 1) / 2));
      i', j', n' := Attained(dx, dy, r / 2);
    }
  }

  /** `qemu_vga_line` keeps every operation of its loop within 32 bits exactly under this condition. */
  lemma ScreenRunsIff(dx: int, dy: int)
    requires 0 <= dx < LIMIT && 0 <= dy < LIMIT
    ensures ScreenFits(dx, dy) <==> ScreenRunFits(dx, dy)
  {
    hide Half, BelowHalf, Gcd, Progress;
    if ScreenFits(dx, dy) {
      forall n: nat | n < Max(dx, dy)
        ensures ScreenRoundFits(dx, dy, ScreenRun(dx, dy, n).err)
      {
        var s := ScreenRun(dx, dy, n);
        ScreenRunProgress(dx, dy, n);
        ScreenRound(dx, dy, s.i, s.j, n, s.err - (dx - dy));
      }
    } else {
      ScreenLeaves(dx, dy);
    }
  }

  lemma ScreenLeaves(dx: int, dy: int)
    requires 0 <= dx < LIMIT && 0 <= dy < LIMIT && !ScreenFits(dx, dy)
    ensures !ScreenRunFits(dx, dy)
  {
    hide Half, BelowHalf, Gcd, Progress, ScreenRun;
    var g := Gcd(dx, dy);
    var i, j, n, i', j', n' := Extremes(dx, dy);
    ScreenAt(dx, dy, i, j, n, if dx >= dy then BelowHalf(dx, g) else -BelowHalf(dy, g));
    ScreenAt(dx, dy, i', j', n', if dx >= dy then -Half(dx, g) else Half(dy, g));
    ScreenRunProgress(dx, dy, n');
    if 0 < dx < dy {
      var x, y, m := WorstSideways(dx, dy);
      ScreenAt(dx, dy, x, y, m, Half(dy, g) + g - dx);
      assert !ScreenRoundFits(dx, dy, ScreenRun(dx, dy, n).err) || !ScreenRoundFits(dx, dy, ScreenRun(dx, dy, m).err);
    } else {
      ExtremesRange(dx, dy, i', j', n');
      assert !ScreenRoundFits(dx, dy, ScreenRun(dx, dy, n).err) || !ScreenRoundFits(dx, dy, ScreenRun(dx, dy, n').err);
    }
  }

  lemma ExtremesRange(dx: int, dy: int, i: int, j: int, n: nat)
    requires dx >= 0 && dy >= 0 && Max(dx, dy) > 0
    requires Progress(dx, dy, i, j, n, if dx >= dy then -Half(dx, Gcd(dx, dy)) else Half(dy, Gcd(dx, dy)))
    ensures 2 * Half(Max(dx, dy), Gcd(dx, dy)) <= Max(dx, dy)
    ensures dx == dy ==> Half(dx, Gcd(dx, dy)) == 0
  {
    hide Half, Gcd;
    ProgressEnds(dx, dy, i, j, n, if dx >= dy then -Half(dx, Gcd(dx, dy)) else Half(dy, Gcd(dx, dy)));
  }

  /** `malowanie_rysuj_liniedo` does so exactly under this one. */
  lemma CanvasRunsIff(dx: int, dy: int)
    requires 0 <= dx < LIMIT && 0 <= dy < LIMIT
    ensures CanvasFits(dx, dy) <==> CanvasRunFits(dx, dy)
  {
    hide Half, BelowHalf, Gcd, Progress;
    if CanvasFits(dx, dy) {
      forall n: nat | n < Max(dx, dy)
        ensures CanvasRoundFits(dx, dy, CanvasRun(dx, dy, n).err)
      {
        var s := CanvasRun(dx, dy, n);
        CanvasRunProgress(dx, dy, n);
        CanvasRound(dx, dy, s.i, s.j, n, s.err - StartError(dx, dy));
      }
    } else {
      CanvasLeaves(dx, dy);
    }
  }

  lemma CanvasLeaves(dx: int, dy: int)
    requires 0 <= dx < LIMIT && 0 <= dy < LIMIT && !CanvasFits(dx, dy)
    ensures !CanvasRunFits(dx, dy)
  {
    if dx < dy {
      hide Half, BelowHalf, Gcd, Progress, CanvasRun;
      var x, y, m := WorstSideways(dx, dy);
      CanvasAt(dx, dy, x, y, m, Half(dy, Gcd(dx, dy)) + Gcd(dx, dy) - dx);
      assert !CanvasRoundFits(dx, dy, CanvasRun(dx, dy, m).err);
    } else {
      GcdSame(dx);
      assert !CanvasRoundFits(dx, dy, CanvasRun(dx, dy, 0).err);
    }
  }

  lemma GcdSame(a: nat)
    requires a > 0
    ensures Gcd(a, a) == a && Half(a, a) == 0
  {
    ModUnique(a, 1, 0, a);
  }

  // ---- What the conditions come to ----

  /** Lines whose longer difference is below a third of 2^31 stay in range on the screen. */
  lemma ScreenShort(dx: int, dy: int)
    requires dx >= 0 && dy >= 0 && 3 * Max(dx, dy) < LIMIT
    ensures ScreenFits(dx, dy)
  {
    hide Half, BelowHalf, Gcd;
    if Max(dx, dy) > 0 {
      var g := Gcd(dx, dy);
      var p, q := Divides(dx, dy);
      HalfBounds(Max(dx, dy), if dx >= dy then p else q, g);
    }
  }

  /** Without a common divisor, lines on the canvas stay in range unless they are steep and their differences too large. */
  lemma CanvasCoprime(dx: int, dy: int)
    requires dx >= 0 && dy >= 0 && Gcd(dx, dy) == 1
    ensures CanvasFits(dx, dy) <==> dx > dy || dx == 0 || dx + dy <= LIMIT + 1
  {
    assert dy / 1 == dy;
  }

  /** The longest horizontal line in range on the screen, and the next one. */
  lemma LongestHorizontal()
    ensures ScreenFits(0x3FFF_FFFF, 0) && ScreenRunFits(0x3FFF_FFFF, 0)
    ensures !ScreenFits(0x4000_0000, 0) && 2 * ScreenRun(0x4000_0000, 0, 0).err == LIMIT && !ScreenRunFits(0x4000_0000, 0)
  {
    var a, b, zero := 0x3FFF_FFFF, 0x4000_0000, 0;
    assert Gcd(a, zero) == a && Gcd(b, zero) == b;
    ModUnique(a, 1, 0, a);
    ModUnique(b, 1, 0, b);
    ScreenRunsIff(a, zero);
    ScreenRunsIff(b, zero);
  }

  /** From corner to corner of the positive integers the canvas leaves the range with its first subtraction. */
  lemma LongestDiagonal()
    ensures var a := 0x7FFF_FFFF; !CanvasFits(a, a) && CanvasRun(a, a, 0).err - a == -3221225470 && !CanvasRunFits(a, a)
  {
    var a := 0x7FFF_FFFF;
    GcdSame(a);
    CanvasRunsIff(a, a);
  }
}
