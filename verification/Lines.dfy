/**
 The two line loops, `qemu_vga_line` and `malowanie_rysuj_liniedo`, on 32-bit integers: the pixels they
 visit trace the line from end to end, one per step of the longer axis and none further than half a pixel
 from the ideal line on the other. `LineSteps` says which lines leave the 32-bit integers.
 */
module Lines {
  import opened ModArith
  import opened LineSteps

  newtype int32 = x: int | -0x8000_0000 <= x < 0x8000_0000

  datatype Point = Point(x: int, y: int)

  /** How many steps towards b lead from a to c, and where i steps lead. */
  ghost function Steps(a: int, b: int, c: int): (i: int) {
    if b < a then a - c else c - a
  }

  ghost function Walk(a: int, b: int, i: int): (c: int)
    ensures Steps(a, b, c) == i
  {
    if b < a then a - i else a + i
  }

  /** The n-th pixel of a line: n steps on the longer axis, x when they are equal. */
  ghost predicate OnTrack(from: Point, to: Point, n: int, p: Point) {
    var dx, dy := Abs(to.x - from.x), Abs(to.y - from.y);
    var i, j := Steps(from.x, to.x, p.x), Steps(from.y, to.y, p.y);
    if dx >= dy then i == n && HalfPixel(i, j, dx, dy) else j == n && HalfPixel(j, i, dy, dx)
  }

  ghost predicate Traces(from: Point, to: Point, path: seq<Point>) {
    && |path| == Max(Abs(to.x - from.x), Abs(to.y - from.y)) + 1
    && path[0] == from && path[|path| - 1] == to
    && (forall n :: 0 <= n < |path| ==> OnTrack(from, to, n, path[n]))
  }

  lemma TrackPoint(from: Point, to: Point, i: int, j: int, n: int, d: int)
    requires Progress(Abs(to.x - from.x), Abs(to.y - from.y), i, j, n, d) && n >= 0
    ensures var p := Point(Walk(from.x, to.x, i), Walk(from.y, to.y, j));
      && OnTrack(from, to, n, p)
      && (p == to <==> n == Max(Abs(to.x - from.x), Abs(to.y - from.y)))
      && Between(from.x, to.x, p.x) && Between(from.y, to.y, p.y)
  {
    ProgressEnds(Abs(to.x - from.x), Abs(to.y - from.y), i, j, n, d);
  }

  ghost predicate Between(a: int, b: int, c: int) {
    a <= c <= b || b <= c <= a
  }

  // ---- The screen ----

  const SCREEN_WIDTH: nat := 1024
  const SCREEN_HEIGHT: nat := 768

  ghost predicate OnScreen(p: Point) {
    0 <= p.x < SCREEN_WIDTH && 0 <= p.y < SCREEN_HEIGHT
  }

  ghost function ScreenIndex(p: Point): (k: int) {
    p.y * SCREEN_WIDTH + p.x
  }

  /** The screen is kept row by row, from left to right. */
  lemma ScreenRows(x: int, y: int)
    ensures ScreenIndex(Point(0, 0)) == 0 && ScreenIndex(Point(1023, 767)) == SCREEN_WIDTH * SCREEN_HEIGHT - 1
    ensures ScreenIndex(Point(x + 1, y)) == ScreenIndex(Point(x, y)) + 1
    ensures ScreenIndex(Point(0, y + 1)) == ScreenIndex(Point(1023, y)) + 1
  {
  }

  /** The visited pixels that lie on the screen have the colour; all others are as before. */
  ghost predicate Painted(before: seq<bv32>, after: seq<bv32>, path: seq<Point>, color: bv32) {
    && |before| == |after| == SCREEN_WIDTH * SCREEN_HEIGHT
    && (forall p :: OnScreen(p) ==> 0 <= ScreenIndex(p) < |after|)
    && (forall p :: OnScreen(p) ==> after[ScreenIndex(p)] == if p in path then color else before[ScreenIndex(p)])
  }

  lemma PaintOne(before: seq<bv32>, after: seq<bv32>, path: seq<Point>, color: bv32, p: Point)
    requires Painted(before, after, path, color)
    ensures OnScreen(p) ==> 0 <= ScreenIndex(p) < |after| && Painted(before, after[ScreenIndex(p) := color], path + [p], color)
    ensures !OnScreen(p) ==> Painted(before, after, path + [p], color)
  {
    forall q | OnScreen(q) && OnScreen(p) && ScreenIndex(q) == ScreenIndex(p)
      ensures q == p
    {
      RowsApart(SCREEN_WIDTH, p.y, p.x, q.y, q.x);
    }
  }

  lemma PaintNone(before: seq<bv32>, color: bv32)
    requires |before| == SCREEN_WIDTH * SCREEN_HEIGHT
    ensures Painted(before, before, [], color)
  {
    forall p | OnScreen(p)
      ensures 0 <= ScreenIndex(p) < |before|
    {
      RowRange(SCREEN_HEIGHT, SCREEN_WIDTH, p.y, p.x);
    }
  }

  /** Where a loop stands before it visits pixel n, in its own variables and in the terms of the progress. */
  ghost predicate At(from: Point, to: Point, dx: int, dy: int, x: int, y: int, i: int, j: int, n: int, d: int) {
    && dx == Abs(to.x - from.x) && dy == Abs(to.y - from.y)
    && x == Walk(from.x, to.x, i) && y == Walk(from.y, to.y, j)
    && 0 <= n <= Max(dx, dy) && Progress(dx, dy, i, j, n, d)
  }

  lemma AtStart(from: Point, to: Point)
    ensures At(from, to, Abs(to.x - from.x), Abs(to.y - from.y), from.x, from.y, 0, 0, 0, 0)
  {
  }

  /** The pixel visited, whether it is the last, and that it lies between the ends. */
  lemma AtPoint(from: Point, to: Point, dx: int, dy: int, x: int, y: int, i: int, j: int, n: int, d: int)
    requires At(from, to, dx, dy, x, y, i, j, n, d)
    ensures OnTrack(from, to, n, Point(x, y)) && (Point(x, y) == to <==> n == Max(dx, dy))
    ensures Between(from.x, to.x, x) && Between(from.y, to.y, y)
    ensures n == 0 ==> Point(x, y) == from
  {
    TrackPoint(from, to, i, j, n, d);
    if n == 0 {
      AtFirst(dx, dy, i, j, d);
    }
  }

  lemma AtFirst(dx: int, dy: int, i: int, j: int, d: int)
    requires dx >= 0 && dy >= 0 && Progress(dx, dy, i, j, 0, d)
    ensures i == 0 && j == 0
  {
    ProgressEnds(dx, dy, i, j, 0, d);
    if dx > 0 {
      FarMultiple(j, dx);
    }
    if dy > 0 {
      FarMultiple(i, dy);
    }
  }

  /** One round of `qemu_vga_line` after the pixel is drawn. */
  method ScreenMove(ghost from: Point, ghost to: Point, dx: int32, dy: int32, sx: int32, sy: int32, x: int32, y: int32, err: int32,
                    ghost i: int, ghost j: int, ghost n: int, ghost d: int)
    returns (x': int32, y': int32, err': int32, ghost i': int, ghost j': int, ghost d': int)
    requires At(from, to, dx as int, dy as int, x as int, y as int, i, j, n, d) && n < Max(dx as int, dy as int)
    requires dx >= 0 && dy >= 0 && ScreenFits(dx as int, dy as int) && err as int == d + dx as int - dy as int
    requires sx == (if to.x < from.x then -1 else 1) && sy == (if to.y < from.y then -1 else 1)
    requires InRange(from) && InRange(to)
    ensures At(from, to, dx as int, dy as int, x' as int, y' as int, i', j', n + 1, d')
    ensures err' as int == d' + dx as int - dy as int
  {
    hide Progress, OnTrack, ScreenFits;
    x', y', err' := x, y, err;
    ScreenRound(dx as int, dy as int, i, j, n, d);
    var e2 := 2 * err;
    ghost var right, down := e2 > -dy, e2 < dx;
    ScreenAdvance(dx as int, dy as int, i, j, n, d, right, down);
    i', j' := i + If(right, 1), j + If(down, 1);
    d' := d - If(right, dy as int) + If(down, dx as int);
    AtPoint(from, to, dx as int, dy as int, Walk(from.x, to.x, i'), Walk(from.y, to.y, j'), i', j', n + 1, d');
    if e2 > -dy {
      err' := err' - dy;
      x' := x' + sx;
    }
    if e2 < dx {
      err' := err' + dx;
      y' := y' + sy;
    }
  }

  ghost predicate InRange(p: Point) {
    -0x8000_0000 <= p.x < 0x8000_0000 && -0x8000_0000 <= p.y < 0x8000_0000
  }

  method ScreenPixel(fb: array<bv32>, x: int32, y: int32, color: bv32, ghost before: seq<bv32>, ghost path: seq<Point>)
    requires Painted(before, fb[..], path, color)
    modifies fb
    ensures Painted(before, fb[..], path + [Point(x as int, y as int)], color)
  {
    hide Painted;
    PaintedSize(before, fb[..], path, color);
    PaintOne(before, fb[..], path, color, Point(x as int, y as int));
    if x >= 0 && x < 1024 && y >= 0 && y < 768 {
      fb[y as int * SCREEN_WIDTH + x as int] := color;
    }
  }

  lemma PaintedSize(before: seq<bv32>, after: seq<bv32>, path: seq<Point>, color: bv32)
    requires Painted(before, after, path, color)
    ensures |before| == |after| == SCREEN_WIDTH * SCREEN_HEIGHT
  {
  }

  /** `qemu_vga_line`, for all ends for which no operation leaves the 32-bit integers. */
  method ScreenLine(fb: array<bv32>, x0: int32, y0: int32, x1: int32, y1: int32, color: bv32) returns (ghost path: seq<Point>)
    requires fb.Length == SCREEN_WIDTH * SCREEN_HEIGHT
    requires Abs(x1 as int - x0 as int) < LIMIT && Abs(y1 as int - y0 as int) < LIMIT
    requires ScreenFits(Abs(x1 as int - x0 as int), Abs(y1 as int - y0 as int))
    modifies fb
    ensures Traces(Point(x0 as int, y0 as int), Point(x1 as int, y1 as int), path)
    ensures Painted(old(fb[..]), fb[..], path, color)
  {
    hide Progress, OnTrack, Painted, Walk, ScreenFits;
    ghost var from, to := Point(x0 as int, y0 as int), Point(x1 as int, y1 as int);
    ghost var before := fb[..];
    var x, y := x0, y0;
    var dx, dy := x1 - x, y1 - y;
    var sx: int32 := if dx < 0 then -1 else 1;
    var sy: int32 := if dy < 0 then -1 else 1;
    if dx < 0 {
      dx := -dx;
    }
    if dy < 0 {
      dy := -dy;
    }
    var err := dx - dy;
    ghost var i, j, d := 0, 0, 0;
    path := [];
    PaintNone(before, color);
    AtStart(from, to);
    while true
      invariant At(from, to, dx as int, dy as int, x as int, y as int, i, j, |path|, d)
      invariant err as int == d + dx as int - dy as int
      invariant forall n :: 0 <= n < |path| ==> OnTrack(from, to, n, path[n])
      invariant |path| > 0 ==> path[0] == from
      invariant Painted(before, fb[..], path, color)
      decreases Max(dx as int, dy as int) - |path|
    {
      AtPoint(from, to, dx as int, dy as int, x as int, y as int, i, j, |path|, d);
      ScreenPixel(fb, x, y, color, before, path);
      path := path + [Point(x as int, y as int)];
      if x == x1 && y == y1 {
        break;
      }
      x, y, err, i, j, d := ScreenMove(from, to, dx, dy, sx, sy, x, y, err, i, j, |path| - 1, d);
    }
  }

  // ---- The canvas ----

  const CANVAS_WIDTH: nat := 320
  const CANVAS_HEIGHT: nat := 240
  const CANVAS_SIZE: nat := 7 + CANVAS_WIDTH * CANVAS_HEIGHT * 4

  ghost predicate OnCanvas(p: Point) {
    0 <= p.x < CANVAS_WIDTH && 0 <= p.y < CANVAS_HEIGHT
  }

  /** `mal_piksel_offset`: pixels of four bytes behind a header of seven. */
  function Offset(p: Point): (k: int) {
    7 + (p.y * CANVAS_WIDTH + p.x) * 4
  }

  /** Byte k of a colour, the lowest first. */
  function Channel(color: bv32, k: nat): bv8
    requires k < 4
  {
    ((color >> (8 * k)) & 0xFF) as bv8
  }

  /** The four bytes of a pixel are those of the colour, the lowest first. */
  lemma ColourBytes(color: bv32)
    ensures (Channel(color, 0) as bv32) | (Channel(color, 1) as bv32 << 8) | (Channel(color, 2) as bv32 << 16)
            | (Channel(color, 3) as bv32 << 24) == color
  {
    hide Channel;
    ChannelBits(color);
    Reassembled(color);
  }

  lemma ChannelBits(color: bv32)
    ensures Channel(color, 0) as bv32 == color & 0xFF && Channel(color, 1) as bv32 == (color >> 8) & 0xFF
    ensures Channel(color, 2) as bv32 == (color >> 16) & 0xFF && Channel(color, 3) as bv32 == (color >> 24) & 0xFF
  {
    assert color >> 0 == color;
  }

  lemma Reassembled(color: bv32)
    ensures (color & 0xFF) | (((color >> 8) & 0xFF) << 8) | (((color >> 16) & 0xFF) << 16) | (((color >> 24) & 0xFF) << 24) == color
  {
  }

  /** Pixels follow the header of seven bytes row by row, from left to right, and fill the buffer. */
  lemma CanvasRows(x: int, y: int)
    ensures Offset(Point(0, 0)) == 7 && Offset(Point(319, 239)) + 4 == CANVAS_SIZE
    ensures Offset(Point(x + 1, y)) == Offset(Point(x, y)) + 4 && Offset(Point(0, y + 1)) == Offset(Point(319, y)) + 4
  {
  }

  /** The visited pixels that lie on the canvas have the colour; all other pixels and the header are as before. */
  ghost predicate Drawn(before: seq<bv8>, after: seq<bv8>, path: seq<Point>, color: bv32) {
    && |before| == |after| == CANVAS_SIZE && after[..7] == before[..7]
    && (forall p :: OnCanvas(p) ==> PixelDrawn(before, after, path, color, p))
  }

  ghost predicate PixelDrawn(before: seq<bv8>, after: seq<bv8>, path: seq<Point>, color: bv32, p: Point) {
    && 7 <= Offset(p) && Offset(p) + 4 <= |after| && Offset(p) + 4 <= |before|
    && after[Offset(p)..Offset(p) + 4] == if p in path then Pixel(color) else before[Offset(p)..Offset(p) + 4]
  }

  ghost function Pixel(color: bv32): seq<bv8> {
    [Channel(color, 0), Channel(color, 1), Channel(color, 2), Channel(color, 3)]
  }

  lemma OffsetsApart(p: Point, q: Point)
    requires OnCanvas(p) && OnCanvas(q)
    ensures 7 <= Offset(p) && Offset(p) + 4 <= CANVAS_SIZE
    ensures p == q || Offset(p) + 4 <= Offset(q) || Offset(q) + 4 <= Offset(p)
  {
    RowRange(CANVAS_HEIGHT, CANVAS_WIDTH, p.y, p.x);
    if p.y * CANVAS_WIDTH + p.x == q.y * CANVAS_WIDTH + q.x {
      RowsApart(CANVAS_WIDTH, p.y, p.x, q.y, q.x);
    }
  }

  lemma DrawOne(before: seq<bv8>, after: seq<bv8>, next: seq<bv8>, path: seq<Point>, color: bv32, p: Point)
    requires Drawn(before, after, path, color) && |next| == CANVAS_SIZE
    requires OnCanvas(p) ==> 7 <= Offset(p) && Offset(p) + 4 <= CANVAS_SIZE
    requires OnCanvas(p) ==> next == after[..Offset(p)] + Pixel(color) + after[Offset(p) + 4..]
    requires !OnCanvas(p) ==> next == after
    ensures Drawn(before, next, path + [p], color)
  {
    hide Offset, Channel, PixelDrawn;
    forall q | OnCanvas(q)
      ensures PixelDrawn(before, next, path + [p], color, q)
    {
      assert PixelDrawn(before, after, path, color, q);
      DrawnPixel(before, after, next, path, color, p, q);
    }
    if OnCanvas(p) {
      assert next[..7] == after[..Offset(p)][..7];
    }
  }

  /** Drawing a pixel at p, seen at q. */
  lemma DrawnPixel(before: seq<bv8>, after: seq<bv8>, next: seq<bv8>, path: seq<Point>, color: bv32, p: Point, q: Point)
    requires OnCanvas(q) && PixelDrawn(before, after, path, color, q) && |after| == |next| == CANVAS_SIZE
    requires OnCanvas(p) ==> 7 <= Offset(p) && Offset(p) + 4 <= CANVAS_SIZE
    requires OnCanvas(p) ==> next == after[..Offset(p)] + Pixel(color) + after[Offset(p) + 4..]
    requires !OnCanvas(p) ==> next == after
    ensures PixelDrawn(before, next, path + [p], color, q)
  {
    hide Offset, Channel;
    if OnCanvas(p) && q != p {
      OffsetsApart(p, q);
      SliceApart(after, next, Offset(p), Pixel(color), Offset(q));
    }
  }

  lemma SliceApart(s: seq<bv8>, t: seq<bv8>, at: nat, x: seq<bv8>, from: nat)
    requires |x| == 4 && at + 4 <= |s| && from + 4 <= |s| && t == s[..at] + x + s[at + 4..]
    requires at + 4 <= from || from + 4 <= at
    ensures t[from..from + 4] == s[from..from + 4]
  {
  }

  lemma DrawNone(before: seq<bv8>, color: bv32)
    requires |before| == CANVAS_SIZE
    ensures Drawn(before, before, [], color)
  {
    forall p | OnCanvas(p)
      ensures PixelDrawn(before, before, [], color, p)
    {
      OffsetsApart(p, p);
    }
  }

  /** `malowanie_rysuj_piksel`. */
  method CanvasPixel(buffer: array<bv8>, x: int32, y: int32, color: bv32, ghost before: seq<bv8>, ghost path: seq<Point>)
    requires buffer.Length == CANVAS_SIZE && Drawn(before, buffer[..], path, color)
    modifies buffer
    ensures Drawn(before, buffer[..], path + [Point(x as int, y as int)], color)
  {
    hide Drawn, Channel, Offset;
    var p := Point(x as int, y as int);
    ghost var after := buffer[..];
    if x >= 0 && x < 320 && y >= 0 && y < 240 {
      OffsetsApart(p, p);
      var off := Offset(p);
      buffer[off] := Channel(color, 0);
      buffer[off + 1] := Channel(color, 1);
      buffer[off + 2] := Channel(color, 2);
      buffer[off + 3] := Channel(color, 3);
      assert buffer[..] == after[..off] + Pixel(color) + after[off + 4..];
    }
    DrawOne(before, after, buffer[..], path, color, p);
  }

  /** One round of `malowanie_rysuj_liniedo` after the pixel is drawn. */
  method CanvasMove(ghost from: Point, ghost to: Point, dx: int32, dy: int32, sx: int32, sy: int32, x: int32, y: int32, err: int32,
                    ghost i: int, ghost j: int, ghost n: int, ghost d: int)
    returns (x': int32, y': int32, err': int32, ghost i': int, ghost j': int, ghost d': int)
    requires At(from, to, dx as int, dy as int, x as int, y as int, i, j, n, d) && n < Max(dx as int, dy as int)
    requires dx >= 0 && dy >= 0 && CanvasFits(dx as int, dy as int) && err as int == d + StartError(dx as int, dy as int)
    requires sx == (if to.x < from.x then -1 else 1) && sy == (if to.y < from.y then -1 else 1)
    requires InRange(from) && InRange(to)
    ensures At(from, to, dx as int, dy as int, x' as int, y' as int, i', j', n + 1, d')
    ensures err' as int == d' + StartError(dx as int, dy as int)
  {
    hide Progress, OnTrack, CanvasFits;
    x', y', err' := x, y, err;
    var e2 := err;
    ghost var right, down := e2 > -dx, e2 < dy;
    CanvasRound(dx as int, dy as int, i, j, n, d);
    CanvasAdvance(dx as int, dy as int, i, j, n, d, right, down);
    i', j' := i + If(right, 1), j + If(down, 1);
    d' := d - If(right, dy as int) + If(down, dx as int);
    AtPoint(from, to, dx as int, dy as int, Walk(from.x, to.x, i'), Walk(from.y, to.y, j'), i', j', n + 1, d');
    if e2 > -dx {
      err' := err' - dy;
      x' := x' + sx;
    }
    if e2 < dy {
      err' := err' + dx;
      y' := y' + sy;
    }
  }

  /** `malowanie_rysuj_liniedo`, for all ends for which no operation leaves the 32-bit integers. */
  method CanvasLine(buffer: array<bv8>, x0: int32, y0: int32, x1: int32, y1: int32, color: bv32) returns (ghost path: seq<Point>)
    requires buffer.Length == CANVAS_SIZE
    requires Abs(x1 as int - x0 as int) < LIMIT && Abs(y1 as int - y0 as int) < LIMIT
    requires CanvasFits(Abs(x1 as int - x0 as int), Abs(y1 as int - y0 as int))
    modifies buffer
    ensures Traces(Point(x0 as int, y0 as int), Point(x1 as int, y1 as int), path)
    ensures Drawn(old(buffer[..]), buffer[..], path, color)
  {
    hide Progress, OnTrack, Drawn, Walk, CanvasFits;
    ghost var from, to := Point(x0 as int, y0 as int), Point(x1 as int, y1 as int);
    ghost var before := buffer[..];
    var dx, dy := x1 - x0, y1 - y0;
    var sx: int32 := if dx < 0 then -1 else 1;
    var sy: int32 := if dy < 0 then -1 else 1;
    dx := if dx < 0 then -dx else dx;
    dy := if dy < 0 then -dy else dy;
    var err := if dx > dy then dx / 2 else -(dy / 2);
    var cx, cy := x0, y0;
    ghost var i, j, d := 0, 0, 0;
    path := [];
    DrawNone(before, color);
    AtStart(from, to);
    while true
      invariant At(from, to, dx as int, dy as int, cx as int, cy as int, i, j, |path|, d)
      invariant err as int == d + StartError(dx as int, dy as int)
      invariant forall n :: 0 <= n < |path| ==> OnTrack(from, to, n, path[n])
      invariant |path| > 0 ==> path[0] == from
      invariant Drawn(before, buffer[..], path, color)
      decreases Max(dx as int, dy as int) - |path|
    {
      AtPoint(from, to, dx as int, dy as int, cx as int, cy as int, i, j, |path|, d);
      CanvasPixel(buffer, cx, cy, color, before, path);
      path := path + [Point(cx as int, cy as int)];
      if cx == x1 && cy == y1 {
        break;
      }
      cx, cy, err, i, j, d := CanvasMove(from, to, dx, dy, sx, sy, cx, cy, err, i, j, |path| - 1, d);
    }
  }
}
