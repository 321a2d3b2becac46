/** Row-major pixel buffers. */
module Pixels {
  import opened Bits
  import opened Geometry

  type Color = nat
  type Scene = (int, int) -> Color

  ghost predicate On(w: nat, h: nat, x: int, y: int) { 0 <= x < w && 0 <= y < h }

  /** The pixel at `(x, y)` of a buffer with rows of `w`. */
  ghost function Px(buf: array<Color>, w: nat, x: int, y: int): Color
    reads buf
  {
    var k := y * w + x;
    if 0 <= k < buf.Length then buf[k] else 0
  }

  lemma IndexInside(w: nat, h: nat, x: int, y: int)
    requires On(w, h, x, y)
    ensures 0 <= y * w + x < h * w
  {
    MulGap(w, y, h);
    assert y * w >= 0;
  }

  lemma IndexInjective(w: nat, x: int, y: int, x': int, y': int)
    requires 0 <= x < w && 0 <= x' < w && y * w + x == y' * w + x'
    ensures x == x' && y == y'
  {
    DivUnique(y * w + x, w, y, x);
    DivUnique(y' * w + x', w, y', x');
  }

  method SetPixel(buf: array<Color>, w: nat, h: nat, x: int, y: int, c: Color)
    requires On(w, h, x, y) && h * w <= buf.Length
    modifies buf
    ensures Px(buf, w, x, y) == c
    ensures forall x', y' :: 0 <= x' < w && (x' != x || y' != y) ==> Px(buf, w, x', y') == old(Px(buf, w, x', y'))
  {
    IndexInside(w, h, x, y);
    buf[y * w + x] := c;
    forall x', y' | 0 <= x' < w && (x' != x || y' != y)
      ensures Px(buf, w, x', y') == old(Px(buf, w, x', y'))
    {
      if y' * w + x' == y * w + x { IndexInjective(w, x, y, x', y'); }
    }
  }

  /** Write `src` into one row segment. */
  method FillRow(buf: array<Color>, w: nat, h: nat, y: int, x0: int, x1: int, src: Scene)
    requires 0 <= x0 <= x1 <= w && 0 <= y < h && h * w <= buf.Length
    modifies buf
    ensures forall x', y' :: 0 <= x' < w ==>
              Px(buf, w, x', y') == if y' == y && x0 <= x' < x1 then src(x', y') else old(Px(buf, w, x', y'))
  {
    for x := x0 to x1
      invariant forall x', y' :: 0 <= x' < w ==>
                  Px(buf, w, x', y') == if y' == y && x0 <= x' < x then src(x', y') else old(Px(buf, w, x', y'))
    {
      SetPixel(buf, w, h, x, y, src(x, y));
    }
  }

  /** Write `src` over a rectangle of the screen. */
  method FillRect(buf: array<Color>, w: nat, h: nat, r: Rect, src: Scene)
    requires Within(r, Rect(0, 0, w, h)) && r.w >= 0 && r.h >= 0 && h * w <= buf.Length
    modifies buf
    ensures forall x', y' :: 0 <= x' < w ==>
              Px(buf, w, x', y') == if Has(r, x', y') then src(x', y') else old(Px(buf, w, x', y'))
  {
    for y := r.y to r.y + r.h
      invariant forall x', y' :: 0 <= x' < w ==>
                  Px(buf, w, x', y') == if Has(r, x', y') && y' < y then src(x', y') else old(Px(buf, w, x', y'))
    {
      FillRow(buf, w, h, y, r.x, r.x + r.w, src);
    }
  }
}
