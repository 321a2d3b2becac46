/** Screen rectangles and the bounded damage region of the compositor. */
module Geometry {
  import opened Wrappers

  const U32_MAX: int := 0xFFFF_FFFF
  const MAX_DAMAGE_RECTS: nat := 16

  datatype Rect = Rect(x: int, y: int, w: int, h: int)

  /** The values an `i32` origin and `u32` dimensions can take. */
  ghost predicate Representable(r: Rect) {
    && -0x8000_0000 <= r.x <= 0x7FFF_FFFF && -0x8000_0000 <= r.y <= 0x7FFF_FFFF
    && 0 <= r.w <= 0xFFFF_FFFF && 0 <= r.h <= 0xFFFF_FFFF
  }

  function Min(a: int, b: int): int { if a < b then a else b }
  function Max(a: int, b: int): int { if a < b then b else a }

  predicate IsEmpty(r: Rect) { r.w == 0 || r.h == 0 }

  predicate Has(r: Rect, px: int, py: int) {
    r.x <= px < r.x + r.w && r.y <= py < r.y + r.h
  }

  function Intersect(a: Rect, b: Rect): Option<Rect> {
    var x0, y0 := Max(a.x, b.x), Max(a.y, b.y);
    var x1, y1 := Min(a.x + a.w, b.x + b.w), Min(a.y + a.h, b.y + b.h);
    if x1 <= x0 || y1 <= y0 then None
    else Some(Rect(x0, y0, Min(x1 - x0, U32_MAX), Min(y1 - y0, U32_MAX)))
  }

  function Union(a: Rect, b: Rect): Rect {
    if IsEmpty(a) then b
    else if IsEmpty(b) then a
    else
      var x0, y0 := Min(a.x, b.x), Min(a.y, b.y);
      var x1, y1 := Max(a.x + a.w, b.x + b.w), Max(a.y + a.h, b.y + b.h);
      Rect(x0, y0, Min(x1 - x0, U32_MAX), Min(y1 - y0, U32_MAX))
  }

  /** The intersection holds exactly the common points, and is absent exactly when there are none. */
  lemma IntersectPoints(a: Rect, b: Rect)
    requires Representable(a) && Representable(b)
    ensures forall px, py :: Has(a, px, py) && Has(b, px, py) <==>
              Intersect(a, b).Some? && Has(Intersect(a, b).value, px, py)
    ensures Intersect(a, b).Some? ==> Representable(Intersect(a, b).value) && !IsEmpty(Intersect(a, b).value)
  {
  }

  /** A point inside a rectangle that has points. */
  lemma Corner(r: Rect)
    requires 0 <= r.w && 0 <= r.h && !IsEmpty(r)
    ensures Has(r, r.x, r.y)
  {
  }

  /** `d` cuts `zone` without holding all of it. */
  predicate Partial(d: Rect, zone: Rect) {
    Intersect(d, zone).Some? && Intersect(d, zone).value != zone
  }

  /** It cuts a zone exactly when it reaches some points of it and misses some. */
  lemma PartialIff(d: Rect, zone: Rect)
    requires Representable(d) && Representable(zone)
    ensures Partial(d, zone) <==>
              && (exists x, y :: Has(d, x, y) && Has(zone, x, y))
              && (exists x, y :: !Has(d, x, y) && Has(zone, x, y))
  {
    IntersectPoints(d, zone);
    if Partial(d, zone) {
      var c := Intersect(d, zone).value;
      Corner(c);
      assert Has(d, c.x, c.y) && Has(zone, c.x, c.y);
      var x, y := if zone.x < d.x then zone.x else if d.x + d.w < zone.x + zone.w then zone.x + zone.w - 1 else c.x,
                  if zone.y < d.y then zone.y else if d.y + d.h < zone.y + zone.h then zone.y + zone.h - 1 else c.y;
      assert !Has(d, x, y) && Has(zone, x, y);
    }
  }

  lemma WholeOrPartial(d: Rect, zone: Rect, px: int, py: int)
    requires Representable(d) && Representable(zone) && Intersect(d, zone).Some? && Has(zone, px, py)
    ensures !Partial(d, zone) ==> Has(d, px, py)
  {
    IntersectPoints(d, zone);
  }

  // --- Damage ------------------------------------------------------------------

  ghost predicate Covers(rs: seq<Rect>, px: int, py: int) {
    exists i :: 0 <= i < |rs| && Has(rs[i], px, py)
  }

  ghost predicate AllRepresentable(rs: seq<Rect>) {
    forall i :: 0 <= i < |rs| ==> Representable(rs[i])
  }

  function Bound(acc: Rect, rs: seq<Rect>): Rect
    decreases |rs|
  {
    if rs == [] then acc else Bound(Union(acc, rs[0]), rs[1..])
  }

  /** `DamageRegion::add`. */
  function AddDamage(rs: seq<Rect>, r: Rect): seq<Rect> {
    if IsEmpty(r) then rs
    else if |rs| < MAX_DAMAGE_RECTS then rs + [r]
    else [Bound(r, rs)]
  }

  /** Where a screen pixel can be: below the largest coordinate a rectangle's origin can have. */
  ghost predicate ScreenPoint(px: int, py: int) { 0 <= px < 0x7FFF_FFFF && 0 <= py < 0x7FFF_FFFF }

  lemma UnionCovers(a: Rect, b: Rect, px: int, py: int)
    requires Representable(a) && Representable(b) && ScreenPoint(px, py)
    ensures Representable(Union(a, b))
    ensures Has(a, px, py) || Has(b, px, py) ==> Has(Union(a, b), px, py)
  {
  }

  /** The union is the least box around two rectangles with points. */
  lemma UnionIsLeast(a: Rect, b: Rect, box: Rect)
    requires !IsEmpty(a) && !IsEmpty(b) && Within(a, box) && Within(b, box)
    ensures Within(Union(a, b), box)
    ensures Representable(a) && Representable(b) ==> !IsEmpty(Union(a, b))
  {
  }

  lemma {:induction false} BoundIsLeast(acc: Rect, rs: seq<Rect>, box: Rect)
    requires Representable(acc) && AllRepresentable(rs) && !IsEmpty(acc) && Within(acc, box)
    requires forall i :: 0 <= i < |rs| ==> !IsEmpty(rs[i]) && Within(rs[i], box)
    ensures Within(Bound(acc, rs), box)
    decreases |rs|
  {
    if rs != [] {
      UnionIsLeast(acc, rs[0], box);
      UnionCovers(acc, rs[0], 0, 0);
      BoundIsLeast(Union(acc, rs[0]), rs[1..], box);
    }
  }

  /** Empty rectangles are ignored; up to sixteen are kept as they are, in order; one more collapses
      them all to one box, and that box lies in every box around them. */
  lemma AddDamageIs(rs: seq<Rect>, r: Rect, box: Rect)
    requires AllRepresentable(rs) && Representable(r)
    ensures r.w == 0 || r.h == 0 ==> AddDamage(rs, r) == rs
    ensures r.w > 0 && r.h > 0 && |rs| < 16 ==> AddDamage(rs, r) == rs + [r]
    ensures r.w > 0 && r.h > 0 && |rs| >= 16 ==> |AddDamage(rs, r)| == 1
    ensures r.w > 0 && r.h > 0 && |rs| >= 16 && Within(r, box) &&
            (forall i :: 0 <= i < |rs| ==> !IsEmpty(rs[i]) && Within(rs[i], box)) ==>
              Within(AddDamage(rs, r)[0], box)
  {
    if !IsEmpty(r) && Within(r, box) && (forall i :: 0 <= i < |rs| ==> !IsEmpty(rs[i]) && Within(rs[i], box)) {
      BoundIsLeast(r, rs, box);
    }
  }

  lemma {:induction false} BoundCovers(acc: Rect, rs: seq<Rect>, px: int, py: int)
    requires Representable(acc) && AllRepresentable(rs) && ScreenPoint(px, py)
    ensures Representable(Bound(acc, rs))
    ensures Has(acc, px, py) || Covers(rs, px, py) ==> Has(Bound(acc, rs), px, py)
    decreases |rs|
  {
    if rs != [] {
      UnionCovers(acc, rs[0], px, py);
      BoundCovers(Union(acc, rs[0]), rs[1..], px, py);
      if Covers(rs, px, py) {
        var i :| 0 <= i < |rs| && Has(rs[i], px, py);
        if i > 0 { assert Has(rs[1..][i - 1], px, py); }
      }
    }
  }

  /** Adding damage never loses a screen pixel, even when the region collapses to its bounding
      box and the box saturates; and it keeps the region within its bound. */
  lemma AddDamageCovers(rs: seq<Rect>, r: Rect, px: int, py: int)
    requires AllRepresentable(rs) && Representable(r) && |rs| <= MAX_DAMAGE_RECTS
    ensures AllRepresentable(AddDamage(rs, r)) && |AddDamage(rs, r)| <= MAX_DAMAGE_RECTS
    ensures ScreenPoint(px, py) && (Covers(rs, px, py) || Has(r, px, py)) ==> Covers(AddDamage(rs, r), px, py)
  {
    var out := AddDamage(rs, r);
    if !IsEmpty(r) && |rs| == MAX_DAMAGE_RECTS {
      BoundCovers(r, rs, 0, 0);
      if ScreenPoint(px, py) {
        BoundCovers(r, rs, px, py);
        if Covers(rs, px, py) || Has(r, px, py) { assert Has(out[0], px, py); }
      }
    } else if !IsEmpty(r) {
      assert out == rs + [r];
      if Has(r, px, py) { assert Has(out[|rs|], px, py); }
      if Covers(rs, px, py) {
        var i :| 0 <= i < |rs| && Has(rs[i], px, py);
        assert Has(out[i], px, py);
      }
    }
  }

  /** `DamageRegion::clamp_all_to`. */
  function ClampAll(rs: seq<Rect>, screen: Rect): seq<Rect> {
    if rs == [] then []
    else
      var rest := ClampAll(rs[1..], screen);
      match Intersect(rs[0], screen)
      case None => rest
      case Some(c) => [c] + rest
  }

  ghost predicate Within(r: Rect, screen: Rect) {
    screen.x <= r.x && r.x + r.w <= screen.x + screen.w && screen.y <= r.y && r.y + r.h <= screen.y + screen.h
  }

  /** Rectangles with points, all inside the screen. */
  ghost predicate Clamped(rs: seq<Rect>, screen: Rect) {
    forall i :: 0 <= i < |rs| ==> Representable(rs[i]) && !IsEmpty(rs[i]) && Within(rs[i], screen)
  }

  /** Clamping drops exactly the points off the screen. */
  lemma {:induction false} ClampAllCovers(rs: seq<Rect>, screen: Rect, px: int, py: int)
    requires AllRepresentable(rs) && Representable(screen)
    ensures Clamped(ClampAll(rs, screen), screen)
    ensures Covers(ClampAll(rs, screen), px, py) <==> Covers(rs, px, py) && Has(screen, px, py)
  {
    if rs != [] {
      ClampAllCovers(rs[1..], screen, px, py);
      IntersectPoints(rs[0], screen);
      CoversCons(rs[0], rs[1..], px, py);
      assert rs == [rs[0]] + rs[1..];
      if Intersect(rs[0], screen).Some? {
        CoversCons(Intersect(rs[0], screen).value, ClampAll(rs[1..], screen), px, py);
      }
    }
  }

  lemma CoversCons(r: Rect, rs: seq<Rect>, px: int, py: int)
    ensures Covers([r] + rs, px, py) <==> Has(r, px, py) || Covers(rs, px, py)
  {
    CoversConcat([r], rs, px, py);
    assert [r][0] == r;
  }

  lemma CoversConcat(a: seq<Rect>, b: seq<Rect>, px: int, py: int)
    ensures Covers(a + b, px, py) <==> Covers(a, px, py) || Covers(b, px, py)
  {
    if Covers(a, px, py) {
      var i :| 0 <= i < |a| && Has(a[i], px, py);
      assert Has((a + b)[i], px, py);
    }
    if Covers(b, px, py) {
      var i :| 0 <= i < |b| && Has(b[i], px, py);
      assert Has((a + b)[|a| + i], px, py);
    }
  }
}
