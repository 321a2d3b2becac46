/** The pixel loops of the present path: scratch copies and the flush to the framebuffer. */
module Blit {
  import opened Bits
  import opened Geometry
  import opened Pixels
  import opened Display
  import opened Wrappers

  /** A zone is either left alone by a frame or refreshed in full. */
  ghost predicate Whole(rs: seq<Rect>, z: Rect, w: nat, h: nat) {
    Untouched(rs, z, w, h) || Filled(rs, z, w, h)
  }

  method CopyPrefix(src: array<Color>, dst: array<Color>, n: nat)
    requires src != dst && n <= src.Length && n <= dst.Length
    modifies dst
    ensures forall k :: 0 <= k < n ==> dst[k] == src[k]
    ensures forall k :: n <= k < dst.Length ==> dst[k] == old(dst[k])
  {
    for k := 0 to n
      invariant forall j :: 0 <= j < k ==> dst[j] == src[j]
      invariant forall j :: k <= j < dst.Length ==> dst[j] == old(dst[j])
    {
      dst[k] := src[k];
    }
  }

  method StoreSeq(dst: array<Color>, s: seq<Color>)
    requires |s| <= dst.Length
    modifies dst
    ensures forall k :: 0 <= k < dst.Length ==> dst[k] == if k < |s| then s[k] else old(dst[k])
  {
    for k := 0 to |s|
      invariant forall j :: 0 <= j < dst.Length ==> dst[j] == if j < k then s[j] else old(dst[j])
    {
      dst[k] := s[k];
    }
  }

  /** The back-buffer index and canvas cell of `copy_rect` for canvas cell `k`. */
  ghost predicate CellOnScreen(w: nat, h: nat, k: nat) {
    On(w, h, DockRect(h).x + k % CANVAS_W, DockRect(h).y + k / CANVAS_W)
  }

  lemma CellIndex(cy: nat, cx: nat)
    requires cx < CANVAS_W
    ensures (cy * CANVAS_W + cx) % CANVAS_W == cx && (cy * CANVAS_W + cx) / CANVAS_W == cy
  {
    DivUnique(cy * CANVAS_W + cx, CANVAS_W, cy, cx);
  }

  /** One row of `copy_rect`, back buffer to scratch. */
  method CopyRowIn(back: array<Color>, w: nat, h: nat, scratch: array<Color>, cy: nat)
    requires back != scratch && h * w <= back.Length && scratch.Length == PANEL_H * CANVAS_W && cy < PANEL_H
    requires 0 <= DockRect(h).y + cy < h
    modifies scratch
    ensures forall k :: 0 <= k < scratch.Length ==>
              scratch[k] == if cy * CANVAS_W <= k < cy * CANVAS_W + CANVAS_W && CellOnScreen(w, h, k)
                            then Px(back, w, DockRect(h).x + k % CANVAS_W, DockRect(h).y + cy) else old(scratch[k])
  {
    var y := DockRect(h).y + cy;
    for cx := 0 to CANVAS_W
      invariant forall k :: 0 <= k < scratch.Length ==>
                  scratch[k] == if cy * CANVAS_W <= k < cy * CANVAS_W + cx && CellOnScreen(w, h, k)
                                then Px(back, w, DockRect(h).x + k % CANVAS_W, y) else old(scratch[k])
    {
      var x := DockRect(h).x + cx;
      CellIndex(cy, cx);
      if 0 <= x < w {
        IndexInside(w, h, x, y);
        scratch[cy * CANVAS_W + cx] := back[y * w + x];
      }
    }
  }

  /** `copy_rect` from the back buffer into the dock scratch. */
  method CopyRectIn(back: array<Color>, w: nat, h: nat, scratch: array<Color>)
    requires back != scratch && h * w <= back.Length && scratch.Length == PANEL_H * CANVAS_W
    modifies scratch
    ensures forall k :: 0 <= k < scratch.Length ==>
              scratch[k] == if CellOnScreen(w, h, k)
                            then Px(back, w, DockRect(h).x + k % CANVAS_W, DockRect(h).y + k / CANVAS_W)
                            else old(scratch[k])
  {
    for cy := 0 to PANEL_H
      invariant forall k :: 0 <= k < scratch.Length ==>
                  scratch[k] == if k < cy * CANVAS_W && CellOnScreen(w, h, k)
                                then Px(back, w, DockRect(h).x + k % CANVAS_W, DockRect(h).y + k / CANVAS_W)
                                else old(scratch[k])
    {
      RowCells(cy);
      if 0 <= DockRect(h).y + cy < h {
        CopyRowIn(back, w, h, scratch, cy);
      }
    }
  }

  lemma RowCells(cy: nat)
    ensures forall k: nat :: cy * CANVAS_W <= k < cy * CANVAS_W + CANVAS_W ==> k / CANVAS_W == cy
  {
    forall k: nat | cy * CANVAS_W <= k < cy * CANVAS_W + CANVAS_W ensures k / CANVAS_W == cy {
      CellIndex(cy, k - cy * CANVAS_W);
    }
  }

  /** One row of `copy_rect`, scratch to back buffer. */
  method CopyRowOut(back: array<Color>, w: nat, h: nat, scratch: array<Color>, cy: nat)
    requires back != scratch && h * w <= back.Length && scratch.Length == PANEL_H * CANVAS_W && cy < PANEL_H
    requires 0 <= DockRect(h).y + cy < h
    modifies back
    ensures forall x, y :: 0 <= x < w ==>
              Px(back, w, x, y) == if InDock(h, x, y) && y == DockRect(h).y + cy
                                   then DockPixel(scratch[..], h, x, y) else old(Px(back, w, x, y))
  {
    var y0 := DockRect(h).y + cy;
    for cx := 0 to CANVAS_W
      invariant forall x, y :: 0 <= x < w ==>
                  Px(back, w, x, y) == if InDock(h, x, y) && y == y0 && x < DockRect(h).x + cx
                                       then DockPixel(scratch[..], h, x, y) else old(Px(back, w, x, y))
    {
      var x := DockRect(h).x + cx;
      if 0 <= x < w {
        SetPixel(back, w, h, x, y0, scratch[cy * CANVAS_W + cx]);
      }
    }
  }

  /** `copy_rect` from the dock scratch into the back buffer. */
  method CopyRectOut(back: array<Color>, w: nat, h: nat, scratch: array<Color>)
    requires back != scratch && h * w <= back.Length && scratch.Length == PANEL_H * CANVAS_W
    modifies back
    ensures forall x, y :: On(w, h, x, y) ==>
              Px(back, w, x, y) == if InDock(h, x, y) then DockPixel(scratch[..], h, x, y) else old(Px(back, w, x, y))
  {
    for cy := 0 to PANEL_H
      invariant forall x, y :: On(w, h, x, y) ==>
                  Px(back, w, x, y) == if InDock(h, x, y) && y < DockRect(h).y + cy
                                       then DockPixel(scratch[..], h, x, y) else old(Px(back, w, x, y))
    {
      if 0 <= DockRect(h).y + cy < h {
        CopyRowOut(back, w, h, scratch, cy);
      }
    }
  }

  /** Flush one row of a dirty rectangle to the framebuffer. */
  method BlitRow(back: array<Color>, front: array<Color>, w: nat, h: nat, stride: nat, y: int, x0: int, x1: int)
    requires back != front && w <= stride && h * w <= back.Length && h * stride <= front.Length
    requires 0 <= y < h && 0 <= x0 <= x1 <= w
    modifies front
    ensures forall x', y' :: 0 <= x' < stride ==>
              Px(front, stride, x', y') == if y' == y && x0 <= x' < x1 then Px(back, w, x', y')
                                           else old(Px(front, stride, x', y'))
  {
    for x := x0 to x1
      invariant forall x', y' :: 0 <= x' < stride ==>
                  Px(front, stride, x', y') == if y' == y && x0 <= x' < x then Px(back, w, x', y')
                                               else old(Px(front, stride, x', y'))
    {
      IndexInside(w, h, x, y);
      SetPixel(front, stride, h, x, y, back[y * w + x]);
    }
  }

  method BlitRect(back: array<Color>, front: array<Color>, w: nat, h: nat, stride: nat, r: Rect)
    requires back != front && w <= stride && h * w <= back.Length && h * stride <= front.Length
    requires Within(r, Screen(w, h)) && r.w >= 0 && r.h >= 0
    modifies front
    ensures forall x', y' :: 0 <= x' < stride ==>
              Px(front, stride, x', y') == if Has(r, x', y') then Px(back, w, x', y')
                                           else old(Px(front, stride, x', y'))
  {
    var x1, y1 := Min(r.x + r.w, w), Min(r.y + r.h, h);
    for y := r.y to y1
      invariant forall x', y' :: 0 <= x' < stride ==>
                  Px(front, stride, x', y') == if Has(r, x', y') && y' < y then Px(back, w, x', y')
                                               else old(Px(front, stride, x', y'))
    {
      BlitRow(back, front, w, h, stride, y, r.x, x1);
    }
  }

  /** The blit loop of `present`: afterwards the framebuffer shows the back buffer wherever a
      dirty rectangle reaches, and is unchanged elsewhere. */
  method BlitAll(back: array<Color>, front: array<Color>, w: nat, h: nat, stride: nat, dirty: seq<Rect>)
    requires back != front && w <= stride && h * w <= back.Length && h * stride <= front.Length
    requires Clamped(dirty, Screen(w, h))
    modifies front
    ensures forall x, y :: On(w, h, x, y) ==>
              Px(front, stride, x, y) == if Covers(dirty, x, y) then Px(back, w, x, y) else old(Px(front, stride, x, y))
  {
    for i := 0 to |dirty|
      invariant forall x, y :: On(w, h, x, y) ==>
                  Px(front, stride, x, y) == if Covers(dirty[..i], x, y) then Px(back, w, x, y)
                                             else old(Px(front, stride, x, y))
    {
      BlitRect(back, front, w, h, stride, dirty[i]);
      forall x, y ensures Covers(dirty[..i + 1], x, y) <==> Covers(dirty[..i], x, y) || Has(dirty[i], x, y) {
        CoversSnoc(dirty, i, x, y);
      }
    }
    assert dirty[..|dirty|] == dirty;
  }

  lemma CoversSnoc(rs: seq<Rect>, i: nat, x: int, y: int)
    requires i < |rs|
    ensures Covers(rs[..i + 1], x, y) <==> Covers(rs[..i], x, y) || Has(rs[i], x, y)
  {
    CoversConcat(rs[..i], [rs[i]], x, y);
    CoversCons(rs[i], [], x, y);
    assert rs[..i + 1] == rs[..i] + [rs[i]] && [rs[i]] == [rs[i]] + [];
  }

  /** Redraw every rectangle of `dirty` from the scene. */
  method FillAll(buf: array<Color>, w: nat, h: nat, dirty: seq<Rect>, scene: Scene)
    requires Clamped(dirty, Screen(w, h)) && h * w <= buf.Length
    modifies buf
    ensures forall x, y :: On(w, h, x, y) ==>
              Px(buf, w, x, y) == if Covers(dirty, x, y) then scene(x, y) else old(Px(buf, w, x, y))
  {
    for i := 0 to |dirty|
      invariant forall x, y :: On(w, h, x, y) ==>
                  Px(buf, w, x, y) == if Covers(dirty[..i], x, y) then scene(x, y) else old(Px(buf, w, x, y))
    {
      FillRect(buf, w, h, dirty[i], scene);
      forall x, y ensures Covers(dirty[..i + 1], x, y) <==> Covers(dirty[..i], x, y) || Has(dirty[i], x, y) {
        CoversSnoc(dirty, i, x, y);
      }
    }
    assert dirty[..|dirty|] == dirty;
  }

  // --- Zones over the two composite passes -----------------------------------------

  ghost predicate SameCover(a: seq<Rect>, b: seq<Rect>, w: nat, h: nat) {
    forall x, y :: On(w, h, x, y) ==> (Covers(a, x, y) <==> Covers(b, x, y))
  }

  ghost predicate MoreCover(a: seq<Rect>, b: seq<Rect>, w: nat, h: nat) {
    forall x, y :: On(w, h, x, y) && Covers(a, x, y) ==> Covers(b, x, y)
  }

  /** A zone cut by the first pass and refilled by the second, or not cut at all, is whole. */
  lemma ZoneAfterPasses(first: seq<Rect>, extra: seq<Rect>, z: Rect, zone: Rect, w: nat, h: nat)
    requires Clamped(first, Screen(w, h)) && Representable(z) && Representable(Screen(w, h))
    requires ClampToScreen(z, w, h) == Some(zone)
    requires if Cuts(first, zone) then Filled(extra, z, w, h) else Untouched(extra, z, w, h)
    ensures Whole(first + extra, z, w, h)
    ensures Filled(first, z, w, h) ==> Filled(first + extra, z, w, h)
  {
    hide Cuts, Meets;
    IntersectPoints(z, Screen(w, h));
    ClampedIsRepresentable(first, Screen(w, h));
    forall x, y ensures Covers(first + extra, x, y) <==> Covers(first, x, y) || Covers(extra, x, y) {
      CoversConcat(first, extra, x, y);
    }
    hide Covers;
    if !Cuts(first, zone) {
      if Meets(first, zone) {
        MetWhole(first, z, zone, w, h);
      } else {
        NotMet(first, zone, w, h);
      }
    }
  }

  /** What the second pass redraws: exactly the zones the first one cut. */
  lemma CutZones(extra: seq<Rect>, marked: seq<Rect>, cutMenu: bool, cutDock: bool, w: nat, h: nat)
    requires GoodScreen(w, h) && SameCover(extra, marked, w, h)
    requires marked == (if cutMenu then [MenuZone(w, h).value] else []) +
                       (if cutDock then [DockZone(w, h).value] else [])
    ensures if cutMenu then Filled(extra, MenuRect(w), w, h) else Untouched(extra, MenuRect(w), w, h)
    ensures if cutDock then Filled(extra, DockRect(h), w, h) else Untouched(extra, DockRect(h), w, h)
  {
    ZoneFacts(w, h);
    IntersectPoints(DockRect(h), Screen(w, h));
    var menu, panel := MenuZone(w, h).value, DockZone(w, h).value;
    forall x, y | On(w, h, x, y)
      ensures Covers(marked, x, y) <==> (cutMenu && Has(menu, x, y)) || (cutDock && Has(panel, x, y))
    {
      CoversConcat(if cutMenu then [menu] else [], if cutDock then [panel] else [], x, y);
      CoversOne(menu, x, y);
      CoversOne(panel, x, y);
    }
  }

  lemma CoversOne(r: Rect, x: int, y: int)
    ensures Covers([r], x, y) <==> Has(r, x, y)
    ensures !Covers([], x, y)
  {
    assert [r][0] == r;
  }
}
