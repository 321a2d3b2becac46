/** Damage-driven presentation of the desktop: composite what changed, re-blend the menu bar
    and the dock over fresh pixels, and flush what changed to the framebuffer. */
module Display {
  import opened Geometry
  import opened Pixels
  import opened Wrappers

  const MENUBAR_H: nat := 34
  const DOCK_X: int := 14
  const DOCK_W: nat := 64
  const PANEL_H: nat := 357
  const MARGIN: nat := 16
  const CANVAS_W: nat := 80

  datatype MenuInput = MenuInput(focused: string, node: string, healthy: bool, aiLabel: string, dark: bool,
                                 uptime: nat, tokens: nat)
  datatype DockInput = DockInput(model: seq<bool>, hover: Option<nat>, tokens: nat)

  // --- Chrome zones ------------------------------------------------------------

  function Screen(w: nat, h: nat): Rect { Rect(0, 0, w, h) }

  function MenuRect(w: nat): Rect { Rect(0, 0, w, MENUBAR_H) }

  /** Halving as `i32` division does it, toward zero. */
  function TruncHalf(n: int): int { if n >= 0 then n / 2 else -(-n / 2) }

  function PanelRect(h: nat): Rect { Rect(DOCK_X, TruncHalf(h - PANEL_H), DOCK_W, PANEL_H) }

  /** The dock's canvas on the screen: the panel and the margin left of it. */
  function DockRect(h: nat): Rect {
    var panel := PanelRect(h);
    Rect(panel.x - MARGIN, panel.y, CANVAS_W, panel.h)
  }

  function ClampToScreen(r: Rect, w: nat, h: nat): Option<Rect> { Intersect(r, Screen(w, h)) }

  /** `chrome_read_zones`. */
  function MenuZone(w: nat, h: nat): Option<Rect> { ClampToScreen(MenuRect(w), w, h) }
  function DockZone(w: nat, h: nat): Option<Rect> { ClampToScreen(DockRect(h), w, h) }

  ghost predicate SomeScreen(w: nat, h: nat) { 0 < w < 0x7FFF_FFFF && 0 < h < 0x7FFF_FFFF }

  /** The screens on which the two zones lie apart and the panel shows. */
  ghost predicate GoodScreen(w: nat, h: nat) { 14 < w < 0x7FFF_FFFF && 425 <= h < 0x7FFF_FFFF }

  /** The three strips: 34 rows at the top, a panel of 64 by 357 and its canvas of 80 columns two
      columns off the left edge, both centred vertically. */
  lemma StripRects(w: nat, h: nat)
    ensures MenuRect(w) == Rect(0, 0, w, 34)
    ensures h >= 357 ==> PanelRect(h) == Rect(14, (h - 357) / 2, 64, 357)
    ensures h < 357 ==> PanelRect(h) == Rect(14, -((357 - h) / 2), 64, 357)
    ensures DockRect(h) == Rect(-2, PanelRect(h).y, 80, 357)
  {
  }

  /** The menu bar and the dock share no pixel exactly on screens at least 425 rows high. */
  lemma ZonesApartIff(w: nat, h: nat)
    requires SomeScreen(w, h)
    ensures (forall x, y :: On(w, h, x, y) ==> !(Has(MenuRect(w), x, y) && Has(DockRect(h), x, y))) <==> h >= 425
  {
    if h < 425 {
      var y := Max(0, PanelRect(h).y);
      assert On(w, h, 0, y) && Has(MenuRect(w), 0, y) && Has(DockRect(h), 0, y);
    }
  }

  ghost predicate InMenu(w: nat, x: int, y: int) { Has(MenuRect(w), x, y) }
  ghost predicate InDock(h: nat, x: int, y: int) { Has(DockRect(h), x, y) }

  // --- What the whole screen should show ---------------------------------------

  /** The pixels of the menu strip, row by row. */
  ghost function Strip(scene: Scene, w: nat): (s: seq<Color>)
    requires w > 0
    ensures |s| == MENUBAR_H * w
  {
    seq(MENUBAR_H * w, k requires 0 <= k => scene(k % w, k / w))
  }

  ghost function DockCell(scene: Scene, w: nat, h: nat, k: nat): Color {
    var x, y := DockRect(h).x + k % CANVAS_W, DockRect(h).y + k / CANVAS_W;
    if On(w, h, x, y) then scene(x, y) else 0
  }

  /** The pixels under the dock's canvas, row by row; cells off the screen are zero. */
  ghost function Canvas(scene: Scene, w: nat, h: nat): (s: seq<Color>)
    ensures |s| == PANEL_H * CANVAS_W
  {
    seq(PANEL_H * CANVAS_W, k requires 0 <= k => DockCell(scene, w, h, k))
  }

  function Pick(s: seq<Color>, k: int): Color { if 0 <= k < |s| then s[k] else 0 }

  /** One renderer call for each strip, over pure scene pixels. */
  ghost function MenuPixel(strip: seq<Color>, w: nat, x: int, y: int): Color { Pick(strip, y * w + x) }

  ghost function DockPixel(canvas: seq<Color>, h: nat, x: int, y: int): Color {
    Pick(canvas, (y - DockRect(h).y) * CANVAS_W + (x - DockRect(h).x))
  }

  // --- How dirty rectangles meet a zone -----------------------------------------

  ghost predicate Filled(rs: seq<Rect>, z: Rect, w: nat, h: nat) {
    forall x, y :: On(w, h, x, y) && Has(z, x, y) ==> Covers(rs, x, y)
  }

  ghost predicate Untouched(rs: seq<Rect>, z: Rect, w: nat, h: nat) {
    forall x, y :: On(w, h, x, y) && Has(z, x, y) ==> !Covers(rs, x, y)
  }

  /** Some rectangle meets `z`. */
  predicate Meets(rs: seq<Rect>, z: Rect) {
    exists i :: 0 <= i < |rs| && Intersect(rs[i], z).Some?
  }

  predicate Cuts(rs: seq<Rect>, zone: Rect) {
    exists i :: 0 <= i < |rs| && Partial(rs[i], zone)
  }

  lemma NotMet(rs: seq<Rect>, z: Rect, w: nat, h: nat)
    requires AllRepresentable(rs) && Representable(z) && !Meets(rs, z)
    ensures Untouched(rs, z, w, h)
  {
    forall x, y | On(w, h, x, y) && Has(z, x, y) ensures !Covers(rs, x, y) {
      forall i | 0 <= i < |rs| ensures !Has(rs[i], x, y) { IntersectPoints(rs[i], z); }
    }
  }

  /** A zone that is met, but by no rectangle only in part, is held whole by one of them. */
  lemma MetWhole(rs: seq<Rect>, z: Rect, zone: Rect, w: nat, h: nat)
    requires Clamped(rs, Screen(w, h)) && Representable(z) && Representable(Screen(w, h))
    requires ClampToScreen(z, w, h) == Some(zone) && Meets(rs, zone) && !Cuts(rs, zone)
    ensures Filled(rs, z, w, h)
  {
    IntersectPoints(z, Screen(w, h));
    var i :| 0 <= i < |rs| && Intersect(rs[i], zone).Some?;
    forall x, y | On(w, h, x, y) && Has(z, x, y) ensures Covers(rs, x, y) {
      WholeOrPartial(rs[i], zone, x, y);
      assert Has(rs[i], x, y);
    }
  }

  lemma ClampedIsRepresentable(rs: seq<Rect>, screen: Rect)
    requires Clamped(rs, screen)
    ensures AllRepresentable(rs)
  {
  }

  lemma ZoneFacts(w: nat, h: nat)
    requires GoodScreen(w, h)
    ensures Representable(Screen(w, h)) && Representable(MenuRect(w))
    ensures Representable(DockRect(h)) && Representable(PanelRect(h))
    ensures MenuZone(w, h) == Some(MenuRect(w))
    ensures DockZone(w, h).Some? && Representable(DockZone(w, h).value)
    ensures forall x, y :: On(w, h, x, y) ==> !(InMenu(w, x, y) && InDock(h, x, y))
    ensures On(w, h, DOCK_X, PanelRect(h).y) && Has(PanelRect(h), DOCK_X, PanelRect(h).y)
    ensures forall x, y :: Has(PanelRect(h), x, y) ==> Has(DockRect(h), x, y)
  {
  }

  /** On-screen rectangles meet `z` exactly when they reach a pixel of it. */
  lemma MeetsIff(rs: seq<Rect>, z: Rect, w: nat, h: nat)
    requires Clamped(rs, Screen(w, h)) && Representable(z)
    ensures Meets(rs, z) <==> !Untouched(rs, z, w, h)
  {
    ClampedIsRepresentable(rs, Screen(w, h));
    if Meets(rs, z) {
      var i :| 0 <= i < |rs| && Intersect(rs[i], z).Some?;
      var c := Intersect(rs[i], z).value;
      IntersectPoints(rs[i], z);
      Corner(c);
      assert Has(rs[i], c.x, c.y) && Has(z, c.x, c.y);
      assert On(w, h, c.x, c.y) && Covers(rs, c.x, c.y);
    } else {
      NotMet(rs, z, w, h);
    }
  }

  lemma FilledCopy(a: seq<Rect>, b: seq<Rect>, z: Rect, w: nat, h: nat)
    requires forall x, y :: On(w, h, x, y) ==> (Covers(a, x, y) <==> Covers(b, x, y))
    ensures Filled(a, z, w, h) == Filled(b, z, w, h) && Untouched(a, z, w, h) == Untouched(b, z, w, h)
  {
    hide Covers;
  }

  /** A refreshed zone is not an untouched one. */
  lemma FilledNotUntouched(rs: seq<Rect>, z: Rect, w: nat, h: nat, x: int, y: int)
    requires On(w, h, x, y) && Has(z, x, y)
    ensures !(Filled(rs, z, w, h) && Untouched(rs, z, w, h))
  {
    hide Covers;
  }
}
