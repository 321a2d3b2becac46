/** On which screens the two composite passes of `present` leave each chrome zone untouched or fresh. */
module Zones {
  import opened Blit
  import opened Display
  import opened Geometry
  import opened Pixels
  import opened Wrappers

  /** The zones the second pass redraws: those the first one cut. */
  function CutZone(first: seq<Rect>, zone: Option<Rect>): seq<Rect> {
    if zone.Some? && Cuts(first, zone.value) then [zone.value] else []
  }

  function AfterPasses(first: seq<Rect>, w: nat, h: nat): seq<Rect> {
    first + (CutZone(first, MenuZone(w, h)) + CutZone(first, DockZone(w, h)))
  }

  ghost predicate ZonesWhole(first: seq<Rect>, w: nat, h: nat) {
    Whole(AfterPasses(first, w, h), MenuRect(w), w, h) && Whole(AfterPasses(first, w, h), DockRect(h), w, h)
  }

  /** Whatever the first pass drew, the chrome pass reads no stale pixel. */
  ghost predicate AlwaysWhole(w: nat, h: nat) {
    forall first :: Clamped(first, Screen(w, h)) ==> ZonesWhole(first, w, h)
  }

  /** The zones lie apart, or the dock lies inside the menu bar, or the menu bar inside the dock. */
  predicate SoundScreen(w: nat, h: nat) { 425 <= h || h <= 34 || (w <= 78 && h <= 358) }

  /** The documented invariant of the chrome pass holds exactly on these screens. */
  lemma AlwaysWholeIff(w: nat, h: nat)
    requires SomeScreen(w, h)
    ensures AlwaysWhole(w, h) <==> SoundScreen(w, h)
  {
    if SoundScreen(w, h) {
      forall first | Clamped(first, Screen(w, h)) ensures ZonesWhole(first, w, h) {
        ZoneShape(w, h);
        var dirty := AfterPasses(first, w, h);
        if 425 <= h {
          ApartWhole(first, w, h);
        } else if h <= MENUBAR_H {
          NestedWhole(first, dirty, MenuRect(w), MenuZone(w, h).value, DockRect(h), DockZone(w, h).value, w, h);
        } else {
          NestedWhole(first, dirty, DockRect(h), DockZone(w, h).value, MenuRect(w), MenuZone(w, h).value, w, h);
        }
      }
    } else {
      StaleMenu(w, h);
    }
  }

  lemma ZoneShape(w: nat, h: nat)
    requires SomeScreen(w, h)
    ensures Representable(Screen(w, h)) && Representable(MenuRect(w)) && Representable(DockRect(h))
    ensures MenuZone(w, h).Some? && DockZone(w, h).Some?
    ensures Representable(MenuZone(w, h).value) && Representable(DockZone(w, h).value)
  {
  }

  /** Zones apart: redrawing one does not touch the other. */
  lemma ApartWhole(first: seq<Rect>, w: nat, h: nat)
    requires SomeScreen(w, h) && 425 <= h && Clamped(first, Screen(w, h))
    ensures ZonesWhole(first, w, h)
  {
    ZoneShape(w, h);
    var menu, dock := MenuZone(w, h).value, DockZone(w, h).value;
    var extra := CutZone(first, MenuZone(w, h)) + CutZone(first, DockZone(w, h));
    ExtraPasses(first, extra, MenuRect(w), menu, DockRect(h), dock, w, h);
    hide Cuts, Whole, Covers;
    ZoneAfterPasses(first, extra, MenuRect(w), menu, w, h);
    ZoneAfterPasses(first, extra, DockRect(h), dock, w, h);
  }

  lemma ExtraPasses(first: seq<Rect>, extra: seq<Rect>, z: Rect, zone: Rect, y: Rect, other: Rect, w: nat, h: nat)
    requires Representable(z) && Representable(y) && Representable(Screen(w, h))
    requires ClampToScreen(z, w, h) == Some(zone) && ClampToScreen(y, w, h) == Some(other)
    requires extra == CutZone(first, Some(zone)) + CutZone(first, Some(other))
    requires forall px, py :: On(w, h, px, py) ==> !(Has(z, px, py) && Has(y, px, py))
    ensures if Cuts(first, zone) then Filled(extra, z, w, h) else Untouched(extra, z, w, h)
    ensures if Cuts(first, other) then Filled(extra, y, w, h) else Untouched(extra, y, w, h)
  {
    hide Cuts, Covers;
    IntersectPoints(z, Screen(w, h));
    IntersectPoints(y, Screen(w, h));
    forall px, py
      ensures Covers(extra, px, py) <==>
                (Cuts(first, zone) && Has(zone, px, py)) || (Cuts(first, other) && Has(other, px, py))
    {
      CoversConcat(CutZone(first, Some(zone)), CutZone(first, Some(other)), px, py);
      CoversOne(zone, px, py);
      CoversOne(other, px, py);
    }
  }

  /** One zone inside the other: whatever reaches the outer one has it redrawn whole. */
  lemma NestedWhole(first: seq<Rect>, dirty: seq<Rect>, y: Rect, outer: Rect, z: Rect, inner: Rect, w: nat, h: nat)
    requires Clamped(first, Screen(w, h)) && Representable(Screen(w, h)) && Representable(y) && Representable(z)
    requires ClampToScreen(y, w, h) == Some(outer) && ClampToScreen(z, w, h) == Some(inner)
    requires forall px, py :: On(w, h, px, py) && Has(z, px, py) ==> Has(y, px, py)
    requires dirty == first + (CutZone(first, Some(outer)) + CutZone(first, Some(inner))) ||
             dirty == first + (CutZone(first, Some(inner)) + CutZone(first, Some(outer)))
    ensures Whole(dirty, y, w, h) && Whole(dirty, z, w, h)
  {
    IntersectPoints(y, Screen(w, h));
    IntersectPoints(z, Screen(w, h));
    ClampedIsRepresentable(first, Screen(w, h));
    if Cuts(first, outer) {
      assert outer in dirty;
      var k :| 0 <= k < |dirty| && dirty[k] == outer;
      forall px, py | On(w, h, px, py) && Has(y, px, py) ensures Covers(dirty, px, py) {
        assert Has(dirty[k], px, py);
      }
    } else if Meets(first, outer) {
      MetWhole(first, y, outer, w, h);
      var extra := dirty[|first|..];
      assert dirty == first + extra;
      hide Covers;
      forall px, py | On(w, h, px, py) && Has(y, px, py) ensures Covers(dirty, px, py) {
        CoversConcat(first, extra, px, py);
      }
    } else {
      NotMet(first, outer, w, h);
      if Cuts(first, inner) { CutMeets(first, outer, inner); }
      assert dirty == first;
      hide Covers;
    }
  }

  /** What cuts a zone meets every zone around it. */
  lemma CutMeets(first: seq<Rect>, outer: Rect, inner: Rect)
    requires AllRepresentable(first) && Representable(outer) && Representable(inner) && Cuts(first, inner)
    requires forall px, py :: Has(inner, px, py) ==> Has(outer, px, py)
    ensures Meets(first, outer)
  {
    var i :| 0 <= i < |first| && Partial(first[i], inner);
    var c := Intersect(first[i], inner).value;
    IntersectPoints(first[i], inner);
    IntersectPoints(first[i], outer);
    Corner(c);
    assert Has(first[i], c.x, c.y) && Has(outer, c.x, c.y);
  }

  /** Otherwise one damaged pixel under the dock makes the second pass redraw the dock alone, and the
      menu bar, which it overlaps, is left half fresh and half stale. */
  lemma StaleMenu(w: nat, h: nat)
    requires SomeScreen(w, h) && !SoundScreen(w, h)
    ensures !AlwaysWhole(w, h)
  {
    var pixel := Rect(0, MENUBAR_H, 1, 1);
    var first := [pixel];
    ZoneShape(w, h);
    var dock := DockZone(w, h).value;
    assert Clamped(first, Screen(w, h));
    assert !Cuts(first, MenuZone(w, h).value);
    assert Partial(first[0], dock);
    var dirty := AfterPasses(first, w, h);
    assert dirty == [pixel, dock];
    var top := Max(0, PanelRect(h).y);
    assert Has(dirty[1], 0, top) && On(w, h, 0, top) && Has(MenuRect(w), 0, top);
    var x := if w > 78 then 78 else 0;
    assert On(w, h, x, 0) && Has(MenuRect(w), x, 0);
    assert !Has(dirty[0], x, 0) && !Has(dirty[1], x, 0);
    assert !ZonesWhole(first, w, h);
  }

  /** A raised dock flag damages the panel; on screens of at most 14 columns that reaches no pixel. */
  lemma PanelShownIff(w: nat, h: nat)
    requires SomeScreen(w, h)
    ensures ClampToScreen(PanelRect(h), w, h).Some? <==> w > 14
  {
  }
}
