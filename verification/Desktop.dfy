/** The presented desktop: compositor damage, back buffer, chrome state and framebuffer. */
module Desktop {
  import opened Bits
  import opened Geometry
  import opened Pixels
  import opened Display
  import opened Blit
  import opened Wrappers

  class Desktop {
    const w: nat
    const h: nat
    const stride: nat
    const back: array<Color>
    const front: array<Color>
    const menuScratch: array<Color>
    const dockScratch: array<Color>
    const menuRender: (MenuInput, seq<Color>) -> seq<Color>
    const dockRender: (DockInput, seq<Color>) -> seq<Color>

    // The compositor: what it would draw, and what it knows to be stale.
    var scene: Scene
    var damage: seq<Rect>

    // The chrome model and its dirty flags.
    var focused: string
    var node: string
    var healthy: bool
    var aiLabel: string
    var dark: bool
    var needsRepaint: bool
    var dock: seq<bool>
    var hover: Option<nat>
    var dockDirty: bool

    // What each strip was last painted from.
    ghost var shownMenu: MenuInput
    ghost var shownDock: DockInput

    ghost predicate Valid()
      reads this
    {
      && GoodScreen(w, h) && w <= stride
      && h * stride <= front.Length
      && menuScratch.Length == MENUBAR_H * w && dockScratch.Length == PANEL_H * CANVAS_W
      && back != front && back != menuScratch && back != dockScratch
      && front != menuScratch && front != dockScratch && menuScratch != dockScratch
      && (forall i, s :: |menuRender(i, s)| == |s|) && (forall i, s :: |dockRender(i, s)| == |s|)
      && AllRepresentable(damage) && |damage| <= MAX_DAMAGE_RECTS
    }

    /** The back buffer holds a whole screen. */
    ghost predicate Ready() { h * w <= back.Length }

    ghost function MenuNow(uptime: nat, tokens: nat): MenuInput
      reads this
    {
      MenuInput(focused, node, healthy, aiLabel, dark, uptime, tokens)
    }

    ghost function DockNow(tokens: nat): DockInput
      reads this
    {
      DockInput(dock, hover, tokens)
    }

    /** Mark `r` stale. */
    method Damage(r: Rect)
      requires Valid() && Representable(r)
      modifies this`damage
      ensures Valid() && damage == AddDamage(old(damage), r)
      ensures MoreCover(old(damage), damage, w, h)
      ensures forall x, y :: On(w, h, x, y) && Has(r, x, y) ==> Covers(damage, x, y)
    {
      AddDamageCovers(damage, r, 0, 0);
      forall x, y | On(w, h, x, y) && (Covers(damage, x, y) || Has(r, x, y))
        ensures Covers(AddDamage(damage, r), x, y)
      {
        AddDamageCovers(damage, r, x, y);
      }
      damage := AddDamage(damage, r);
    }

    /** `composite`: redraw every stale screen pixel from the scene and report where. */
    method Composite() returns (dirty: seq<Rect>)
      requires Valid() && Ready()
      modifies this`damage, back
      ensures Valid() && damage == [] && Clamped(dirty, Screen(w, h))
      ensures SameCover(dirty, old(damage), w, h)
      ensures forall x, y :: On(w, h, x, y) ==>
                Px(back, w, x, y) == if Covers(dirty, x, y) then scene(x, y) else old(Px(back, w, x, y))
    {
      hide Clamped, Covers;
      dirty := ClampAll(damage, Screen(w, h));
      ZoneFacts(w, h);
      ClampAllCovers(damage, Screen(w, h), 0, 0);
      forall x, y | On(w, h, x, y) ensures Covers(dirty, x, y) <==> Covers(damage, x, y) {
        ClampAllCovers(damage, Screen(w, h), x, y);
      }
      damage := [];
      FillAll(back, w, h, dirty, scene);
    }

    /** The first composite pass, after the dirty flags marked their strips. */
    method FirstPass() returns (first: seq<Rect>)
      requires Valid() && Ready()
      modifies this`damage, back
      ensures Valid() && damage == [] && Clamped(first, Screen(w, h))
      ensures MoreCover(old(damage), first, w, h)
      ensures forall x, y :: On(w, h, x, y) ==>
                Px(back, w, x, y) == if Covers(first, x, y) then scene(x, y) else old(Px(back, w, x, y))
      ensures needsRepaint ==> Filled(first, MenuRect(w), w, h)
      ensures dockDirty ==> Covers(first, DOCK_X, PanelRect(h).y)
    {
      hide Covers, Clamped, AddDamage;
      ZoneFacts(w, h);
      if needsRepaint {
        Damage(MenuRect(w));
      }
      if dockDirty {
        Damage(PanelRect(h));
      }
      first := Composite();
    }

    /** The two composite passes of `present`. Afterwards every reported pixel is a fresh scene
        pixel, nothing else changed, and each chrome zone was either left alone or redrawn whole. */
    method Recomposite() returns (dirty: seq<Rect>)
      requires Valid() && Ready()
      modifies this`damage, back
      ensures Valid() && damage == [] && Clamped(dirty, Screen(w, h))
      ensures MoreCover(old(damage), dirty, w, h)
      ensures forall x, y :: On(w, h, x, y) ==>
                Px(back, w, x, y) == if Covers(dirty, x, y) then scene(x, y) else old(Px(back, w, x, y))
      ensures Whole(dirty, MenuRect(w), w, h) && Whole(dirty, DockRect(h), w, h)
      ensures needsRepaint ==> Filled(dirty, MenuRect(w), w, h)
      ensures dockDirty ==> Filled(dirty, DockRect(h), w, h)
    {
      hide Clamped, Covers, Cuts;
      ZoneFacts(w, h);
      var first := FirstPass();
      var extra := SecondPass(first);
      dirty := first + extra;
      forall x, y ensures Covers(dirty, x, y) <==> Covers(first, x, y) || Covers(extra, x, y) {
        CoversConcat(first, extra, x, y);
      }
      ZoneAfterPasses(first, extra, MenuRect(w), MenuZone(w, h).value, w, h);
      ZoneAfterPasses(first, extra, DockRect(h), DockZone(w, h).value, w, h);
      ClampedConcat(first, extra, Screen(w, h));
      assert dockDirty ==> Covers(dirty, DOCK_X, PanelRect(h).y);
    }

    /** The second pass: any zone that the first pass redrew only in part is redrawn whole. */
    method SecondPass(first: seq<Rect>) returns (extra: seq<Rect>)
      requires Valid() && Ready() && damage == [] && MenuZone(w, h).Some? && DockZone(w, h).Some?
      modifies this`damage, back
      ensures Valid() && damage == [] && Clamped(extra, Screen(w, h))
      ensures forall x, y :: On(w, h, x, y) ==>
                Px(back, w, x, y) == if Covers(extra, x, y) then scene(x, y) else old(Px(back, w, x, y))
      ensures if Cuts(first, MenuZone(w, h).value) then Filled(extra, MenuRect(w), w, h)
              else Untouched(extra, MenuRect(w), w, h)
      ensures if Cuts(first, DockZone(w, h).value) then Filled(extra, DockRect(h), w, h)
              else Untouched(extra, DockRect(h), w, h)
    {
      hide Cuts, Clamped, Covers, Filled, Untouched;
      ZoneFacts(w, h);
      var menu, panel := MenuZone(w, h).value, DockZone(w, h).value;
      ZonesNotEmpty(w, h);
      var cutMenu, cutDock := Cuts(first, menu), Cuts(first, panel);
      if cutMenu {
        Damage(menu);
      }
      if cutDock {
        Damage(panel);
      }
      ghost var marked := damage;
      assert marked == (if cutMenu then [menu] else []) + (if cutDock then [panel] else []);
      extra := [];
      if cutMenu || cutDock {
        extra := Composite();
      } else {
        NothingClamped(Screen(w, h));
      }
      CutZones(extra, marked, cutMenu, cutDock, w, h);
    }

    // --- The chrome pass -------------------------------------------------------------

    /** Re-blend the menu strip over the scene pixels now in the back buffer. */
    method PaintMenu(uptime: nat, tokens: nat)
      requires Valid() && Ready()
      requires forall x, y :: On(w, h, x, y) && InMenu(w, x, y) ==> Px(back, w, x, y) == scene(x, y)
      modifies back, menuScratch, this`needsRepaint, this`shownMenu
      ensures Valid() && !needsRepaint && shownMenu == old(MenuNow(uptime, tokens))
      ensures forall x, y :: On(w, h, x, y) ==>
                Px(back, w, x, y) == if InMenu(w, x, y) then MenuPixel(menuRender(shownMenu, Strip(scene, w)), w, x, y)
                                     else old(Px(back, w, x, y))
    {
      var len := MENUBAR_H * w;
      StripInside(w, h);
      CopyPrefix(back, menuScratch, len);
      StripRead(back, menuScratch, scene, w, h);
      var out := menuRender(MenuInput(focused, node, healthy, aiLabel, dark, uptime, tokens), menuScratch[..]);
      StoreSeq(menuScratch, out);
      assert menuScratch[..] == out;
      label Painted:
      CopyPrefix(menuScratch, back, len);
      StripWritten(w, h);
      shownMenu := MenuNow(uptime, tokens);
      needsRepaint := false;
    }

    /** The menu half of `repaint_chrome`: paints exactly when the strip was refreshed. */
    method RepaintMenu(dirty: seq<Rect>, uptime: nat, tokens: nat) returns (out: seq<Rect>)
      requires Valid() && Ready() && Clamped(dirty, Screen(w, h))
      requires Whole(dirty, MenuRect(w), w, h) && (needsRepaint ==> Filled(dirty, MenuRect(w), w, h))
      requires forall x, y :: On(w, h, x, y) && Covers(dirty, x, y) ==> Px(back, w, x, y) == scene(x, y)
      modifies back, menuScratch, this`needsRepaint, this`shownMenu
      ensures Valid() && Clamped(out, Screen(w, h)) && SameCover(out, dirty, w, h) && !needsRepaint
      ensures Untouched(dirty, MenuRect(w), w, h) ==> shownMenu == old(shownMenu)
      ensures Filled(dirty, MenuRect(w), w, h) ==> shownMenu == old(MenuNow(uptime, tokens))
      ensures forall x, y :: On(w, h, x, y) ==>
                Px(back, w, x, y) == if InMenu(w, x, y) && Filled(dirty, MenuRect(w), w, h)
                                     then MenuPixel(menuRender(shownMenu, Strip(scene, w)), w, x, y)
                                     else old(Px(back, w, x, y))
    {
      hide Meets, Covers, Clamped;
      ZoneFacts(w, h);
      MeetsIff(dirty, MenuRect(w), w, h);
      assert Has(MenuRect(w), 0, 0);
      FilledNotUntouched(dirty, MenuRect(w), w, h, 0, 0);
      out := dirty;
      if Meets(dirty, MenuRect(w)) || needsRepaint {
        PaintMenu(uptime, tokens);
        out := dirty + [MenuZone(w, h).value];
        PushFilled(dirty, MenuRect(w), w, h);
      }
    }

    method PaintDock(tokens: nat)
      requires Valid() && Ready()
      requires forall x, y :: On(w, h, x, y) && InDock(h, x, y) ==> Px(back, w, x, y) == scene(x, y)
      modifies back, dockScratch, this`dockDirty, this`shownDock
      ensures Valid() && !dockDirty && shownDock == old(DockNow(tokens))
      ensures forall x, y :: On(w, h, x, y) ==>
                Px(back, w, x, y) == if InDock(h, x, y)
                                     then DockPixel(dockRender(shownDock, Canvas(scene, w, h)), h, x, y)
                                     else old(Px(back, w, x, y))
    {
      hide Covers, DockRect, Canvas, DockPixel;
      ClearScratch(dockScratch);
      CopyRectIn(back, w, h, dockScratch);
      CanvasRead(back, dockScratch, scene, w, h);
      var out := dockRender(DockInput(dock, hover, tokens), dockScratch[..]);
      StoreSeq(dockScratch, out);
      assert dockScratch[..] == out;
      CopyRectOut(back, w, h, dockScratch);
      shownDock := DockNow(tokens);
      dockDirty := false;
    }

    /** The dock half of `repaint_chrome`. */
    method RepaintDock(dirty: seq<Rect>, tokens: nat) returns (out: seq<Rect>)
      requires Valid() && Ready() && Clamped(dirty, Screen(w, h))
      requires Whole(dirty, DockRect(h), w, h) && (dockDirty ==> Filled(dirty, DockRect(h), w, h))
      requires forall x, y :: On(w, h, x, y) && InDock(h, x, y) && Covers(dirty, x, y) ==>
                 Px(back, w, x, y) == scene(x, y)
      modifies back, dockScratch, this`dockDirty, this`shownDock
      ensures Valid() && Clamped(out, Screen(w, h)) && SameCover(out, dirty, w, h) && !dockDirty
      ensures Untouched(dirty, DockRect(h), w, h) ==> shownDock == old(shownDock)
      ensures Filled(dirty, DockRect(h), w, h) ==> shownDock == old(DockNow(tokens))
      ensures forall x, y :: On(w, h, x, y) ==>
                Px(back, w, x, y) == if InDock(h, x, y) && Filled(dirty, DockRect(h), w, h)
                                     then DockPixel(dockRender(shownDock, Canvas(scene, w, h)), h, x, y)
                                     else old(Px(back, w, x, y))
    {
      hide Meets, Covers, Clamped;
      ZoneFacts(w, h);
      MeetsIff(dirty, PanelRect(h), w, h);
      FilledNotUntouched(dirty, DockRect(h), w, h, DOCK_X, PanelRect(h).y);
      out := dirty;
      if Meets(dirty, PanelRect(h)) || dockDirty {
        PaintDock(tokens);
        PushFilled(dirty, PanelRect(h), w, h);
        out := dirty + [ClampToScreen(PanelRect(h), w, h).value];
      }
    }

    // --- What the screen should show -------------------------------------------------

    /** The whole screen drawn from scratch: the scene, with each strip rendered once over it. */
    ghost function Redraw(x: int, y: int): Color
      reads this
      requires w > 0
    {
      if InMenu(w, x, y) then MenuPixel(menuRender(shownMenu, Strip(scene, w)), w, x, y)
      else if InDock(h, x, y) then DockPixel(dockRender(shownDock, Canvas(scene, w, h)), h, x, y)
      else scene(x, y)
    }

    ghost predicate MenuShown()
      reads this
    {
      shownMenu == MenuNow(shownMenu.uptime, shownMenu.tokens)
    }

    ghost predicate DockShown()
      reads this
    {
      shownDock == DockNow(shownDock.tokens)
    }

    /** A zone no pending damage reaches already shows its redraw. */
    ghost predicate ZoneCurrent(z: Rect)
      reads this, back
      requires w > 0
    {
      Untouched(damage, z, w, h) ==>
        forall x, y :: On(w, h, x, y) && Has(z, x, y) ==> Px(back, w, x, y) == Redraw(x, y)
    }

    ghost predicate PlainCurrent()
      reads this, back
    {
      forall x, y :: On(w, h, x, y) && !InMenu(w, x, y) && !InDock(h, x, y) && !Covers(damage, x, y) ==>
        Px(back, w, x, y) == scene(x, y)
    }

    ghost predicate FrontCurrent()
      reads this, back, front
    {
      forall x, y :: On(w, h, x, y) && !Covers(damage, x, y) ==> Px(front, stride, x, y) == Px(back, w, x, y)
    }

    /** What holds between frames: only pending damage separates the screen from its redraw,
        and a strip painted from an old model is flagged or damaged. */
    ghost predicate Consistent()
      reads this, back, front
      requires w > 0
    {
      && FrontCurrent() && PlainCurrent()
      && ZoneCurrent(MenuRect(w)) && ZoneCurrent(DockRect(h))
      && (needsRepaint || !Untouched(damage, MenuRect(w), w, h) || MenuShown())
      && (dockDirty || !Untouched(damage, DockRect(h), w, h) || DockShown())
    }

    /** The screen equals a full redraw from the current models. */
    ghost predicate Presented()
      reads this, back, front
      requires w > 0
    {
      && damage == [] && !needsRepaint && !dockDirty && MenuShown() && DockShown()
      && forall x, y :: On(w, h, x, y) ==>
           Px(back, w, x, y) == Redraw(x, y) && Px(front, stride, x, y) == Redraw(x, y)
    }

    lemma PresentedIsConsistent()
      requires Valid() && Presented()
      ensures Consistent()
    {
    }

    /** Composite, then re-blend the menu strip if it was refreshed. */
    method DrawMenuStage(uptime: nat, tokens: nat) returns (dirty: seq<Rect>)
      requires Valid() && Ready() && ZoneCurrent(MenuRect(w))
      requires needsRepaint || !Untouched(damage, MenuRect(w), w, h) || MenuShown()
      modifies this`damage, this`needsRepaint, this`shownMenu, back, menuScratch
      ensures Valid() && damage == [] && !needsRepaint && MenuShown()
      ensures Clamped(dirty, Screen(w, h)) && MoreCover(old(damage), dirty, w, h)
      ensures Whole(dirty, DockRect(h), w, h) && (dockDirty ==> Filled(dirty, DockRect(h), w, h))
      ensures forall x, y :: On(w, h, x, y) && InMenu(w, x, y) ==>
                Px(back, w, x, y) == MenuPixel(menuRender(shownMenu, Strip(scene, w)), w, x, y)
      ensures forall x, y :: On(w, h, x, y) && !InMenu(w, x, y) ==>
                Px(back, w, x, y) == if Covers(dirty, x, y) then scene(x, y) else old(Px(back, w, x, y))
      ensures forall x, y :: On(w, h, x, y) && !Covers(dirty, x, y) ==> Px(back, w, x, y) == old(Px(back, w, x, y))
      ensures old(needsRepaint) ==> shownMenu == MenuNow(uptime, tokens)
    {
      hide Covers, Clamped, MenuPixel, Strip;
      ZoneFacts(w, h);
      ghost var was := damage;
      var d0 := Recomposite();
      if Untouched(d0, MenuRect(w), w, h) { UntouchedLess(was, d0, MenuRect(w), w, h); }
      FilledNotUntouched(d0, MenuRect(w), w, h, 0, 0);
      dirty := RepaintMenu(d0, uptime, tokens);
      FilledCopy(dirty, d0, DockRect(h), w, h);
    }

    /** Composite and re-blend: the back buffer ends as a full redraw, and differs from before
        only where the returned rectangles reach. */
    method DrawFrame(uptime: nat, tokens: nat) returns (dirty: seq<Rect>)
      requires Valid() && Ready() && Consistent()
      modifies this`damage, this`needsRepaint, this`dockDirty, this`shownMenu, this`shownDock
      modifies back, menuScratch, dockScratch
      ensures Valid() && damage == [] && !needsRepaint && !dockDirty && MenuShown() && DockShown()
      ensures Clamped(dirty, Screen(w, h)) && MoreCover(old(damage), dirty, w, h)
      ensures forall x, y :: On(w, h, x, y) ==> Px(back, w, x, y) == Redraw(x, y)
      ensures forall x, y :: On(w, h, x, y) && !Covers(dirty, x, y) ==> Px(back, w, x, y) == old(Px(back, w, x, y))
      ensures old(needsRepaint) ==> shownMenu == MenuNow(uptime, tokens)
      ensures old(dockDirty) ==> shownDock == DockNow(tokens)
    {
      hide Covers, Clamped, MenuPixel, DockPixel, Strip, Canvas, FrontCurrent;
      ZoneFacts(w, h);
      ghost var was := damage;
      var d1 := DrawMenuStage(uptime, tokens);
      if Untouched(d1, DockRect(h), w, h) { UntouchedLess(was, d1, DockRect(h), w, h); }
      FilledNotUntouched(d1, DockRect(h), w, h, DOCK_X, PanelRect(h).y);
      dirty := RepaintDock(d1, tokens);
    }

    /** `present`: with a whole back buffer the frame ends with the screen equal to a full redraw
        from the current models; otherwise nothing is drawn. */
    method Present(uptime: nat, tokens: nat) returns (ok: bool)
      requires Valid() && (Ready() ==> Consistent())
      modifies this`damage, this`needsRepaint, this`dockDirty, this`shownMenu, this`shownDock
      modifies back, front, menuScratch, dockScratch
      ensures Valid() && (ok <==> Ready())
      ensures ok ==> Presented()
      ensures !ok ==> back[..] == old(back[..]) && front[..] == old(front[..])
      ensures ok && old(needsRepaint) ==> shownMenu == MenuNow(uptime, tokens)
      ensures ok && old(dockDirty) ==> shownDock == DockNow(tokens)
    {
      hide Covers, Clamped, AddDamage, Redraw, PlainCurrent, ZoneCurrent;
      ZoneFacts(w, h);
      if back.Length < h * w {
        if needsRepaint {
          Damage(MenuRect(w));
        }
        if dockDirty {
          Damage(PanelRect(h));
        }
        return false;
      }
      var dirty := DrawFrame(uptime, tokens);
      BlitAll(back, front, w, h, stride, dirty);
      ok := true;
    }

    // --- What happens between frames ---------------------------------------------------

    /** Marking more of the screen stale keeps the desktop consistent. */
    method DamageMore(r: Rect)
      requires Valid() && Representable(r) && Consistent()
      modifies this`damage
      ensures Valid() && Consistent() && MoreCover(old(damage), damage, w, h)
      ensures forall x, y :: On(w, h, x, y) && Has(r, x, y) ==> Covers(damage, x, y)
    {
      hide Covers, AddDamage, MenuPixel, DockPixel;
      ghost var was := damage;
      Damage(r);
      MoreUntouched(was, damage, MenuRect(w), w, h);
      MoreUntouched(was, damage, DockRect(h), w, h);
    }

    /** A window operation: the scene changes, and the operation damages `rects`, which reach
        every pixel that changed. */
    method SceneChanged(next: Scene, rects: seq<Rect>)
      requires Valid() && Consistent() && AllRepresentable(rects)
      requires forall x, y :: On(w, h, x, y) && next(x, y) != scene(x, y) ==> Covers(rects, x, y)
      modifies this`scene, this`damage
      ensures Valid() && Consistent() && scene == next
    {
      hide Covers, MenuPixel, DockPixel, Strip, Canvas, Consistent;
      NothingClamped(Screen(w, h));
      for i := 0 to |rects|
        invariant Valid() && Consistent() && scene == old(scene)
        invariant forall x, y :: On(w, h, x, y) && Covers(rects[..i], x, y) ==> Covers(damage, x, y)
      {
        DamageMore(rects[i]);
        forall x, y ensures Covers(rects[..i + 1], x, y) <==> Covers(rects[..i], x, y) || Has(rects[i], x, y) {
          CoversSnoc(rects, i, x, y);
        }
      }
      assert rects[..|rects|] == rects;
      SwapScene(next);
    }

    method SwapScene(next: Scene)
      requires Valid() && Consistent()
      requires forall x, y :: On(w, h, x, y) && next(x, y) != scene(x, y) ==> Covers(damage, x, y)
      modifies this`scene
      ensures Valid() && Consistent() && scene == next
    {
      hide Covers, MenuPixel, DockPixel;
      ZoneFacts(w, h);
      if Untouched(damage, MenuRect(w), w, h) { StripSame(scene, next, damage, w, h); }
      if Untouched(damage, DockRect(h), w, h) { CanvasSame(scene, next, damage, w, h); }
      hide Strip, Canvas;
      scene := next;
    }

    method SetFocusedApp(name: string)
      requires Valid() && Consistent()
      modifies this`focused, this`needsRepaint
      ensures Valid() && Consistent() && focused == name
      ensures needsRepaint == (old(needsRepaint) || old(focused) != name)
    {
      hide MenuPixel, DockPixel, Covers;
      if focused != name {
        focused := name;
        needsRepaint := true;
      }
    }

    method SetAiState(state: BackendState)
      requires Valid() && Consistent()
      modifies this`healthy, this`aiLabel, this`needsRepaint
      ensures Valid() && Consistent()
      ensures healthy <==> state == Gpu || state == CpuDegraded
      ensures aiLabel == match state
                         case Gpu => "AI \U{B7} GPU \U{B7} NexyAI"
                         case CpuDegraded => "AI \U{B7} CPU \U{B7} fallback"
                         case Unknown => "AI \U{B7} offline"
      ensures needsRepaint == (old(needsRepaint) || old(healthy) != healthy || old(aiLabel) != aiLabel)
    {
      hide MenuPixel, DockPixel, Covers;
      var (ok, text) := AiPill(state);
      if healthy != ok || aiLabel != text {
        healthy := ok;
        aiLabel := text;
        needsRepaint := true;
      }
    }

    method SetDockModel(model: seq<bool>)
      requires Valid() && Consistent()
      modifies this`dock, this`dockDirty
      ensures Valid() && Consistent() && dock == model
      ensures dockDirty == (old(dockDirty) || old(dock) != model)
    {
      hide MenuPixel, DockPixel, Covers;
      if dock != model {
        dock := model;
        dockDirty := true;
      }
    }

    method SetDockHover(tile: Option<nat>)
      requires Valid() && Consistent()
      modifies this`hover, this`dockDirty
      ensures Valid() && Consistent() && hover == tile
      ensures dockDirty == (old(dockDirty) || old(hover) != tile)
    {
      hide MenuPixel, DockPixel, Covers;
      if hover != tile {
        hover := tile;
        dockDirty := true;
      }
    }

    method SetDark(on: bool)
      requires Valid() && Consistent()
      modifies this`dark, this`needsRepaint, this`dockDirty
      ensures Valid() && Consistent() && dark == on
      ensures needsRepaint == (old(needsRepaint) || old(dark) != on)
      ensures dockDirty == (old(dockDirty) || old(dark) != on)
    {
      hide MenuPixel, DockPixel, Covers;
      if dark != on {
        dark := on;
        needsRepaint := true;
        dockDirty := true;
      }
    }

    /** Start-up: buffers of the screen's size and everything marked stale, whatever the
        framebuffer held before. */
    constructor (w: nat, h: nat, stride: nat, front: array<Color>, scene: Scene, dock: seq<bool>,
                 menuRender: (MenuInput, seq<Color>) -> seq<Color>,
                 dockRender: (DockInput, seq<Color>) -> seq<Color>)
      requires GoodScreen(w, h) && w <= stride && h * stride <= front.Length
      requires (forall i, s :: |menuRender(i, s)| == |s|) && (forall i, s :: |dockRender(i, s)| == |s|)
      ensures Valid() && Ready() && Consistent()
      ensures this.w == w && this.h == h && this.front == front && this.scene == scene && this.dock == dock
      ensures focused == "" && node == "node-01 \U{B7} space 1" && !healthy && aiLabel == "AI \U{B7} offline"
      ensures dark && !needsRepaint && !dockDirty && hover.None?
    {
      this.w, this.h, this.stride, this.front := w, h, stride, front;
      this.menuRender, this.dockRender := menuRender, dockRender;
      back := new Color[h * w](_ => 0);
      menuScratch := new Color[MENUBAR_H * w](_ => 0);
      dockScratch := new Color[PANEL_H * CANVAS_W](_ => 0);
      this.scene, this.dock := scene, dock;
      focused, node := "", "node-01 \U{B7} space 1";
      healthy, aiLabel := false, "AI \U{B7} offline";
      dark, needsRepaint, dockDirty, hover := true, false, false, None;
      shownMenu := MenuInput("", "", false, "", true, 0, 0);
      shownDock := DockInput([], None, 0);
      damage := [Screen(w, h)];
      new;
      ZoneFacts(w, h);
      forall x, y | On(w, h, x, y) ensures Covers(damage, x, y) { CoversOne(Screen(w, h), x, y); }
      hide Covers, MenuPixel, DockPixel;
      FilledNotUntouched(damage, MenuRect(w), w, h, 0, 0);
      FilledNotUntouched(damage, DockRect(h), w, h, DOCK_X, PanelRect(h).y);
    }
  }

  datatype BackendState = Gpu | CpuDegraded | Unknown

  function AiPill(state: BackendState): (bool, string) {
    match state
    case Gpu => (true, "AI \U{B7} GPU \U{B7} NexyAI")
    case CpuDegraded => (true, "AI \U{B7} CPU \U{B7} fallback")
    case Unknown => (false, "AI \U{B7} offline")
  }

  lemma MoreUntouched(a: seq<Rect>, b: seq<Rect>, z: Rect, w: nat, h: nat)
    requires MoreCover(a, b, w, h)
    ensures Untouched(b, z, w, h) ==> Untouched(a, z, w, h)
  {
  }

  lemma StripSame(s: Scene, t: Scene, damage: seq<Rect>, w: nat, h: nat)
    requires GoodScreen(w, h) && Untouched(damage, MenuRect(w), w, h)
    requires forall x, y :: On(w, h, x, y) && t(x, y) != s(x, y) ==> Covers(damage, x, y)
    ensures Strip(s, w) == Strip(t, w)
  {
    hide Covers;
    forall k | 0 <= k < MENUBAR_H * w ensures Strip(s, w)[k] == Strip(t, w)[k] {
      StripIndex(w, k);
      assert On(w, h, k % w, k / w) && Has(MenuRect(w), k % w, k / w);
    }
  }

  lemma CanvasSame(s: Scene, t: Scene, damage: seq<Rect>, w: nat, h: nat)
    requires Untouched(damage, DockRect(h), w, h)
    requires forall x, y :: On(w, h, x, y) && t(x, y) != s(x, y) ==> Covers(damage, x, y)
    ensures Canvas(s, w, h) == Canvas(t, w, h)
  {
    hide Covers;
    forall k | 0 <= k < PANEL_H * CANVAS_W ensures Canvas(s, w, h)[k] == Canvas(t, w, h)[k] {
      var x, y := DockRect(h).x + k % CANVAS_W, DockRect(h).y + k / CANVAS_W;
      assert Has(DockRect(h), x, y);
    }
  }

  method ClearScratch(a: array<Color>)
    modifies a
    ensures forall k :: 0 <= k < a.Length ==> a[k] == 0
  {
    for k := 0 to a.Length
      invariant forall j :: 0 <= j < k ==> a[j] == 0
    {
      a[k] := 0;
    }
  }

  lemma StripInside(w: nat, h: nat)
    requires h >= MENUBAR_H
    ensures MENUBAR_H * w <= h * w
  {
    assert h * w == MENUBAR_H * w + (h - MENUBAR_H) * w;
  }

  lemma StripIndex(w: nat, k: nat)
    requires w > 0 && k < MENUBAR_H * w
    ensures k == (k / w) * w + k % w && 0 <= k % w < w && 0 <= k / w < MENUBAR_H
  {
    var q, r := k / w, k % w;
    assert k == w * q + r;
    if q >= MENUBAR_H {
      if q > MENUBAR_H { MulGap(w, MENUBAR_H, q); }
    }
  }

  /** A strip of scene pixels copied out of the buffer is the scene's strip. */
  lemma StripRead(back: array<Color>, scratch: array<Color>, scene: Scene, w: nat, h: nat)
    requires GoodScreen(w, h) && h * w <= back.Length && scratch.Length == MENUBAR_H * w <= back.Length
    requires forall x, y :: On(w, h, x, y) && InMenu(w, x, y) ==> Px(back, w, x, y) == scene(x, y)
    requires forall k :: 0 <= k < scratch.Length ==> scratch[k] == back[k]
    ensures scratch[..] == Strip(scene, w)
  {
    forall k | 0 <= k < scratch.Length ensures scratch[k] == Strip(scene, w)[k] {
      StripIndex(w, k);
      assert InMenu(w, k % w, k / w) && Px(back, w, k % w, k / w) == back[k];
    }
  }

  /** Where the pixels of the strip and of the rest of the screen sit in the buffer. */
  lemma StripWritten(w: nat, h: nat)
    requires GoodScreen(w, h)
    ensures forall x, y :: On(w, h, x, y) ==>
              0 <= y * w + x < h * w && (InMenu(w, x, y) <==> y * w + x < MENUBAR_H * w)
  {
    forall x, y | On(w, h, x, y)
      ensures 0 <= y * w + x < h * w && (InMenu(w, x, y) <==> y * w + x < MENUBAR_H * w)
    {
      IndexInside(w, h, x, y);
      if y < MENUBAR_H {
        MulGap(w, y, MENUBAR_H);
      } else if y > MENUBAR_H {
        MulGap(w, MENUBAR_H, y);
      }
    }
  }

  lemma CanvasRead(back: array<Color>, scratch: array<Color>, scene: Scene, w: nat, h: nat)
    requires scratch.Length == PANEL_H * CANVAS_W
    requires forall x, y :: On(w, h, x, y) && InDock(h, x, y) ==> Px(back, w, x, y) == scene(x, y)
    requires forall k :: 0 <= k < scratch.Length ==>
               scratch[k] == if CellOnScreen(w, h, k)
                             then Px(back, w, DockRect(h).x + k % CANVAS_W, DockRect(h).y + k / CANVAS_W) else 0
    ensures scratch[..] == Canvas(scene, w, h)
  {
    forall k | 0 <= k < scratch.Length ensures scratch[k] == Canvas(scene, w, h)[k] {
      assert InDock(h, DockRect(h).x + k % CANVAS_W, DockRect(h).y + k / CANVAS_W);
    }
  }

  /** Reporting a zone that is already covered adds nothing. */
  lemma PushFilled(dirty: seq<Rect>, z: Rect, w: nat, h: nat)
    requires Clamped(dirty, Screen(w, h)) && Representable(z) && Representable(Screen(w, h))
    requires Filled(dirty, z, w, h) && exists x, y :: On(w, h, x, y) && Has(z, x, y)
    ensures ClampToScreen(z, w, h).Some?
    ensures var out := dirty + [ClampToScreen(z, w, h).value];
            Clamped(out, Screen(w, h)) && SameCover(out, dirty, w, h)
  {
    IntersectPoints(z, Screen(w, h));
    var c := ClampToScreen(z, w, h).value;
    forall x, y | On(w, h, x, y) ensures Covers(dirty + [c], x, y) <==> Covers(dirty, x, y) {
      CoversConcat(dirty, [c], x, y);
      CoversOne(c, x, y);
    }
  }

  lemma UntouchedLess(a: seq<Rect>, b: seq<Rect>, z: Rect, w: nat, h: nat)
    requires MoreCover(a, b, w, h) && Untouched(b, z, w, h)
    ensures Untouched(a, z, w, h)
  {
  }

  lemma NothingClamped(screen: Rect)
    ensures Clamped([], screen) && forall x, y :: !Covers([], x, y)
  {
  }

  lemma ZonesNotEmpty(w: nat, h: nat)
    requires GoodScreen(w, h) && MenuZone(w, h).Some? && DockZone(w, h).Some?
    ensures !IsEmpty(MenuZone(w, h).value) && !IsEmpty(DockZone(w, h).value)
  {
  }

  lemma ClampedConcat(a: seq<Rect>, b: seq<Rect>, screen: Rect)
    requires Clamped(a, screen) && Clamped(b, screen)
    ensures Clamped(a + b, screen)
  {
  }
}
