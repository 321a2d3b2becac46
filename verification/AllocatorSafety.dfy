/** Every step of the allocator keeps its invariant. */
module AllocatorSafety {
  import opened Bits
  import opened Allocator
  import opened Wrappers

  /** Blocks of two different free lists are different: their extents have different sizes. */
  lemma ClassesDisjoint(blocks: map<nat, nat>, live: map<nat, Layout>, c: nat, o: nat, d: nat, o': nat)
    requires IsFreeBlock(blocks, live, c, o) && IsFreeBlock(blocks, live, d, o') && c != d
    ensures o != o'
  {
    if c < d { Pow2StrictlyIncreasing(c + 4, d + 4); } else { Pow2StrictlyIncreasing(d + 4, c + 4); }
  }

  // --- alloc: popping a freed block ----------------------------------------

  ghost predicate CanReuse(w: World, l: Layout, c: nat) {
    Inv(w) && ValidLayout(l) && c < NUM_CLASSES && SizeClass(l) == Some(c) && w.book.free[c] != []
  }

  ghost function Reused(w: World, l: Layout, c: nat): World
    requires Shaped(w.heap) && |w.book.free| == NUM_CLASSES && c < NUM_CLASSES && w.book.free[c] != []
  {
    World(w.heap.(heads := w.heap.heads[c := Link(w.heap.base, w.book.free[c], 1)]),
          w.book.(live := w.book.live[w.book.free[c][0] := l], free := w.book.free[c := w.book.free[c][1..]]))
  }

  lemma ReuseStep(w: World, l: Layout, c: nat)
    requires CanReuse(w, l, c)
    ensures Sane(w.heap) && Alloc(w.heap, l).1 == w.heap.base + w.book.free[c][0]
    ensures Served(w, l) == Reused(w, l, c)
  {
    ChainImpliesSane(w.heap, w.book.free);
    FreeHeadCarved(w.book.blocks, w.book.live, w.book.free, c);
    hide LiveOk, FreeOk, BlocksOk, ListOk, Record, Alloc, Sane, SizeClass;
    AllocPops(w.heap, w.book.free, l, c);
    hide ChainOk, Shaped;
    RecordReuse(w.book, w.heap.base, l, c);
  }

  lemma FreeHeadCarved(blocks: map<nat, nat>, live: map<nat, Layout>, free: seq<seq<nat>>, c: nat)
    requires FreeOk(blocks, live, free) && c < NUM_CLASSES && free[c] != []
    ensures free[c][0] in blocks
  {
    assert IsFreeBlock(blocks, live, c, free[c][0]);
  }

  lemma AllocPops(h: Heap, free: seq<seq<nat>>, l: Layout, c: nat)
    requires Sane(h) && l.align > 0 && |free| == NUM_CLASSES && ChainOk(h, free)
    requires c < NUM_CLASSES && SizeClass(l) == Some(c) && free[c] != []
    ensures Alloc(h, l) == (h.(heads := h.heads[c := Link(h.base, free[c], 1)]), h.base + free[c][0])
  {
    assert ListOk(h, free[c]) && IsLink(h, free[c][0], Link(h.base, free[c], 1));
    assert h.heads[c] == h.base + free[c][0];
  }

  lemma RecordReuse(b: Book, base: nat, l: Layout, c: nat)
    requires |b.free| == NUM_CLASSES && |b.carved| == NUM_CLASSES && base > 0
    requires c < NUM_CLASSES && SizeClass(l) == Some(c) && b.free[c] != [] && b.free[c][0] in b.blocks
    ensures Record(b, base, l, base + b.free[c][0]) ==
            b.(live := b.live[b.free[c][0] := l], free := b.free[c := b.free[c][1..]])
  {
  }

  lemma ReuseKeepsInv(w: World, l: Layout, c: nat)
    requires CanReuse(w, l, c)
    ensures Inv(Reused(w, l, c))
  {
    var b := w.book;
    ReuseKeepsLive(b.blocks, b.live, b.free, l, c);
    ReuseKeepsFree(b.blocks, b.live, b.free, l, c);
    ReuseKeepsChain(w.heap, b.free, c);
  }

  lemma ReuseKeepsLive(blocks: map<nat, nat>, live: map<nat, Layout>, free: seq<seq<nat>>, l: Layout, c: nat)
    requires LiveOk(blocks, live) && FreeOk(blocks, live, free)
    requires c < NUM_CLASSES && free[c] != [] && ValidLayout(l) && SizeClass(l) == Some(c)
    ensures LiveOk(blocks, live[free[c][0] := l])
  {
    assert IsFreeBlock(blocks, live, c, free[c][0]);
    assert IsLiveBlock(blocks, free[c][0], l);
  }

  lemma ReuseKeepsChain(h: Heap, free: seq<seq<nat>>, c: nat)
    requires Shaped(h) && |free| == NUM_CLASSES && ChainOk(h, free)
    requires c < NUM_CLASSES && free[c] != []
    ensures ChainOk(h.(heads := h.heads[c := Link(h.base, free[c], 1)]), free[c := free[c][1..]])
  {
    var h', free' := h.(heads := h.heads[c := Link(h.base, free[c], 1)]), free[c := free[c][1..]];
    forall d | 0 <= d < NUM_CLASSES ensures ListOk(h', free'[d]) {
      assert ListOk(h, free[d]);
      forall i | 0 <= i < |free'[d]| ensures IsLink(h', free'[d][i], Link(h.base, free'[d], i + 1)) {
        assert IsLink(h, free[d][i], Link(h.base, free[d], i + 1));
        if d == c {
          assert IsLink(h, free[d][i + 1], Link(h.base, free[d], i + 2));
        }
      }
    }
  }

  lemma ReuseKeepsFree(blocks: map<nat, nat>, live: map<nat, Layout>, free: seq<seq<nat>>, l: Layout, c: nat)
    requires FreeOk(blocks, live, free) && c < NUM_CLASSES && free[c] != []
    ensures FreeOk(blocks, live[free[c][0] := l], free[c := free[c][1..]])
  {
    var o, live', free' := free[c][0], live[free[c][0] := l], free[c := free[c][1..]];
    assert IsFreeBlock(blocks, live, c, o);
    forall d, i | 0 <= d < NUM_CLASSES && 0 <= i < |free'[d]|
      ensures IsFreeBlock(blocks, live', d, free'[d][i])
    {
      if d == c {
        assert IsFreeBlock(blocks, live, c, free[c][i + 1]);
      } else {
        assert IsFreeBlock(blocks, live, d, free[d][i]);
        ClassesDisjoint(blocks, live, c, o, d, free[d][i]);
      }
    }
  }

  // --- alloc: bumping the cursor -------------------------------------------

  ghost predicate MustBump(h: Heap, l: Layout)
    requires Shaped(h)
  {
    ClassBounds(l);
    match SizeClass(l) case Some(c) => h.heads[c] == NULL case None => true
  }

  /** Where a bump would place the block of `l`. */
  ghost function BumpOffset(h: Heap, l: Layout): nat
    requires ValidLayout(l)
  {
    AlignUp(h.pos, Pow2(Grain(l)))
  }

  lemma GrainOfLarge(l: Layout)
    requires ValidLayout(l) && SizeClass(l).None?
    ensures Pow2(Grain(l)) == l.align
  {
    var k: nat :| l.align == Pow2(k);
    TrailingZerosOfPow2(k);
  }

  /** A request that finds no freed block succeeds exactly when its block still fits above the cursor. */
  lemma AllocBumps(h: Heap, l: Layout)
    requires Sane(h) && ValidLayout(l) && MustBump(h, l)
    ensures l.align > 0
    ensures Alloc(h, l) == if BumpOffset(h, l) + Extent(l) > HEAP_SIZE then (h, NULL)
                           else (h.(pos := BumpOffset(h, l) + Extent(l)), h.base + BumpOffset(h, l))
  {
    hide AlignUp, Shift, Sane;
    if SizeClass(l).None? { GrainOfLarge(l); }
  }

  /** A block of `size` bytes at the least multiple of `align` above the cursor, if it still fits. */
  ghost predicate Placed(h: Heap, size: nat, align: nat, h': Heap, p: nat) {
    exists o: nat ::
      && LeastMultiple(h.pos, align, o)
      && if o + size <= 0x400_0000 then h' == h.(pos := o + size) && p == h.base + o else h' == h && p == 0
  }

  ghost predicate LeastMultiple(pos: nat, align: nat, o: nat) {
    pos <= o < pos + align && o % align == 0
  }

  /** What `alloc` does with a request: a block of its own above the cursor when it is oversized,
      otherwise the first block of its class's list, or a new block of its class. */
  ghost predicate Allocated(h: Heap, l: Layout, h': Heap, p: nat)
    requires Sane(h)
  {
    if l.size > 0x20_0000 || l.align > 0x20_0000 then Placed(h, l.size, l.align, h', p)
    else exists c: nat :: Fits(l, c) && FromClass(h, c, h', p)
  }

  ghost predicate FromClass(h: Heap, c: nat, h': Heap, p: nat)
    requires Sane(h) && c < 18
  {
    if h.heads[c] == 0 then Placed(h, Pow2(c + 4), Pow2(c + 4), h', p)
    else p == h.heads[c] && h' == h.(heads := h.heads[c := h.words[p - h.base]])
  }

  /** What `dealloc` does: nothing with an oversized block; any other becomes the head of its class's
      list, and its first word links to the old head. */
  ghost predicate Deallocated(h: Heap, p: nat, l: Layout, h': Heap)
    requires Shaped(h)
  {
    if l.size > 0x20_0000 || l.align > 0x20_0000 then h' == h
    else exists c: nat :: Fits(l, c) && ToClass(h, p, c, h')
  }

  ghost predicate ToClass(h: Heap, p: nat, c: nat, h': Heap)
    requires Shaped(h) && c < 18
  {
    && h.base <= p
    && h' == h.(heads := h.heads[c := p], words := h.words[p - h.base := h.heads[c]])
  }

  lemma DeallocExact(h: Heap, p: nat, l: Layout)
    requires Shaped(h) && (SizeClass(l).Some? ==> InArena(h, p))
    ensures Deallocated(h, p, l, Dealloc(h, p, l))
  {
    OversizedHasNoClass(l);
    match SizeClass(l)
    case None =>
    case Some(c) =>
      SizeClassIsLeast(l, c);
      hide SizeClass, Fits;
      assert ToClass(h, p, c, Dealloc(h, p, l));
  }

  lemma BumpPlaces(h: Heap, size: nat, k: nat)
    ensures Placed(h, size, Pow2(k), Bump(h, size, Pow2(k)).0, Bump(h, size, Pow2(k)).1)
  {
    var o := AlignUp(h.pos, Pow2(k));
    AlignUpCorrect(h.pos, k);
    AlignedIffMultiple(o, k);
    hide AlignUp, AlignedTo, Pow2;
    assert LeastMultiple(h.pos, Pow2(k), o);
  }

  lemma AllocExact(h: Heap, l: Layout)
    requires Sane(h) && ValidLayout(l)
    ensures l.align > 0 && Allocated(h, l, Alloc(h, l).0, Alloc(h, l).1)
  {
    OversizedHasNoClass(l);
    match SizeClass(l)
    case None =>
      var k: nat :| l.align == Pow2(k);
      BumpPlaces(h, l.size, k);
    case Some(c) =>
      SizeClassIsLeast(l, c);
      BumpPlaces(h, Pow2(c + 4), c + 4);
      hide SizeClass, Placed, Bump, Fits, Pow2;
      assert FromClass(h, c, Alloc(h, l).0, Alloc(h, l).1);
  }

  ghost function Carved(w: World, l: Layout): World
    requires ValidLayout(l) && |w.book.carved| == NUM_CLASSES
  {
    ClassBounds(l);
    var o := BumpOffset(w.heap, l);
    var b := w.book.(blocks := w.book.blocks[o := Extent(l)], live := w.book.live[o := l]);
    World(w.heap.(pos := o + Extent(l)),
          match SizeClass(l)
          case Some(c) => b.(carved := b.carved[c := b.carved[c] + 1])
          case None => b.(large := b.large + l.size + l.align - 1))
  }

  lemma FreshOffset(blocks: map<nat, nat>, pos: nat, o: nat)
    requires BlocksOk(blocks, pos) && pos <= o
    ensures o !in blocks
  {
  }

  lemma CarveStep(w: World, l: Layout)
    requires Inv(w) && ValidLayout(l) && MustBump(w.heap, l)
    ensures Served(w, l) == if BumpOffset(w.heap, l) + Extent(l) > HEAP_SIZE then w else Carved(w, l)
  {
    ChainImpliesSane(w.heap, w.book.free);
    AllocBumps(w.heap, l);
    AlignUpCorrect(w.heap.pos, Grain(l));
    FreshOffset(w.book.blocks, w.heap.pos, BumpOffset(w.heap, l));
    RecordCarve(w, l);
  }

  lemma RecordCarve(w: World, l: Layout)
    requires w.heap.base > 0 && |w.book.free| == NUM_CLASSES && |w.book.carved| == NUM_CLASSES && ValidLayout(l)
    requires BumpOffset(w.heap, l) !in w.book.blocks
    ensures Record(w.book, w.heap.base, l, w.heap.base + BumpOffset(w.heap, l)) == Carved(w, l).book
  {
  }

  lemma CarveKeepsInv(w: World, l: Layout)
    requires Inv(w) && ValidLayout(l)
    requires BumpOffset(w.heap, l) + Extent(l) <= HEAP_SIZE
    ensures Inv(Carved(w, l))
  {
    var o, b := BumpOffset(w.heap, l), w.book;
    AlignUpCorrect(w.heap.pos, Grain(l));
    ExtentHoldsRequest(l);
    CarvedFields(w, l);
    hide Carved, LiveOk, FreeOk, ChainOk, BumpOffset, Grain, AlignedTo, Extent;
    CarveKeepsBlocks(b.blocks, w.heap.pos, o, Extent(l));
    hide BlocksOk;
    CarveKeepsLive(b.blocks, b.live, o, l);
    CarveKeepsFree(b.blocks, b.live, b.free, o, l);
    CarveKeepsChain(w.heap, b.free, o + Extent(l));
  }

  lemma CarvedFields(w: World, l: Layout)
    requires ValidLayout(l) && |w.book.carved| == NUM_CLASSES
    ensures var o, w' := BumpOffset(w.heap, l), Carved(w, l);
            && w'.heap == w.heap.(pos := o + Extent(l)) && |w'.book.carved| == NUM_CLASSES
            && w'.book.blocks == w.book.blocks[o := Extent(l)] && w'.book.live == w.book.live[o := l]
            && w'.book.free == w.book.free
  {
    ClassBounds(l);
    hide BumpOffset, Extent, SizeClass;
  }

  lemma CarveKeepsBlocks(blocks: map<nat, nat>, pos: nat, o: nat, ext: nat)
    requires BlocksOk(blocks, pos) && pos <= o && ext > 0
    ensures o !in blocks && BlocksOk(blocks[o := ext], o + ext)
  {
  }

  lemma CarveKeepsLive(blocks: map<nat, nat>, live: map<nat, Layout>, o: nat, l: Layout)
    requires LiveOk(blocks, live) && o !in blocks && ValidLayout(l) && AlignedTo(o, Grain(l))
    ensures LiveOk(blocks[o := Extent(l)], live[o := l])
  {
    var blocks', live' := blocks[o := Extent(l)], live[o := l];
    forall p | p in live' ensures IsLiveBlock(blocks', p, live'[p]) {
      if p != o {
        assert IsLiveBlock(blocks, p, live[p]);
      }
    }
  }

  lemma CarveKeepsFree(blocks: map<nat, nat>, live: map<nat, Layout>, free: seq<seq<nat>>, o: nat, l: Layout)
    requires FreeOk(blocks, live, free) && o !in blocks
    ensures FreeOk(blocks[o := Extent(l)], live[o := l], free)
  {
    forall c, i | 0 <= c < NUM_CLASSES && 0 <= i < |free[c]|
      ensures IsFreeBlock(blocks[o := Extent(l)], live[o := l], c, free[c][i])
    {
      assert IsFreeBlock(blocks, live, c, free[c][i]);
    }
  }

  lemma CarveKeepsChain(h: Heap, free: seq<seq<nat>>, pos: nat)
    requires Shaped(h) && |free| == NUM_CLASSES && ChainOk(h, free) && pos <= HEAP_SIZE
    ensures ChainOk(h.(pos := pos), free)
  {
    var h' := h.(pos := pos);
    forall c | 0 <= c < NUM_CLASSES ensures ListOk(h', free[c]) {
      assert ListOk(h, free[c]);
      forall i | 0 <= i < |free[c]| ensures IsLink(h', free[c][i], Link(h.base, free[c], i + 1)) {
        assert IsLink(h, free[c][i], Link(h.base, free[c], i + 1));
      }
    }
  }

  // --- dealloc --------------------------------------------------------------

  /** Storing a word in no freed block's first cell leaves every list as it was. */
  lemma StoreKeepsList(h: Heap, s: seq<nat>, o: nat, v: nat)
    requires Shaped(h) && InArena(h, h.base + o) && ListOk(h, s) && o !in s
    ensures Shaped(Store(h, h.base + o, v)) && ListOk(Store(h, h.base + o, v), s)
  {
    var h' := Store(h, h.base + o, v);
    assert h'.words.Keys == h.words.Keys;
    forall i | 0 <= i < |s| ensures IsLink(h', s[i], Link(h.base, s, i + 1)) {
      assert IsLink(h, s[i], Link(h.base, s, i + 1));
    }
  }

  lemma PushKeepsChain(h: Heap, free: seq<seq<nat>>, c: nat, o: nat)
    requires Shaped(h) && |free| == NUM_CLASSES && ChainOk(h, free) && c < NUM_CLASSES
    requires InArena(h, h.base + o) && NotListed(free, o)
    ensures var h' := Store(h, h.base + o, h.heads[c]);
            Shaped(h') && ChainOk(h'.(heads := h'.heads[c := h.base + o]), free[c := [o] + free[c]])
  {
    hide ListOk;
    var h1 := Store(h, h.base + o, h.heads[c]);
    var h', free' := h1.(heads := h1.heads[c := h.base + o]), free[c := [o] + free[c]];
    assert h1.words.Keys == h.words.Keys;
    forall d | 0 <= d < NUM_CLASSES ensures ListOk(h', free'[d]) {
      StoreKeepsList(h, free[d], o, h.heads[c]);
      PushedList(h1, h', free[d], o);
      if d == c {
        assert IsLink(h', o, Link(h.base, free[d], 0));
        PushedHead(h', free[d], o);
      }
    }
  }

  lemma PushedList(h: Heap, h': Heap, s: seq<nat>, o: nat)
    requires Shaped(h) && Shaped(h') && h'.base == h.base && h'.words == h.words && ListOk(h, s)
    ensures ListOk(h', s)
  {
    forall i | 0 <= i < |s| ensures IsLink(h', s[i], Link(h.base, s, i + 1)) {
      assert IsLink(h, s[i], Link(h.base, s, i + 1));
    }
  }

  lemma PushedHead(h: Heap, s: seq<nat>, o: nat)
    requires Shaped(h) && ListOk(h, s) && IsLink(h, o, Link(h.base, s, 0))
    ensures ListOk(h, [o] + s)
  {
    var t := [o] + s;
    forall i | 0 <= i < |t| ensures IsLink(h, t[i], Link(h.base, t, i + 1)) {
      if i > 0 {
        assert IsLink(h, s[i - 1], Link(h.base, s, i));
      }
    }
  }

  lemma LiveNotFree(blocks: map<nat, nat>, live: map<nat, Layout>, free: seq<seq<nat>>, o: nat)
    requires FreeOk(blocks, live, free) && o in live
    ensures NotListed(free, o)
  {
    forall d | 0 <= d < NUM_CLASSES ensures o !in free[d] {
      forall i | 0 <= i < |free[d]| ensures free[d][i] != o {
        assert IsFreeBlock(blocks, live, d, free[d][i]);
      }
    }
  }

  lemma PushKeepsFree(blocks: map<nat, nat>, live: map<nat, Layout>, free: seq<seq<nat>>, c: nat, o: nat)
    requires FreeOk(blocks, live, free) && LiveOk(blocks, live)
    requires o in live && c < NUM_CLASSES && SizeClass(live[o]) == Some(c)
    ensures FreeOk(blocks, live - {o}, free[c := [o] + free[c]])
  {
    LiveNotFree(blocks, live, free, o);
    assert IsLiveBlock(blocks, o, live[o]);
    var live', free' := live - {o}, free[c := [o] + free[c]];
    forall d, i | 0 <= d < NUM_CLASSES && 0 <= i < |free'[d]|
      ensures IsFreeBlock(blocks, live', d, free'[d][i])
    {
      if d != c {
        assert IsFreeBlock(blocks, live, d, free[d][i]);
      } else if i > 0 {
        assert IsFreeBlock(blocks, live, d, free[d][i - 1]);
      }
    }
  }

  lemma DropKeepsFree(blocks: map<nat, nat>, live: map<nat, Layout>, free: seq<seq<nat>>, o: nat)
    requires FreeOk(blocks, live, free)
    ensures FreeOk(blocks, live - {o}, free)
  {
    forall d, i | 0 <= d < NUM_CLASSES && 0 <= i < |free[d]|
      ensures IsFreeBlock(blocks, live - {o}, d, free[d][i])
    {
      assert IsFreeBlock(blocks, live, d, free[d][i]);
    }
  }

  lemma DropKeepsLive(blocks: map<nat, nat>, live: map<nat, Layout>, o: nat)
    requires LiveOk(blocks, live)
    ensures LiveOk(blocks, live - {o})
  {
  }

  lemma DeallocKeepsInv(w: World, o: nat)
    requires Inv(w) && o in w.book.live
    ensures Inv(Freed(w, o))
  {
    var b, l := w.book, w.book.live[o];
    LiveBlockInArena(w, o);
    DropKeepsLive(b.blocks, b.live, o);
    ClassBounds(l);
    match SizeClass(l)
    case Some(c) =>
      LiveNotFree(b.blocks, b.live, b.free, o);
      PushKeepsFree(b.blocks, b.live, b.free, c, o);
      PushKeepsChain(w.heap, b.free, c, o);
    case None =>
      DropKeepsFree(b.blocks, b.live, b.free, o);
  }

  // --- a client writing its own memory --------------------------------------

  lemma OwnedWordNotFree(w: World, at: nat)
    requires Inv(w) && Owned(w.book.live, at)
    ensures NotListed(w.book.free, at)
  {
    var b := w.book;
    var o :| o in b.live && o <= at && at + 8 <= o + b.live[o].size;
    OwnedWordNotListed(b.blocks, w.heap.pos, b.live, b.free, at, o);
  }

  ghost predicate NotListed(free: seq<seq<nat>>, o: nat)
    requires |free| == NUM_CLASSES
  {
    forall c :: 0 <= c < NUM_CLASSES ==> o !in free[c]
  }

  lemma OwnedWordNotListed(blocks: map<nat, nat>, pos: nat, live: map<nat, Layout>, free: seq<seq<nat>>,
                           at: nat, o: nat)
    requires BlocksOk(blocks, pos) && LiveOk(blocks, live) && FreeOk(blocks, live, free)
    requires o in live && o <= at && at + 8 <= o + live[o].size
    ensures NotListed(free, at)
  {
    forall c, i | 0 <= c < NUM_CLASSES && 0 <= i < |free[c]| ensures free[c][i] != at {
      assert IsFreeBlock(blocks, live, c, free[c][i]);
      hide LiveOk, FreeOk;
      OwnedNotFreed(blocks, pos, live, c, free[c][i], at, o);
    }
  }

  lemma OwnedNotFreed(blocks: map<nat, nat>, pos: nat, live: map<nat, Layout>, c: nat, f: nat, at: nat, o: nat)
    requires BlocksOk(blocks, pos) && LiveOk(blocks, live) && IsFreeBlock(blocks, live, c, f)
    requires o in live && o <= at && at + 8 <= o + live[o].size
    ensures f != at
  {
    assert IsLiveBlock(blocks, o, live[o]);
    hide LiveOk;
    ExtentHoldsRequest(live[o]);
  }

  lemma WriteKeepsChain(h: Heap, free: seq<seq<nat>>, at: nat, v: nat)
    requires Shaped(h) && |free| == NUM_CLASSES && ChainOk(h, free) && InArena(h, h.base + at)
    requires NotListed(free, at)
    ensures var h' := Store(h, h.base + at, v); Shaped(h') && ChainOk(h', free)
  {
    var h' := Store(h, h.base + at, v);
    assert h'.words.Keys == h.words.Keys;
    forall c | 0 <= c < NUM_CLASSES ensures ListOk(h', free[c]) {
      StoreKeepsList(h, free[c], at, v);
    }
  }

  lemma StoreKeepsInv(w: World, at: nat, v: nat)
    requires Inv(w) && InArena(w.heap, w.heap.base + at) && NotListed(w.book.free, at)
    ensures Inv(World(Store(w.heap, w.heap.base + at, v), w.book))
  {
    WriteKeepsChain(w.heap, w.book.free, at, v);
    hide LiveOk, FreeOk, BlocksOk, ChainOk;
  }

  lemma WriteKeepsInv(w: World, at: nat, v: nat)
    requires Inv(w) && Owned(w.book.live, at)
    ensures Inv(Written(w, at, v))
  {
    hide Inv;
    OwnedWordInArena(w, at);
    OwnedWordNotFree(w, at);
    StoreKeepsInv(w, at, v);
  }

  lemma ServeKeepsInv(w: World, l: Layout)
    requires Inv(w) && ValidLayout(l)
    ensures Inv(Served(w, l)) && Served(w, l).heap.base == w.heap.base
  {
    ClassBounds(l);
    if MustBump(w.heap, l) {
      CarveStep(w, l);
      if BumpOffset(w.heap, l) + Extent(l) <= HEAP_SIZE { CarveKeepsInv(w, l); }
    } else {
      ReuseStep(w, l, SizeClass(l).value);
      ReuseKeepsInv(w, l, SizeClass(l).value);
    }
  }

  /** Every legal step keeps the invariant. */
  lemma StepKeepsInv(w: World, op: Op)
    requires Inv(w) && Legal(w, op)
    ensures Inv(Step(w, op)) && Step(w, op).heap.base == w.heap.base
  {
    match op
    case OpAlloc(l) => ServeKeepsInv(w, l);
    case OpDealloc(o, _) => DeallocKeepsInv(w, o);
    case OpWrite(at, v) => WriteKeepsInv(w, at, v);
  }
}
