/** The allocator as the display image runs it: mutable statics, updated in place. */
module FreeListAllocator {
  import opened Bits
  import opened Allocator
  import opened AllocatorSafety
  import opened AllocatorRuns
  import opened Wrappers

  class FreeListAllocator {
    const base: nat
    var pos: nat
    const heads: array<nat>
    const words: array<nat>
    ghost var book: Book

    ghost predicate Laid() {
      heads.Length == 18 && words.Length == 0x80_0000 && heads != words
    }

    ghost function WordMap(): map<nat, nat>
      requires Laid()
      reads words
    {
      map o | o in WordOffsets() :: words[o / 8]
    }

    ghost function View(): Heap
      requires Laid()
      reads this, heads, words
    {
      Heap(base, pos, heads[..], WordMap())
    }

    ghost predicate Valid()
      reads this, heads, words
    {
      Laid() && Inv(World(View(), book))
    }

    constructor (base: nat)
      requires base > 0
      ensures Valid() && this.base == base && fresh(heads) && fresh(words)
      ensures World(View(), book) == Init(base)
    {
      this.base := base;
      pos := 0;
      heads := new nat[NUM_CLASSES](_ => NULL);
      words := new nat[0x80_0000](_ => 0);
      book := Init(base).book;
      new;
      hide Inv, Accounts, Init;
      InitInv(base);
      InitHeap(base, heads[..], WordMap());
    }

    /** Advance the cursor past a fresh block, or return null and change nothing. */
    method Bump(size: nat, align: nat) returns (p: nat)
      requires Laid() && align > 0
      modifies this`pos
      ensures (View(), p) == Allocator.Bump(old(View()), size, align)
    {
      var aligned := AlignUp(pos, align);
      var end := aligned + size;
      if end > HEAP_SIZE {
        return NULL;
      }
      pos := end;
      p := base + aligned;
    }

    method AllocBlock(l: Layout) returns (p: nat)
      requires Laid() && Sane(View()) && ValidLayout(l)
      modifies this`pos, heads
      ensures l.align > 0 && (View(), p) == Allocator.Alloc(old(View()), l)
      ensures Allocated(old(View()), l, View(), p)
    {
      hide Allocated, ValidLayout;
      AllocExact(View(), l);
      match SizeClass(l)
      case Some(c) =>
        ClassBounds(l);
        var head := heads[c];
        if head != NULL {
          hide SizeClass;
          assert InArena(View(), head);
          var next := words[(head - base) / 8];
          assert next == Load(View(), head);
          heads[c] := next;
          assert heads[..] == old(heads[..])[c := next];
          p := head;
        } else {
          p := Bump(BlockSize(c), BlockSize(c));
        }
      case None =>
        p := Bump(l.size, l.align);
    }

    /** `alloc`: the new state is the model's step, the invariant holds, and what is handed out
        fits the arena and overlaps nothing else that is live. */
    method Alloc(l: Layout) returns (p: nat)
      requires Valid() && ValidLayout(l)
      modifies this`pos, this`book, heads
      ensures Valid()
      ensures World(View(), book) == Served(old(World(View(), book)), l)
      ensures p == NULL ==> View() == old(View()) && book == old(book)
      ensures p != NULL ==> base <= p && p - base !in old(book.live) && book.live == old(book.live)[p - base := l]
      ensures LiveSafe(book.live, pos) && pos <= HEAP_SIZE
    {
      hide Inv, Served, Freed, LiveSafe, Allocated;
      ghost var w := World(View(), book);
      AllocStep(w, l);
      AllocHandsOutFresh(w, l);
      p := AllocBlock(l);
      book := Record(book, base, l, p);
      ServeKeepsInv(w, l);
      InvIsSafe(World(View(), book));
    }

    method DeallocBlock(p: nat, l: Layout)
      requires Laid() && Shaped(View())
      requires SizeClass(l).Some? ==> InArena(View(), p)
      modifies heads, words
      ensures View() == Allocator.Dealloc(old(View()), p, l)
      ensures Deallocated(old(View()), p, l, View())
    {
      hide Deallocated;
      DeallocExact(View(), p, l);
      match SizeClass(l)
      case Some(c) =>
        ClassBounds(l);
        assert p - base in WordOffsets();
        var head := heads[c];
        words[(p - base) / 8] := head;
        WordStored(old(words[..]), words[..], p - base, head);
        assert WordMap() == old(WordMap())[p - base := head];
        heads[c] := p;
        assert heads[..] == old(heads[..])[c := p];
      case None =>
    }

    /** `dealloc` of a live block with its own layout. */
    method Dealloc(p: nat, l: Layout)
      requires Valid() && base <= p && p - base in book.live && book.live[p - base] == l
      modifies this`book, heads, words
      ensures Valid()
      ensures World(View(), book) == Freed(old(World(View(), book)), p - base)
      ensures book.live == old(book.live) - {p - base}
    {
      hide Inv, Deallocated;
      ghost var w := World(View(), book);
      DeallocReady(w, p - base);
      DeallocBlock(p, l);
      book := Release(book, p - base, l);
      DeallocKeepsInv(w, p - base);
    }
  }

  /** Zeroed statics are the initial heap. */
  lemma InitHeap(base: nat, heads: seq<nat>, words: map<nat, nat>)
    requires |heads| == NUM_CLASSES && forall c :: 0 <= c < NUM_CLASSES ==> heads[c] == NULL
    requires words.Keys == WordOffsets() && forall o :: o in words ==> words[o] == 0
    ensures Init(base).heap == Heap(base, 0, heads, words)
  {
    assert heads == seq(NUM_CLASSES, _ => NULL);
    assert words == map o | o in WordOffsets() :: 0;
  }

  lemma WordStored(before: seq<nat>, after: seq<nat>, o: nat, v: nat)
    requires |before| == |after| == 0x80_0000 && o in WordOffsets() && after == before[o / 8 := v]
    ensures forall q :: q in WordOffsets() ==> after[q / 8] == if q == o then v else before[q / 8]
  {
  }

  lemma InvIsSafe(w: World)
    requires Inv(w)
    ensures LiveSafe(w.book.live, w.heap.pos) && w.heap.pos <= HEAP_SIZE
  {
    InvIsLiveSafe(w.book.blocks, w.heap.pos, w.book.live);
  }

  lemma DeallocReady(w: World, o: nat)
    requires Inv(w) && o in w.book.live
    ensures Shaped(w.heap) && |w.book.free| == NUM_CLASSES
    ensures SizeClass(w.book.live[o]).Some? ==> InArena(w.heap, w.heap.base + o)
  {
    hide LiveOk, FreeOk, BlocksOk, ChainOk, SizeClass;
    LiveBlockInArena(w, o);
    FreeCount(w.book);
  }

  lemma FreeCount(b: Book)
    requires FreeOk(b.blocks, b.live, b.free)
    ensures |b.free| == NUM_CLASSES
  {
  }

  lemma AllocStep(w: World, l: Layout)
    requires Inv(w) && ValidLayout(l)
    ensures Sane(w.heap) && l.align > 0 && |w.book.free| == NUM_CLASSES && |w.book.carved| == NUM_CLASSES
    ensures var (h, p) := Allocator.Alloc(w.heap, l);
            && (p != NULL ==> w.heap.base <= p)
            && Served(w, l) == World(h, Record(w.book, w.heap.base, l, p))
  {
    hide LiveOk, FreeOk, BlocksOk, ChainOk, SizeClass;
    FreeCount(w.book);
    ChainImpliesSane(w.heap, w.book.free);
    ClassBounds(l);
  }

  /** A successful `alloc` hands out an offset that was not live, and records it as live. */
  lemma AllocHandsOutFresh(w: World, l: Layout)
    requires Inv(w) && ValidLayout(l)
    ensures Sane(w.heap) && l.align > 0
    ensures var (h, p) := Allocator.Alloc(w.heap, l);
            && (p == NULL ==> h == w.heap)
            && (p != NULL ==> w.heap.base <= p && p - w.heap.base !in w.book.live &&
                              Served(w, l).book.live == w.book.live[p - w.heap.base := l])
  {
    hide LiveOk, FreeOk, BlocksOk, Served, Sane, Record, Alloc;
    AllocStep(w, l);
    ClassBounds(l);
    if MustBump(w.heap, l) {
      BumpHandsOutFresh(w, l);
    } else {
      PopHandsOutFresh(w, l, SizeClass(l).value);
    }
  }

  lemma BumpHandsOutFresh(w: World, l: Layout)
    requires Inv(w) && ValidLayout(l) && MustBump(w.heap, l)
    ensures Sane(w.heap) && l.align > 0
    ensures var (h, p) := Allocator.Alloc(w.heap, l);
            && (p == NULL ==> h == w.heap)
            && (p != NULL ==> w.heap.base <= p && p - w.heap.base !in w.book.live &&
                              Served(w, l).book.live == w.book.live[p - w.heap.base := l])
  {
    ChainImpliesSane(w.heap, w.book.free);
    hide LiveOk, FreeOk, BlocksOk, ChainOk, Served, Record, Alloc, BumpOffset, Extent;
    AllocBumps(w.heap, l);
    BumpOffsetNotLive(w, l);
    CarveStep(w, l);
    CarvedFields(w, l);
    hide Carved, Sane, Shaped;
  }

  lemma PopHandsOutFresh(w: World, l: Layout, c: nat)
    requires CanReuse(w, l, c)
    ensures Sane(w.heap) && l.align > 0
    ensures var p := Allocator.Alloc(w.heap, l).1;
            && p != NULL && w.heap.base <= p && p - w.heap.base !in w.book.live
            && Served(w, l).book.live == w.book.live[p - w.heap.base := l]
  {
    hide LiveOk, FreeOk, BlocksOk, Served, Sane, Record, Alloc;
    ReuseStep(w, l, c);
    FreeHeadNotLive(w.book.blocks, w.book.live, w.book.free, c);
  }
}
