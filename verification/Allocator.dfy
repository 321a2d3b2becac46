/** The reclaiming free-list allocator of the display image: power-of-two size
    classes, free lists threaded through the freed blocks, and a bump cursor. */
module Allocator {
  import opened Bits
  import opened Wrappers

  const HEAP_SIZE: nat := 0x400_0000
  const MIN_CLASS_SHIFT: nat := 4
  const MAX_CLASS_SHIFT: nat := 21
  const NUM_CLASSES: nat := MAX_CLASS_SHIFT - MIN_CLASS_SHIFT + 1
  const NULL: nat := 0
  const ISIZE_LIMIT: nat := 0x8000_0000_0000_0000

  datatype Layout = Layout(size: nat, align: nat)

  /** What `core::alloc::Layout` and `GlobalAlloc` demand of a request. */
  ghost predicate ValidLayout(l: Layout) {
    0 < l.size && IsPow2(l.align) && l.size + l.align <= ISIZE_LIMIT
  }

  // --- Size classes --------------------------------------------------------

  function Max(a: nat, b: nat): nat { if a < b then b else a }

  function Need(l: Layout): nat { Max(Max(l.size, l.align), 16) }

  function Shift(l: Layout): nat { TrailingZeros(NextPowerOfTwo(Need(l))) }

  function SizeClass(l: Layout): Option<nat> {
    ShiftIsLeast(l);
    if Shift(l) > MAX_CLASS_SHIFT then None else Some(Shift(l) - MIN_CLASS_SHIFT)
  }

  function BlockSize(c: nat): nat { Pow2(c + 4) }

  lemma Pow2Of4()
    ensures Pow2(4) == 16
  {
    assert Pow2(2) == 4;
    assert Pow2(3) == 8;
  }

  lemma ShiftIsLeast(l: Layout)
    ensures Shift(l) >= MIN_CLASS_SHIFT
    ensures Need(l) <= Pow2(Shift(l))
    ensures Pow2(Shift(l) - 1) < Need(l) || Shift(l) == MIN_CLASS_SHIFT
  {
    var k := NextPowerOfTwoIsLeast(Need(l));
    TrailingZerosOfPow2(k);
    Pow2Of4();
    if k < 4 { Pow2StrictlyIncreasing(k, 4); }
  }

  lemma Pow2Of21()
    ensures Pow2(21) == 0x20_0000
  {
    Pow2Of4();
    assert Pow2(6) == 64;
    assert Pow2(8) == 256;
    assert Pow2(10) == 1024;
    assert Pow2(12) == 4096;
    assert Pow2(14) == 16384;
    assert Pow2(16) == 65536;
    assert Pow2(18) == 262144;
    assert Pow2(20) == 1048576;
  }

  lemma Pow2AtLeast16(k: nat)
    requires k >= 4
    ensures Pow2(k) >= 16
  {
    Pow2Of4();
    Pow2Divides(4, k);
  }

  /** Class `c` is the least of the eighteen block sizes 2^4 to 2^21 that holds both the size and
      the alignment. */
  ghost predicate Fits(l: Layout, c: nat) {
    && c < 18 && l.size <= Pow2(c + 4) && l.align <= Pow2(c + 4)
    && (c == 0 || l.size > Pow2(c + 3) || l.align > Pow2(c + 3))
  }

  /** The class of a request is the least block size that holds it. */
  lemma SizeClassIsLeast(l: Layout, c: nat)
    ensures SizeClass(l) == Some(c) <==> Fits(l, c)
  {
    hide Shift;
    ShiftIsLeast(l);
    var need, k := Need(l), Shift(l);
    Pow2AtLeast16(c + 4);
    ShiftExceeds(need, k, c + 4);
    if c > 0 {
      Pow2AtLeast16(c + 3);
      ShiftExceeds(need, k, c + 3);
    }
    hide Pow2;
  }

  /** A request has no class exactly when it exceeds the largest block. */
  lemma OversizedHasNoClass(l: Layout)
    ensures SizeClass(l).None? <==> l.size > 0x20_0000 || l.align > 0x20_0000
  {
    ShiftIsLeast(l);
    ShiftExceeds(Need(l), Shift(l), MAX_CLASS_SHIFT);
    Pow2Of21();
  }

  lemma ShiftExceeds(need: nat, k: nat, j: nat)
    requires k >= MIN_CLASS_SHIFT && need <= Pow2(k) && (Pow2(k - 1) < need || k == MIN_CLASS_SHIFT)
    ensures j >= MIN_CLASS_SHIFT ==> (k > j <==> need > Pow2(j))
  {
    if k <= j {
      Pow2Divides(k, j);
    } else if j >= MIN_CLASS_SHIFT {
      Pow2Divides(j, k - 1);
    }
  }

  /** The bounds that the class of a request gives, in usable form. */
  lemma ClassBounds(l: Layout)
    ensures SizeClass(l).Some? ==> SizeClass(l).value < NUM_CLASSES && Need(l) <= BlockSize(SizeClass(l).value)
  {
    ShiftIsLeast(l);
  }

  // --- The arena and the three operations on it ----------------------------

  /** The address of `HEAP`, `HEAP_POS`, `FREE_LISTS`, and the words of `HEAP` by byte offset. */
  datatype Heap = Heap(base: nat, pos: nat, heads: seq<nat>, words: map<nat, nat>)

  ghost function WordOffsets(): set<nat> {
    set o: nat | o < HEAP_SIZE && o % 8 == 0
  }

  ghost predicate Shaped(h: Heap) {
    && 0 < h.base
    && h.pos <= HEAP_SIZE
    && |h.heads| == NUM_CLASSES
    && h.words.Keys == WordOffsets()
  }

  /** A pointer to a whole, word-aligned cell of the arena. */
  predicate InArena(h: Heap, p: nat) {
    h.base <= p && (p - h.base) in h.words
  }

  ghost predicate Sane(h: Heap) {
    Shaped(h) && forall c :: 0 <= c < NUM_CLASSES ==> h.heads[c] == NULL || InArena(h, h.heads[c])
  }

  function Load(h: Heap, p: nat): nat
    requires InArena(h, p)
  {
    h.words[p - h.base]
  }

  function Store(h: Heap, p: nat, v: nat): Heap
    requires InArena(h, p)
  {
    h.(words := h.words[p - h.base := v])
  }

  function Bump(h: Heap, size: nat, align: nat): (Heap, nat)
    requires align > 0
  {
    var aligned := AlignUp(h.pos, align);
    var end := aligned + size;
    if end > HEAP_SIZE then (h, NULL) else (h.(pos := end), h.base + aligned)
  }

  function Alloc(h: Heap, l: Layout): (Heap, nat)
    requires Sane(h) && l.align > 0
  {
    match SizeClass(l)
    case Some(c) =>
      ClassBounds(l);
      var head := h.heads[c];
      if head != NULL then (h.(heads := h.heads[c := Load(h, head)]), head)
      else Bump(h, BlockSize(c), BlockSize(c))
    case None => Bump(h, l.size, l.align)
  }

  function Dealloc(h: Heap, p: nat, l: Layout): Heap
    requires Shaped(h)
    requires SizeClass(l).Some? ==> InArena(h, p)
  {
    match SizeClass(l)
    case Some(c) =>
      ClassBounds(l);
      var h' := Store(h, p, h.heads[c]);
      h'.(heads := h'.heads[c := p])
    case None => h
  }

  // --- What a client has seen: the history the safety claims speak about ---

  /** `blocks`: every extent ever carved, by offset. `live`: the blocks handed out
      and not yet freed. `free`: the freed blocks of each class, last freed first.
      `carved`: blocks carved per class. `large`: bytes, with worst padding, that
      went to requests without a class. */
  datatype Book = Book(blocks: map<nat, nat>, live: map<nat, Layout>, free: seq<seq<nat>>,
                       carved: seq<nat>, large: nat)

  datatype World = World(heap: Heap, book: Book)

  /** `Write` is the client storing a word inside a block it owns. */
  datatype Op = OpAlloc(layout: Layout) | OpDealloc(offset: nat, layout: Layout) | OpWrite(at: nat, value: nat)

  function Extent(l: Layout): nat {
    match SizeClass(l) case Some(c) => BlockSize(c) case None => l.size
  }

  /** How many low zero bits the offset of a block has: those of its class size, or of its alignment. */
  ghost function Grain(l: Layout): nat
    requires ValidLayout(l)
  {
    match SizeClass(l) case Some(c) => c + 4 case None => TrailingZeros(l.align)
  }

  function LiveIn(live: map<nat, Layout>, c: nat): set<nat> {
    set o | o in live && SizeClass(live[o]) == Some(c)
  }

  /** A whole word of some live block. */
  ghost predicate Owned(live: map<nat, Layout>, at: nat) {
    at % 8 == 0 && exists o :: o in live && o <= at && at + 8 <= o + live[o].size
  }

  ghost predicate Legal(w: World, op: Op) {
    match op
    case OpAlloc(l) => ValidLayout(l)
    case OpDealloc(o, l) => o in w.book.live && w.book.live[o] == l
    case OpWrite(at, _) => Owned(w.book.live, at)
  }

  // --- The invariant -------------------------------------------------------

  /** Carved extents lie below the cursor and never overlap. */
  ghost predicate BlocksOk(blocks: map<nat, nat>, pos: nat) {
    && (forall o :: o in blocks ==> 0 < blocks[o] && o + blocks[o] <= pos)
    && (forall o, o' :: o in blocks && o' in blocks && o < o' ==> o + blocks[o] <= o')
  }

  ghost predicate IsLiveBlock(blocks: map<nat, nat>, o: nat, l: Layout) {
    ValidLayout(l) && o in blocks && blocks[o] == Extent(l) && AlignedTo(o, Grain(l))
  }

  /** A live block is a carved extent, big and aligned enough for its request. */
  ghost predicate LiveOk(blocks: map<nat, nat>, live: map<nat, Layout>) {
    forall o :: o in live ==> IsLiveBlock(blocks, o, live[o])
  }

  ghost predicate IsFreeBlock(blocks: map<nat, nat>, live: map<nat, Layout>, c: nat, o: nat) {
    o in blocks && o !in live && blocks[o] == BlockSize(c) && AlignedTo(o, c + 4)
  }

  /** Free blocks are carved, not live, of their list's class, and listed once. */
  ghost predicate FreeOk(blocks: map<nat, nat>, live: map<nat, Layout>, free: seq<seq<nat>>) {
    && |free| == NUM_CLASSES
    && (forall c, i :: 0 <= c < NUM_CLASSES && 0 <= i < |free[c]| ==> IsFreeBlock(blocks, live, c, free[c][i]))
    && (forall c, i, j :: 0 <= c < NUM_CLASSES && 0 <= i < j < |free[c]| ==> free[c][i] != free[c][j])
  }

  function Link(base: nat, s: seq<nat>, i: nat): nat {
    if i < |s| then base + s[i] else NULL
  }

  ghost predicate IsLink(h: Heap, o: nat, next: nat)
    requires Shaped(h)
  {
    InArena(h, h.base + o) && Load(h, h.base + o) == next
  }

  /** The words inside the freed blocks of one list spell out that list. */
  ghost predicate ListOk(h: Heap, s: seq<nat>)
    requires Shaped(h)
  {
    forall i :: 0 <= i < |s| ==> IsLink(h, s[i], Link(h.base, s, i + 1))
  }

  /** Heads and words together spell out exactly `free`. */
  ghost predicate ChainOk(h: Heap, free: seq<seq<nat>>)
    requires Shaped(h) && |free| == NUM_CLASSES
  {
    forall c :: 0 <= c < NUM_CLASSES ==> h.heads[c] == Link(h.base, free[c], 0) && ListOk(h, free[c])
  }

  ghost predicate Inv(w: World) {
    var h, b := w.heap, w.book;
    && Shaped(h)
    && |b.carved| == NUM_CLASSES
    && BlocksOk(b.blocks, h.pos)
    && LiveOk(b.blocks, b.live)
    && FreeOk(b.blocks, b.live, b.free)
    && ChainOk(h, b.free)
  }

  // --- Steps ---------------------------------------------------------------

  /** A block of class `c` at `o`: one that was freed, or one just carved. */
  function RecordBlock(b: Book, o: nat, l: Layout, c: nat): Book
    requires c < |b.free| && c < |b.carved|
  {
    if o in b.blocks then
      b.(live := b.live[o := l], free := b.free[c := if b.free[c] == [] then [] else b.free[c][1..]])
    else
      b.(blocks := b.blocks[o := BlockSize(c)], live := b.live[o := l], carved := b.carved[c := b.carved[c] + 1])
  }

  /** What a client records when `alloc` returned `p` for `l`. */
  function Record(b: Book, base: nat, l: Layout, p: nat): Book
    requires |b.free| == NUM_CLASSES && |b.carved| == NUM_CLASSES
    requires p != NULL ==> base <= p
  {
    if p == NULL then b else
    var o := p - base;
    match SizeClass(l)
    case None => b.(blocks := b.blocks[o := l.size], live := b.live[o := l], large := b.large + l.size + l.align - 1)
    case Some(c) =>
      ClassBounds(l);
      RecordBlock(b, o, l, c)
  }

  function Release(b: Book, o: nat, l: Layout): Book
    requires |b.free| == NUM_CLASSES
  {
    match SizeClass(l)
    case None => b.(live := b.live - {o})
    case Some(c) =>
      ClassBounds(l);
      b.(live := b.live - {o}, free := b.free[c := [o] + b.free[c]])
  }

  /** `alloc`, with what the client records of it. */
  ghost function Served(w: World, l: Layout): World
    requires Inv(w) && ValidLayout(l)
  {
    ChainImpliesSane(w.heap, w.book.free);
    var (h, p) := Alloc(w.heap, l);
    World(h, Record(w.book, w.heap.base, l, p))
  }

  /** `dealloc` of a live block with its own layout. */
  ghost function Freed(w: World, o: nat): World
    requires Inv(w) && o in w.book.live
  {
    LiveBlockInArena(w, o);
    World(Dealloc(w.heap, w.heap.base + o, w.book.live[o]), Release(w.book, o, w.book.live[o]))
  }

  ghost function Written(w: World, at: nat, v: nat): World
    requires Inv(w) && Owned(w.book.live, at)
  {
    OwnedWordInArena(w, at);
    World(Store(w.heap, w.heap.base + at, v), w.book)
  }

  ghost function Step(w: World, op: Op): (w': World)
    requires Inv(w) && Legal(w, op)
  {
    match op
    case OpAlloc(l) => Served(w, l)
    case OpDealloc(o, _) => Freed(w, o)
    case OpWrite(at, v) => Written(w, at, v)
  }

  lemma ClassOffsetInWords(o: nat, c: nat)
    requires AlignedTo(o, c + 4)
    ensures o % 8 == 0
  {
    AlignedToLess(o, c + 4, 3);
    AlignedIffMultiple(o, 3);
    assert Pow2(3) == 8 by { assert Pow2(2) == 4; }
  }

  lemma BlockSizeAtLeast16(c: nat)
    ensures BlockSize(c) >= 16
  {
    Pow2Divides(4, c + 4);
    Pow2Of4();
  }

  lemma ChainImpliesSane(h: Heap, free: seq<seq<nat>>)
    requires Shaped(h) && |free| == NUM_CLASSES && ChainOk(h, free)
    ensures Sane(h)
  {
    forall c | 0 <= c < NUM_CLASSES && h.heads[c] != NULL
      ensures InArena(h, h.heads[c])
    {
      assert ListOk(h, free[c]) && IsLink(h, free[c][0], Link(h.base, free[c], 1));
    }
  }

  lemma LiveBlockInArena(w: World, o: nat)
    requires Inv(w) && o in w.book.live
    ensures SizeClass(w.book.live[o]).Some? ==> InArena(w.heap, w.heap.base + o)
  {
    assert IsLiveBlock(w.book.blocks, o, w.book.live[o]);
    match SizeClass(w.book.live[o])
    case Some(c) =>
      BlockSizeAtLeast16(c);
      ClassOffsetInWords(o, c);
    case None =>
  }

  lemma OwnedWordInArena(w: World, at: nat)
    requires Inv(w) && Owned(w.book.live, at)
    ensures InArena(w.heap, w.heap.base + at)
  {
    var o :| o in w.book.live && o <= at && at + 8 <= o + w.book.live[o].size;
    assert IsLiveBlock(w.book.blocks, o, w.book.live[o]);
    ExtentHoldsRequest(w.book.live[o]);
  }

  /** A block is at least as large as every request it serves. */
  lemma ExtentHoldsRequest(l: Layout)
    ensures l.size <= Extent(l)
  {
    ClassBounds(l);
  }

  /** A block is at least as aligned as every request it serves. */
  lemma GrainHoldsAlign(l: Layout, o: nat)
    requires ValidLayout(l) && AlignedTo(o, Grain(l))
    ensures l.align > 0 && o % l.align == 0
  {
    var k: nat :| l.align == Pow2(k);
    TrailingZerosOfPow2(k);
    ClassBounds(l);
    if SizeClass(l).Some? {
      var c := SizeClass(l).value;
      if k > c + 4 { Pow2StrictlyIncreasing(c + 4, k); }
    }
    AlignedToLess(o, Grain(l), k);
    AlignedIffMultiple(o, k);
  }
}
