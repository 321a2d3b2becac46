/** What holds of the allocator after every legal sequence of calls. */
module AllocatorRuns {
  import opened Bits
  import opened Allocator
  import opened AllocatorSafety
  import opened Wrappers

  // --- Accounts: what the carved blocks cost --------------------------------

  ghost predicate CountsOk(carved: seq<nat>, live: map<nat, Layout>, free: seq<seq<nat>>)
    requires |carved| == NUM_CLASSES && |free| == NUM_CLASSES
  {
    forall c :: 0 <= c < NUM_CLASSES ==> carved[c] == |LiveIn(live, c)| + |free[c]|
  }

  /** Bytes the first `n` classes can cost: each carve pays its block and less than a block of padding. */
  function Budget(carved: seq<nat>, n: nat): nat
    requires n <= |carved|
  {
    if n == 0 then 0 else Budget(carved, n - 1) + carved[n - 1] * (2 * BlockSize(n - 1) - 1)
  }

  ghost predicate CursorOk(w: World) {
    w.heap.pos <= Budget(w.book.carved, |w.book.carved|) + w.book.large
  }

  lemma {:induction false} BudgetCarve(carved: seq<nat>, c: nat, n: nat)
    requires c < |carved| && n <= |carved|
    ensures Budget(carved[c := carved[c] + 1], n) ==
            Budget(carved, n) + (if c < n then 2 * BlockSize(c) - 1 else 0)
  {
    if n > 0 {
      BudgetCarve(carved, c, n - 1);
      if c == n - 1 {
        var k := 2 * BlockSize(c) - 1;
        assert (carved[c] + 1) * k == carved[c] * k + k;
      }
    }
  }

  lemma LiveInAdd(live: map<nat, Layout>, o: nat, l: Layout, c: nat)
    requires o !in live
    ensures |LiveIn(live[o := l], c)| == |LiveIn(live, c)| + (if SizeClass(l) == Some(c) then 1 else 0)
  {
    if SizeClass(l) == Some(c) {
      assert LiveIn(live[o := l], c) == LiveIn(live, c) + {o};
    } else {
      assert LiveIn(live[o := l], c) == LiveIn(live, c);
    }
  }

  lemma LiveInRemove(live: map<nat, Layout>, o: nat, c: nat)
    requires o in live
    ensures |LiveIn(live - {o}, c)| == |LiveIn(live, c)| - (if SizeClass(live[o]) == Some(c) then 1 else 0)
  {
    if SizeClass(live[o]) == Some(c) {
      assert LiveIn(live, c) == LiveIn(live - {o}, c) + {o};
    } else {
      assert LiveIn(live - {o}, c) == LiveIn(live, c);
    }
  }

  lemma ReuseKeepsCounts(carved: seq<nat>, live: map<nat, Layout>, free: seq<seq<nat>>, l: Layout, c: nat)
    requires |carved| == NUM_CLASSES && |free| == NUM_CLASSES && CountsOk(carved, live, free)
    requires c < NUM_CLASSES && SizeClass(l) == Some(c) && free[c] != [] && free[c][0] !in live
    ensures CountsOk(carved, live[free[c][0] := l], free[c := free[c][1..]])
  {
    forall d | 0 <= d < NUM_CLASSES { LiveInAdd(live, free[c][0], l, d); }
  }

  lemma CarveKeepsCounts(carved: seq<nat>, live: map<nat, Layout>, free: seq<seq<nat>>, o: nat, l: Layout)
    requires |carved| == NUM_CLASSES && |free| == NUM_CLASSES && CountsOk(carved, live, free) && o !in live
    ensures SizeClass(l).None? ==> CountsOk(carved, live[o := l], free)
    ensures SizeClass(l).Some? ==>
              (var c := SizeClass(l).value;
               c < NUM_CLASSES && CountsOk(carved[c := carved[c] + 1], live[o := l], free))
  {
    ClassBounds(l);
    forall d | 0 <= d < NUM_CLASSES { LiveInAdd(live, o, l, d); }
  }

  lemma FreeKeepsCounts(carved: seq<nat>, live: map<nat, Layout>, free: seq<seq<nat>>, o: nat)
    requires |carved| == NUM_CLASSES && |free| == NUM_CLASSES && CountsOk(carved, live, free) && o in live
    ensures SizeClass(live[o]).None? ==> CountsOk(carved, live - {o}, free)
    ensures SizeClass(live[o]).Some? ==>
              (var c := SizeClass(live[o]).value;
               c < NUM_CLASSES && CountsOk(carved, live - {o}, free[c := [o] + free[c]]))
  {
    ClassBounds(live[o]);
    forall d | 0 <= d < NUM_CLASSES { LiveInRemove(live, o, d); }
  }

  lemma CarveKeepsCursor(w: World, l: Layout)
    requires |w.book.carved| == NUM_CLASSES && CursorOk(w) && ValidLayout(l)
    ensures CursorOk(Carved(w, l))
  {
    hide AlignUp, Shift, Budget;
    AlignUpCorrect(w.heap.pos, Grain(l));
    ClassBounds(l);
    match SizeClass(l)
    case Some(c) => BudgetCarve(w.book.carved, c, NUM_CLASSES);
    case None => GrainOfLarge(l);
  }

  ghost predicate Accounts(w: World) {
    && |w.book.carved| == NUM_CLASSES && |w.book.free| == NUM_CLASSES
    && CountsOk(w.book.carved, w.book.live, w.book.free)
    && CursorOk(w)
  }

  lemma FreeHeadNotLive(blocks: map<nat, nat>, live: map<nat, Layout>, free: seq<seq<nat>>, c: nat)
    requires FreeOk(blocks, live, free) && c < NUM_CLASSES && free[c] != []
    ensures free[c][0] !in live
  {
    assert IsFreeBlock(blocks, live, c, free[c][0]);
  }

  lemma LiveIsCarved(blocks: map<nat, nat>, live: map<nat, Layout>)
    requires LiveOk(blocks, live)
    ensures live.Keys <= blocks.Keys
  {
    forall o | o in live ensures o in blocks { assert IsLiveBlock(blocks, o, live[o]); }
  }

  lemma BumpOffsetNotLive(w: World, l: Layout)
    requires Inv(w) && ValidLayout(l)
    ensures BumpOffset(w.heap, l) !in w.book.live
  {
    AlignUpCorrect(w.heap.pos, Grain(l));
    FreshOffset(w.book.blocks, w.heap.pos, BumpOffset(w.heap, l));
    LiveIsCarved(w.book.blocks, w.book.live);
  }

  lemma AllocKeepsAccounts(w: World, l: Layout)
    requires Inv(w) && Accounts(w) && ValidLayout(l)
    ensures Accounts(Served(w, l))
  {
    var b := w.book;
    ClassBounds(l);
    if MustBump(w.heap, l) {
      CarveStep(w, l);
      BumpOffsetNotLive(w, l);
      CarveKeepsCounts(b.carved, b.live, b.free, BumpOffset(w.heap, l), l);
      CarveKeepsCursor(w, l);
    } else {
      var c := SizeClass(l).value;
      ReuseStep(w, l, c);
      FreeHeadNotLive(b.blocks, b.live, b.free, c);
      ReuseKeepsCounts(b.carved, b.live, b.free, l, c);
    }
  }

  lemma StepKeepsAccounts(w: World, op: Op)
    requires Inv(w) && Accounts(w) && Legal(w, op)
    ensures Accounts(Step(w, op))
  {
    match op
    case OpAlloc(l) => AllocKeepsAccounts(w, l);
    case OpDealloc(o, l) => FreeKeepsCounts(w.book.carved, w.book.live, w.book.free, o);
    case OpWrite(_, _) =>
  }

  // --- Runs ------------------------------------------------------------------

  ghost function Init(base: nat): World {
    World(Heap(base, 0, seq(NUM_CLASSES, _ => NULL), map o | o in WordOffsets() :: 0),
          Book(map[], map[], seq(NUM_CLASSES, _ => []), seq(NUM_CLASSES, _ => 0), 0))
  }

  lemma InitInv(base: nat)
    requires base > 0
    ensures Inv(Init(base)) && Accounts(Init(base))
  {
    var w := Init(base);
    assert w.heap.words.Keys == WordOffsets();
    forall c | 0 <= c < NUM_CLASSES ensures LiveIn(w.book.live, c) == {} { }
  }

  /** The state after the calls `ops`, or `None` once a call breaks the client's side of the contract. */
  ghost function Run(base: nat, ops: seq<Op>): (w: Option<World>)
    requires base > 0
    ensures w.Some? ==> Inv(w.value) && Accounts(w.value) && w.value.heap.base == base
  {
    if ops == [] then InitInv(base); Some(Init(base))
    else
      var last := |ops| - 1;
      match Run(base, ops[..last])
      case None => None
      case Some(w) =>
        if Legal(w, ops[last]) then
          StepKeepsInv(w, ops[last]);
          StepKeepsAccounts(w, ops[last]);
          Some(Step(w, ops[last]))
        else None
  }

  // --- Safety of every run ---------------------------------------------------

  /** In client terms: what is handed out fits the arena, is as aligned (from the arena's
      start) as was asked, and no two live blocks share a byte. */
  ghost predicate LiveSafe(live: map<nat, Layout>, pos: nat) {
    && (forall o :: o in live ==> live[o].align > 0 && o % live[o].align == 0 && o + live[o].size <= pos)
    && (forall o, o' :: o in live && o' in live && o < o' ==> o + live[o].size <= o')
  }

  /** No freed block shares a byte with a live block or with another freed block. */
  ghost predicate FreeSafe(live: map<nat, Layout>, free: seq<seq<nat>>, pos: nat)
    requires |free| == NUM_CLASSES
  {
    && (forall c, i :: 0 <= c < NUM_CLASSES && 0 <= i < |free[c]| ==> free[c][i] + BlockSize(c) <= pos)
    && (forall c, i, o :: 0 <= c < NUM_CLASSES && 0 <= i < |free[c]| && o in live ==>
          Apart(free[c][i], BlockSize(c), o, live[o].size))
    && (forall c, i, d, j ::
          (0 <= c < NUM_CLASSES && 0 <= i < |free[c]| && 0 <= d < NUM_CLASSES && 0 <= j < |free[d]| &&
           (c != d || i != j)) ==>
          Apart(free[c][i], BlockSize(c), free[d][j], BlockSize(d)))
  }

  lemma InvIsLiveSafe(blocks: map<nat, nat>, pos: nat, live: map<nat, Layout>)
    requires BlocksOk(blocks, pos) && LiveOk(blocks, live)
    ensures LiveSafe(live, pos)
  {
    forall o | o in live ensures live[o].align > 0 && o % live[o].align == 0 && o + live[o].size <= pos {
      assert IsLiveBlock(blocks, o, live[o]);
      GrainHoldsAlign(live[o], o);
      ExtentHoldsRequest(live[o]);
    }
    forall o, o' | o in live && o' in live && o < o' ensures o + live[o].size <= o' {
      assert IsLiveBlock(blocks, o, live[o]) && IsLiveBlock(blocks, o', live[o']);
      ExtentHoldsRequest(live[o]);
    }
  }

  lemma FreeApartFromLive(blocks: map<nat, nat>, pos: nat, live: map<nat, Layout>, c: nat, f: nat, o: nat)
    requires BlocksOk(blocks, pos) && LiveOk(blocks, live) && o in live && IsFreeBlock(blocks, live, c, f)
    ensures Apart(f, BlockSize(c), o, live[o].size)
  {
    assert IsLiveBlock(blocks, o, live[o]);
    ExtentHoldsRequest(live[o]);
  }

  lemma FreeApartFromFree(blocks: map<nat, nat>, pos: nat, live: map<nat, Layout>, c: nat, f: nat, d: nat, g: nat)
    requires BlocksOk(blocks, pos) && IsFreeBlock(blocks, live, c, f) && IsFreeBlock(blocks, live, d, g) && f != g
    ensures Apart(f, BlockSize(c), g, BlockSize(d))
  {
  }

  lemma InvIsFreeSafe(blocks: map<nat, nat>, pos: nat, live: map<nat, Layout>, free: seq<seq<nat>>)
    requires BlocksOk(blocks, pos) && LiveOk(blocks, live) && FreeOk(blocks, live, free)
    ensures FreeSafe(live, free, pos)
  {
    forall c, i | 0 <= c < NUM_CLASSES && 0 <= i < |free[c]|
      ensures free[c][i] + BlockSize(c) <= pos
      ensures forall o :: o in live ==> Apart(free[c][i], BlockSize(c), o, live[o].size)
    {
      assert IsFreeBlock(blocks, live, c, free[c][i]);
      forall o | o in live { FreeApartFromLive(blocks, pos, live, c, free[c][i], o); }
    }
    forall c, i, d, j | 0 <= c < NUM_CLASSES && 0 <= i < |free[c]| &&
                        0 <= d < NUM_CLASSES && 0 <= j < |free[d]| && (c != d || i != j)
      ensures Apart(free[c][i], BlockSize(c), free[d][j], BlockSize(d))
    {
      assert IsFreeBlock(blocks, live, c, free[c][i]) && IsFreeBlock(blocks, live, d, free[d][j]);
      if c != d { ClassesDisjoint(blocks, live, c, free[c][i], d, free[d][j]); }
      FreeApartFromFree(blocks, pos, live, c, free[c][i], d, free[d][j]);
    }
  }

  /** Memory safety of every run: live and freed blocks are in the arena and pairwise disjoint,
      live blocks are large and aligned enough, and following the intrusive links from each head
      visits exactly the freed blocks of that class, each once. */
  lemma RunIsSafe(base: nat, ops: seq<Op>)
    requires base > 0 && Run(base, ops).Some?
    ensures var w := Run(base, ops).value;
            && w.heap.pos <= 0x400_0000
            && LiveSafe(w.book.live, w.heap.pos)
            && |w.book.free| == NUM_CLASSES
            && FreeSafe(w.book.live, w.book.free, w.heap.pos)
            && Shaped(w.heap) && ChainOk(w.heap, w.book.free)
  {
    var w := Run(base, ops).value;
    InvIsLiveSafe(w.book.blocks, w.heap.pos, w.book.live);
    InvIsFreeSafe(w.book.blocks, w.heap.pos, w.book.live, w.book.free);
  }

  /** The address of a live block meets its requested alignment exactly when the arena itself does:
      `HEAP` is a plain byte array, so nothing in the allocator guarantees that. */
  lemma AddressAlignedIff(base: nat, ops: seq<Op>, o: nat)
    requires base > 0 && Run(base, ops).Some? && o in Run(base, ops).value.book.live
    ensures var align := Run(base, ops).value.book.live[o].align;
            align > 0 && ((base + o) % align == 0 <==> base % align == 0)
  {
    RunIsSafe(base, ops);
    var align := Run(base, ops).value.book.live[o].align;
    ShiftByMultiple(base, o, align);
  }

  lemma ShiftByMultiple(b: nat, o: nat, a: nat)
    requires a > 0 && o % a == 0
    ensures (b + o) % a == b % a
  {
    var q, m := b / a, o / a;
    assert b == a * q + b % a && o == a * m;
    assert b + o == a * (q + m) + b % a;
    DivUnique(b + o, a, q + m, b % a);
  }

  /** An odd arena address breaks the alignment of the very first allocation. */
  lemma OddBaseMisaligns(base: nat)
    requires base % 2 == 1
    ensures var ops := [OpAlloc(Layout(8, 8))];
            Run(base, ops).Some? && 0 in Run(base, ops).value.book.live && (base + 0) % 8 != 0
  {
    hide Inv, Accounts, Served, Freed, Written;
    var l := Layout(8, 8);
    InitInv(base);
    InitEmpty(base);
    assert ValidLayout(l) by { assert Pow2(2) == 4; assert Pow2(3) == 8; }
    RunOne(base, OpAlloc(l));
    OddBaseFirstStep(Init(base), l);
  }

  lemma InitEmpty(base: nat)
    ensures var h := Init(base).heap;
            h.pos == 0 && |h.heads| == NUM_CLASSES && forall c :: 0 <= c < NUM_CLASSES ==> h.heads[c] == NULL
  {
  }

  lemma RunOne(base: nat, op: Op)
    requires base > 0 && Inv(Init(base)) && Legal(Init(base), op)
    ensures Run(base, [op]) == Some(Step(Init(base), op))
  {
    assert [op][..0] == [];
    assert Run(base, [op][..0]) == Some(Init(base));
  }

  lemma OddBaseFirstStep(w: World, l: Layout)
    requires Inv(w) && ValidLayout(l) && l == Layout(8, 8) && w.heap.pos == 0
    requires forall c :: 0 <= c < NUM_CLASSES ==> w.heap.heads[c] == NULL
    ensures 0 in Served(w, l).book.live
  {
    ClassBounds(l);
    SizeClassIsLeast(l, 0);
    Pow2Of4();
    CarveStep(w, l);
    AlignUpCorrect(0, Grain(l));
    var o := BumpOffset(w.heap, l);
    AlignedIffMultiple(o, 4);
    assert o == 0;
  }

  // --- Boundedness -----------------------------------------------------------

  ghost function LiveCount(base: nat, ops: seq<Op>, c: nat): nat
    requires base > 0 && Run(base, ops).Some?
  {
    |LiveIn(Run(base, ops).value.book.live, c)|
  }

  ghost function CarvedCount(base: nat, ops: seq<Op>, c: nat): nat
    requires base > 0 && Run(base, ops).Some? && c < NUM_CLASSES
  {
    Run(base, ops).value.book.carved[c]
  }

  /** A carve happens only when every block of the class is live. */
  lemma CarveAtFullUse(w: World, op: Op, c: nat)
    requires Inv(w) && Accounts(w) && Legal(w, op) && c < NUM_CLASSES
    ensures var w' := Step(w, op);
            |w'.book.carved| == NUM_CLASSES &&
            (w'.book.carved[c] == w.book.carved[c] ||
             (w'.book.carved[c] == w.book.carved[c] + 1 && |LiveIn(w'.book.live, c)| == w'.book.carved[c]))
  {
    match op
    case OpAlloc(l) => ServeCarves(w, l, c);
    case OpDealloc(_, _) =>
    case OpWrite(_, _) =>
  }

  lemma ServeCarves(w: World, l: Layout, c: nat)
    requires Inv(w) && Accounts(w) && ValidLayout(l) && c < NUM_CLASSES
    ensures var w' := Served(w, l);
            |w'.book.carved| == NUM_CLASSES &&
            (w'.book.carved[c] == w.book.carved[c] ||
             (w'.book.carved[c] == w.book.carved[c] + 1 && |LiveIn(w'.book.live, c)| == w'.book.carved[c]))
  {
    hide Served, LiveIn, CursorOk;
    ClassBounds(l);
    if MustBump(w.heap, l) {
      CarveStep(w, l);
      BumpOffsetNotLive(w, l);
      LiveInAdd(w.book.live, BumpOffset(w.heap, l), l, c);
      if SizeClass(l) == Some(c) { NullHeadMeansEmpty(w.heap, w.book.free, c); }
    } else {
      ReuseStep(w, l, SizeClass(l).value);
    }
  }

  lemma NullHeadMeansEmpty(h: Heap, free: seq<seq<nat>>, c: nat)
    requires Shaped(h) && |free| == NUM_CLASSES && ChainOk(h, free) && c < NUM_CLASSES && h.heads[c] == NULL
    ensures free[c] == []
  {
  }

  lemma LiveWithinCarved(w: World, c: nat)
    requires Accounts(w) && c < NUM_CLASSES
    ensures |w.book.carved| == NUM_CLASSES && |LiveIn(w.book.live, c)| <= w.book.carved[c]
  {
  }

  lemma NothingCarvedYet(base: nat, c: nat)
    requires base > 0 && c < NUM_CLASSES
    ensures LiveCount(base, [], c) == 0 == CarvedCount(base, [], c)
  {
    assert LiveIn(Init(base).book.live, c) == {};
  }

  /** One call either keeps a class's carved count or raises it to the count then live. */
  lemma CarvedGrows(base: nat, ops: seq<Op>, c: nat)
    requires base > 0 && ops != [] && Run(base, ops).Some? && c < NUM_CLASSES
    ensures var before := ops[..|ops| - 1];
            && Run(base, before).Some?
            && CarvedCount(base, before, c) <= CarvedCount(base, ops, c)
            && (CarvedCount(base, ops, c) == CarvedCount(base, before, c) ||
                LiveCount(base, ops, c) == CarvedCount(base, ops, c))
  {
    hide Inv, Accounts, Step, Legal, LiveIn, Init;
    var w := Run(base, ops[..|ops| - 1]).value;
    LiveWithinCarved(w, c);
    CarveAtFullUse(w, ops[|ops| - 1], c);
  }

  /** The most blocks of a class that were live at once during a run. */
  ghost function Peak(base: nat, ops: seq<Op>, c: nat): nat
    requires base > 0 && Run(base, ops).Some?
  {
    if ops == [] then LiveCount(base, ops, c)
    else Max(Peak(base, ops[..|ops| - 1], c), LiveCount(base, ops, c))
  }

  /** The peak is reached by some prefix of the run, and passed by none. */
  lemma {:induction false} PeakIsMost(base: nat, ops: seq<Op>, c: nat) returns (k: nat)
    requires base > 0 && Run(base, ops).Some?
    ensures k <= |ops| && Run(base, ops[..k]).Some? && LiveCount(base, ops[..k], c) == Peak(base, ops, c)
    ensures forall j :: 0 <= j <= |ops| ==>
              Run(base, ops[..j]).Some? && LiveCount(base, ops[..j], c) <= Peak(base, ops, c)
  {
    hide Inv, Accounts, Step, Legal, LiveIn, Init;
    assert ops[..|ops|] == ops;
    k := |ops|;
    if ops != [] {
      var before := ops[..|ops| - 1];
      var j := PeakIsMost(base, before, c);
      assert before[..j] == ops[..j];
      if LiveCount(base, ops, c) < Peak(base, before, c) { k := j; }
      forall i | 0 <= i <= |ops|
        ensures Run(base, ops[..i]).Some? && LiveCount(base, ops[..i], c) <= Peak(base, ops, c)
      {
        if i < |ops| { assert before[..i] == ops[..i]; }
      }
    }
  }

  /** The blocks ever carved for a class number exactly the most that were live at once. */
  lemma {:induction false} CarvedIsPeak(base: nat, ops: seq<Op>, c: nat)
    requires base > 0 && Run(base, ops).Some? && c < NUM_CLASSES
    ensures CarvedCount(base, ops, c) == Peak(base, ops, c)
  {
    hide Inv, Accounts, Step, Legal, LiveIn, Init;
    if ops == [] {
      NothingCarvedYet(base, c);
    } else {
      LiveWithinCarved(Run(base, ops).value, c);
      CarvedGrows(base, ops, c);
      CarvedIsPeak(base, ops[..|ops| - 1], c);
    }
  }

  ghost function Peaks(base: nat, ops: seq<Op>): (s: seq<nat>)
    requires base > 0 && Run(base, ops).Some?
    ensures |s| == NUM_CLASSES && forall c :: 0 <= c < NUM_CLASSES ==> s[c] == Peak(base, ops, c)
  {
    seq(NUM_CLASSES, c requires 0 <= c => Peak(base, ops, c))
  }

  /** What a request without a class costs if it is served: its size, and less than its alignment of padding. */
  ghost function OversizedCost(w: World, op: Op): nat
    requires Inv(w) && Legal(w, op)
  {
    match op
    case OpAlloc(l) =>
      ChainImpliesSane(w.heap, w.book.free);
      if SizeClass(l).None? && Alloc(w.heap, l).1 != NULL then l.size + l.align - 1 else 0
    case _ => 0
  }

  /** What all served requests without a class cost during a run. */
  ghost function Oversized(base: nat, ops: seq<Op>): nat
    requires base > 0 && Run(base, ops).Some?
  {
    if ops == [] then 0
    else Oversized(base, ops[..|ops| - 1]) + OversizedCost(Run(base, ops[..|ops| - 1]).value, ops[|ops| - 1])
  }

  lemma StepCost(w: World, op: Op)
    requires Inv(w) && Legal(w, op)
    ensures Step(w, op).book.large == w.book.large + OversizedCost(w, op)
  {
    hide LiveOk, FreeOk, BlocksOk, ChainOk, Owned, Bump;
    match op
    case OpAlloc(l) => ServedCost(w, l);
    case OpDealloc(_, _) =>
    case OpWrite(_, _) =>
  }

  lemma ServedCost(w: World, l: Layout)
    requires Inv(w) && ValidLayout(l)
    ensures Served(w, l).book.large == w.book.large + OversizedCost(w, OpAlloc(l))
  {
    hide LiveOk, FreeOk, BlocksOk, ChainOk, Alloc, Shaped, Sane, SizeClass;
  }

  lemma {:induction false} LargeIsOversized(base: nat, ops: seq<Op>)
    requires base > 0 && Run(base, ops).Some?
    ensures Run(base, ops).value.book.large == Oversized(base, ops)
  {
    hide Inv, Accounts, Step, Legal, OversizedCost;
    if ops != [] {
      LargeIsOversized(base, ops[..|ops| - 1]);
      StepCost(Run(base, ops[..|ops| - 1]).value, ops[|ops| - 1]);
    }
  }

  /** The cursor never passes what the per-class peaks and the oversized requests can cost. */
  lemma CursorBounded(base: nat, ops: seq<Op>)
    requires base > 0 && Run(base, ops).Some?
    ensures Run(base, ops).value.heap.pos <= Budget(Peaks(base, ops), NUM_CLASSES) + Oversized(base, ops)
  {
    var w := Run(base, ops).value;
    hide Inv, CountsOk, Budget, Run;
    forall c | 0 <= c < NUM_CLASSES ensures w.book.carved[c] == Peaks(base, ops)[c] { CarvedIsPeak(base, ops, c); }
    assert w.book.carved == Peaks(base, ops);
    LargeIsOversized(base, ops);
  }

  /** No block of the request's size and alignment fits above the cursor. */
  ghost predicate NoRoom(h: Heap, l: Layout)
    requires ValidLayout(l)
  {
    forall o: nat :: h.pos <= o && AlignedTo(o, Grain(l)) ==> o + Extent(l) > 0x400_0000
  }

  lemma NoRoomIff(h: Heap, l: Layout)
    requires ValidLayout(l)
    ensures NoRoom(h, l) <==> BumpOffset(h, l) + Extent(l) > HEAP_SIZE
  {
    var k := Grain(l);
    AlignUpCorrect(h.pos, k);
    hide AlignUp, Grain, Extent, AlignedTo;
    forall o: nat | h.pos <= o && AlignedTo(o, k) ensures BumpOffset(h, l) <= o {
      AlignUpLeast(h.pos, k, o);
    }
  }

  /** The freed blocks that could serve a request. */
  ghost predicate NoneFreed(b: Book, l: Layout)
    requires |b.free| == NUM_CLASSES
  {
    ClassBounds(l);
    SizeClass(l).Some? ==> b.free[SizeClass(l).value] == []
  }

  /** `alloc` returns null exactly when no freed block has the request's class and no block for it
      fits above the cursor. */
  lemma FailsIff(w: World, l: Layout)
    requires Inv(w) && ValidLayout(l)
    ensures Sane(w.heap) && l.align > 0 && |w.book.free| == NUM_CLASSES
    ensures Alloc(w.heap, l).1 == NULL <==> NoneFreed(w.book, l) && NoRoom(w.heap, l)
  {
    ChainImpliesSane(w.heap, w.book.free);
    NoRoomIff(w.heap, l);
    MustBumpIff(w, l);
    ClassBounds(l);
    hide NoRoom, NoneFreed;
    if MustBump(w.heap, l) {
      AllocBumps(w.heap, l);
    } else {
      ReuseStep(w, l, SizeClass(l).value);
    }
  }

  lemma MustBumpIff(w: World, l: Layout)
    requires Inv(w)
    ensures |w.book.free| == NUM_CLASSES && (MustBump(w.heap, l) <==> NoneFreed(w.book, l))
  {
    hide LiveOk, BlocksOk, ListOk, SizeClass;
    ClassBounds(l);
  }

  /** No run can fail an allocation while the budget of its peaks, the request's block and
      its padding fit the arena. */
  lemma NoFailureWithinBudget(base: nat, ops: seq<Op>, l: Layout)
    requires base > 0 && Run(base, ops).Some? && ValidLayout(l)
    requires Budget(Peaks(base, ops), NUM_CLASSES) + Oversized(base, ops) + Extent(l) + Pow2(Grain(l)) - 1 <= 0x400_0000
    ensures var w := Run(base, ops).value;
            Sane(w.heap) && l.align > 0 && Alloc(w.heap, l).1 != NULL
  {
    var w := Run(base, ops).value;
    FailsIff(w, l);
    NoRoomIff(w.heap, l);
    CursorBounded(base, ops);
    AlignUpCorrect(w.heap.pos, Grain(l));
    hide Inv, Accounts, Run, NoRoom, Budget, Alloc, Sane;
  }

  /** A block just freed is the next one served to its class, and the free list is as before. */
  lemma FreeThenAlloc(w: World, o: nat, l: Layout)
    requires Inv(w) && o in w.book.live && ValidLayout(l)
    requires SizeClass(l).Some? && SizeClass(l) == SizeClass(w.book.live[o])
    ensures var w1 := Freed(w, o);
            && Inv(w1) && Sane(w1.heap) && l.align > 0
            && Alloc(w1.heap, l).1 == w.heap.base + o
            && Served(w1, l).heap.heads == w.heap.heads
            && Served(w1, l).book == w.book.(live := w.book.live[o := l])
  {
    hide Inv, Served, Freed, ChainOk;
    var c := SizeClass(l).value;
    ClassBounds(l);
    DeallocKeepsInv(w, o);
    FreedWorld(w, o, c);
    var w1 := Freed(w, o);
    assert CanReuse(w1, l, c);
    ReuseStep(w1, l, c);
    assert w.book.free[c := [o] + w.book.free[c]][c := w.book.free[c]] == w.book.free;
    assert w.heap.heads[c := w.heap.base + o][c := w.heap.heads[c]] == w.heap.heads;
    assert (w.book.live - {o})[o := l] == w.book.live[o := l];
  }

  lemma FreedWorld(w: World, o: nat, c: nat)
    requires Inv(w) && o in w.book.live && c < NUM_CLASSES && SizeClass(w.book.live[o]) == Some(c)
    ensures |w.book.free| == NUM_CLASSES && |w.heap.heads| == NUM_CLASSES
    ensures w.heap.heads[c] == Link(w.heap.base, w.book.free[c], 0)
    ensures var w1 := Freed(w, o);
            && w1.book == w.book.(live := w.book.live - {o}, free := w.book.free[c := [o] + w.book.free[c]])
            && w1.heap.base == w.heap.base && w1.heap.heads == w.heap.heads[c := w.heap.base + o]
  {
  }
}
