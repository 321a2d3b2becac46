/** The bitwise CRC-32 of the GPT normaliser. */
module Crc {
  type Bytes = seq<bv8>

  const POLY: bv32 := 0xEDB8_8320

  function Xor(x: bv32, y: bv32): bv32 { x ^ y }
  function Half(x: bv32): bv32 { x >> 1 }
  predicate Odd(x: bv32) { x & 1 != 0 }

  function BitStep(s: bv32): bv32 {
    if Odd(s) then Xor(Half(s), POLY) else Half(s)
  }

  function BitSteps(s: bv32, n: nat): bv32
    decreases n
  {
    if n == 0 then s else BitSteps(BitStep(s), n - 1)
  }

  function ByteStep(s: bv32, b: bv8): bv32 { BitSteps(Xor(s, b as bv32), 8) }

  /** The register after the bytes `data`, from `s`. */
  function Feed(s: bv32, data: Bytes): bv32 {
    if data == [] then s else ByteStep(Feed(s, data[..|data| - 1]), data[|data| - 1])
  }

  function Not(x: bv32): bv32 { !x }

  function Crc32(data: Bytes): bv32 { Not(Feed(0xFFFF_FFFF, data)) }

  /** The eight shifts of one byte. */
  method EightSteps(s: bv32) returns (x: bv32)
    ensures x == BitSteps(s, 8)
  {
    hide Xor, Half, Odd;
    x := s;
    for j := 0 to 8
      invariant BitSteps(s, 8) == BitSteps(x, 8 - j)
    {
      x := if Odd(x) then Xor(Half(x), POLY) else Half(x);
    }
  }

  /** `crc32` over the part `[lo, hi)` of an image. */
  method ComputeCrc32(img: array<bv8>, lo: nat, hi: nat) returns (crc: bv32)
    requires lo <= hi <= img.Length
    ensures crc == Crc32(img[lo..hi])
  {
    hide BitSteps, Xor;
    var s: bv32 := 0xFFFF_FFFF;
    for k := lo to hi
      invariant s == Feed(0xFFFF_FFFF, img[lo..k])
    {
      assert img[lo..k + 1][..k - lo] == img[lo..k];
      s := EightSteps(Xor(s, img[k] as bv32));
    }
    crc := Not(s);
  }

  // --- Each bit step is a linear bijection on 32-bit states -------------------

  lemma HalfLinear(x: bv32, y: bv32)
    ensures Half(Xor(x, y)) == Xor(Half(x), Half(y))
    ensures Odd(Xor(x, y)) <==> Odd(x) != Odd(y)
  {
  }

  lemma XorLaws(a: bv32, b: bv32, p: bv32)
    ensures Xor(Xor(a, p), b) == Xor(Xor(a, b), p) && Xor(a, Xor(b, p)) == Xor(Xor(a, b), p)
    ensures Xor(Xor(a, p), Xor(b, p)) == Xor(a, b)
  {
  }

  lemma BitStepLinear(x: bv32, y: bv32)
    ensures BitStep(Xor(x, y)) == Xor(BitStep(x), BitStep(y))
  {
    hide Xor, Half, Odd;
    HalfLinear(x, y);
    XorLaws(Half(x), Half(y), POLY);
  }

  lemma BitStepInjective(x: bv32, y: bv32)
    requires BitStep(x) == BitStep(y)
    ensures x == y
  {
  }

  lemma {:induction false} BitStepsLinear(x: bv32, y: bv32, n: nat)
    ensures BitSteps(Xor(x, y), n) == Xor(BitSteps(x, n), BitSteps(y, n))
    decreases n
  {
    hide BitStep, Xor;
    if n > 0 {
      BitStepLinear(x, y);
      BitStepsLinear(BitStep(x), BitStep(y), n - 1);
    }
  }

  lemma {:induction false} BitStepsInjective(x: bv32, y: bv32, n: nat)
    requires BitSteps(x, n) == BitSteps(y, n)
    ensures x == y
    decreases n
  {
    if n > 0 {
      hide Xor, Half, Odd;
      BitStepsInjective(BitStep(x), BitStep(y), n - 1);
      BitStepInjective(x, y);
    }
  }

  lemma {:induction false} BitStepsAdd(x: bv32, m: nat, n: nat)
    ensures BitSteps(BitSteps(x, m), n) == BitSteps(x, m + n)
    decreases m
  {
    if m > 0 { BitStepsAdd(BitStep(x), m - 1, n); }
  }

  lemma {:induction false} FeedConcat(s: bv32, a: Bytes, b: Bytes)
    ensures Feed(s, a + b) == Feed(Feed(s, a), b)
  {
    if b == [] {
      assert a + b == a;
    } else {
      FeedConcat(s, a, b[..|b| - 1]);
      assert (a + b)[..|a + b| - 1] == a + b[..|b| - 1];
    }
  }

  /** Whatever follows, different registers stay different. */
  lemma {:induction false} FeedInjective(x: bv32, y: bv32, data: Bytes)
    requires Feed(x, data) == Feed(y, data)
    ensures x == y
  {
    hide BitSteps, Xor;
    if data != [] {
      var i := |data| - 1;
      var p, q := Feed(x, data[..i]), Feed(y, data[..i]);
      BitStepsInjective(Xor(p, data[i] as bv32), Xor(q, data[i] as bv32), 8);
      XorCancel(p, q, data[i] as bv32);
      FeedInjective(x, y, data[..i]);
    }
  }

  lemma XorCancel(x: bv32, y: bv32, z: bv32)
    requires Xor(x, z) == Xor(y, z)
    ensures x == y
  {
    assert (x ^ z) ^ z == x && (y ^ z) ^ z == y;
  }

  // --- Four bytes at once -----------------------------------------------------

  function Up(y: bv32): bv32 { y << 8 }

  /** The top byte is zero. */
  predicate Small(y: bv32) { y & 0xFF00_0000 == 0 }

  /** A state with a zero low byte is only shifted. */
  lemma ShiftDown(x: bv32)
    requires x & 0xFF == 0
    ensures BitSteps(x, 8) == x >> 8
  {
    var x1, x2, x3, x4 := x >> 1, x >> 2, x >> 3, x >> 4;
    var x5, x6, x7, x8 := x >> 5, x >> 6, x >> 7, x >> 8;
    assert BitStep(x) == x1 && BitStep(x1) == x2 && BitStep(x2) == x3 && BitStep(x3) == x4;
    assert BitStep(x4) == x5 && BitStep(x5) == x6 && BitStep(x6) == x7 && BitStep(x7) == x8;
    assert BitSteps(x4, 4) == x8 by {
      assert BitSteps(x7, 1) == BitSteps(x8, 0);
      assert BitSteps(x6, 2) == BitSteps(x7, 1);
      assert BitSteps(x5, 3) == BitSteps(x6, 2);
    }
    assert BitSteps(x, 8) == BitSteps(x1, 7);
    assert BitSteps(x1, 7) == BitSteps(x2, 6);
    assert BitSteps(x2, 6) == BitSteps(x3, 5);
    assert BitSteps(x3, 5) == BitSteps(x4, 4);
  }

  lemma UpDown(y: bv32)
    requires Small(y)
    ensures Up(y) & 0xFF == 0 && Up(y) >> 8 == y
  {
  }

  lemma UpIsShifted(y: bv32)
    requires Small(y)
    ensures BitSteps(Up(y), 8) == y
  {
    UpDown(y);
    ShiftDown(Up(y));
  }

  /** Mixing a byte in after eight shifts is mixing it in higher up before them. */
  lemma Absorb(w: bv32, y: bv32)
    requires Small(y)
    ensures Xor(BitSteps(w, 8), y) == BitSteps(Xor(w, Up(y)), 8)
  {
    UpIsShifted(y);
    hide Xor, BitSteps, Up;
    BitStepsLinear(w, Up(y), 8);
  }

  function Word(b0: bv8, b1: bv8, b2: bv8, b3: bv8): bv32 {
    Xor(Xor(Xor(b0 as bv32, Up(b1 as bv32)), Up(Up(b2 as bv32))), Up(Up(Up(b3 as bv32))))
  }

  function ByteOf(x: bv32, k: bv32): bv32
    requires k < 32
  {
    (x >> k) & 0xFF
  }

  lemma WordBytes(b0: bv8, b1: bv8, b2: bv8, b3: bv8)
    ensures var w := Word(b0, b1, b2, b3);
            ByteOf(w, 0) == b0 as bv32 && ByteOf(w, 8) == b1 as bv32 &&
            ByteOf(w, 16) == b2 as bv32 && ByteOf(w, 24) == b3 as bv32
  {
  }

  lemma WidenInjective(a: bv8, b: bv8)
    requires a as bv32 == b as bv32
    ensures a == b
  {
  }

  lemma WordInjective(a0: bv8, a1: bv8, a2: bv8, a3: bv8, b0: bv8, b1: bv8, b2: bv8, b3: bv8)
    requires Word(a0, a1, a2, a3) == Word(b0, b1, b2, b3)
    ensures a0 == b0 && a1 == b1 && a2 == b2 && a3 == b3
  {
    WordBytes(a0, a1, a2, a3);
    WordBytes(b0, b1, b2, b3);
    hide Word, ByteOf;
    WidenInjective(a0, b0);
    WidenInjective(a1, b1);
    WidenInjective(a2, b2);
    WidenInjective(a3, b3);
  }

  lemma UpBounds(b: bv8)
    ensures Small(b as bv32) && Small(Up(b as bv32)) && Small(Up(Up(b as bv32)))
  {
  }

  lemma Absorb2(w: bv32, b: bv8)
    ensures Xor(BitSteps(w, 16), b as bv32) == BitSteps(Xor(w, Up(Up(b as bv32))), 16)
  {
    UpBounds(b);
    BitStepsAdd(w, 8, 8);
    var y := b as bv32;
    hide Xor, BitSteps, Up;
    Absorb(BitSteps(w, 8), y);
    Absorb(w, Up(y));
    BitStepsAdd(Xor(w, Up(Up(y))), 8, 8);
  }

  lemma Absorb3(w: bv32, b: bv8)
    ensures Xor(BitSteps(w, 24), b as bv32) == BitSteps(Xor(w, Up(Up(Up(b as bv32)))), 24)
  {
    UpBounds(b);
    BitStepsAdd(w, 8, 16);
    var y := b as bv32;
    hide Xor, BitSteps, Up;
    Absorb2(BitSteps(w, 8), b);
    Absorb(w, Up(Up(y)));
    BitStepsAdd(Xor(w, Up(Up(Up(y)))), 8, 16);
  }

  lemma FeedSnoc(s: bv32, data: Bytes, b: bv8)
    ensures Feed(s, data + [b]) == ByteStep(Feed(s, data), b)
  {
    assert (data + [b])[..|data|] == data;
  }

  /** Four bytes are absorbed as one 32-bit word, whatever the register. */
  lemma FeedFour(s: bv32, b0: bv8, b1: bv8, b2: bv8, b3: bv8)
    ensures Feed(s, [b0, b1, b2, b3]) == BitSteps(Xor(s, Word(b0, b1, b2, b3)), 32)
  {
    var y0, y1, y2, y3 := b0 as bv32, Up(b1 as bv32), Up(Up(b2 as bv32)), Up(Up(Up(b3 as bv32)));
    UpBounds(b1);
    XorLaws(s, y0, y1);
    XorLaws(s, Xor(y0, y1), y2);
    XorLaws(s, Xor(Xor(y0, y1), y2), y3);
    hide Xor, BitSteps, Up;
    FeedSnoc(s, [], b0);
    assert Feed(s, []) == s && [] + [b0] == [b0];
    var w0 := Xor(s, y0);
    FeedSnoc(s, [b0], b1);
    assert [b0] + [b1] == [b0, b1];
    var w1 := Xor(w0, y1);
    Absorb(w0, b1 as bv32);
    BitStepsAdd(w1, 8, 8);
    FeedSnoc(s, [b0, b1], b2);
    assert [b0, b1] + [b2] == [b0, b1, b2];
    var w2 := Xor(w1, y2);
    Absorb2(w1, b2);
    BitStepsAdd(w2, 16, 8);
    FeedSnoc(s, [b0, b1, b2], b3);
    assert [b0, b1, b2] + [b3] == [b0, b1, b2, b3];
    var w3 := Xor(w2, y3);
    Absorb3(w2, b3);
    BitStepsAdd(w3, 24, 8);
  }

  lemma FeedFourInjective(s: bv32, a: Bytes, b: Bytes)
    requires |a| == |b| == 4 && Feed(s, a) == Feed(s, b)
    ensures a == b
  {
    assert a == [a[0], a[1], a[2], a[3]] && b == [b[0], b[1], b[2], b[3]];
    FeedFour(s, a[0], a[1], a[2], a[3]);
    FeedFour(s, b[0], b[1], b[2], b[3]);
    var u, v := Word(a[0], a[1], a[2], a[3]), Word(b[0], b[1], b[2], b[3]);
    hide Word, BitSteps, Feed;
    BitStepsInjective(Xor(s, u), Xor(s, v), 32);
    XorCancelLeft(s, u, v);
    WordInjective(a[0], a[1], a[2], a[3], b[0], b[1], b[2], b[3]);
  }

  lemma XorCancelLeft(s: bv32, u: bv32, v: bv32)
    requires Xor(s, u) == Xor(s, v)
    ensures u == v
  {
    assert Xor(s, Xor(s, u)) == u && Xor(s, Xor(s, v)) == v;
  }

  /** `a` and `b` agree except perhaps at the four positions from `k`. */
  ghost predicate DifferWithin(a: Bytes, b: Bytes, k: nat) {
    |a| == |b| && forall i :: 0 <= i < |a| && (i < k || k + 4 <= i) ==> a[i] == b[i]
  }

  lemma WindowInside(s: bv32, a: Bytes, b: Bytes, k: nat)
    requires DifferWithin(a, b, k) && k + 4 <= |a| && Feed(s, a) == Feed(s, b)
    ensures a == b
  {
    hide Feed;
    var p, m, n, q := a[..k], a[k..k + 4], b[k..k + 4], a[k + 4..];
    assert a == (p + m) + q;
    assert b[..k] == p && b[k + 4..] == q;
    assert b == (p + n) + q;
    FeedConcat(s, p + m, q);
    FeedConcat(s, p + n, q);
    FeedInjective(Feed(s, p + m), Feed(s, p + n), q);
    FeedConcat(s, p, m);
    FeedConcat(s, p, n);
    FeedFourInjective(Feed(s, p), m, n);
  }

  /** Any change confined to four consecutive bytes changes the CRC. */
  lemma Crc32DetectsWindow(a: Bytes, b: Bytes, k: nat)
    requires DifferWithin(a, b, k) && a != b
    ensures Crc32(a) != Crc32(b)
  {
    hide Not, Feed;
    if Crc32(a) == Crc32(b) {
      NotInjective(Feed(0xFFFF_FFFF, a), Feed(0xFFFF_FFFF, b));
      WindowAnywhere(0xFFFF_FFFF, a, b, k);
    }
  }

  lemma WindowAnywhere(s: bv32, a: Bytes, b: Bytes, k: nat)
    requires DifferWithin(a, b, k) && Feed(s, a) == Feed(s, b)
    ensures a == b
  {
    hide Feed;
    if k + 4 <= |a| {
      WindowInside(s, a, b, k);
    } else {
      var z: Bytes := [0, 0, 0, 0];
      FeedConcat(s, a, z);
      FeedConcat(s, b, z);
      WindowInside(s, a + z, b + z, if k <= |a| then k else |a|);
      assert a == (a + z)[..|a|] && b == (b + z)[..|a|];
    }
  }

  lemma NotInjective(x: bv32, y: bv32)
    requires Not(x) == Not(y)
    ensures x == y
  {
  }
}
