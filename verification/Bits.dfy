/** Powers of two, and the bit tricks the display-image allocator plays on them. */
module Bits {

  function Pow2(k: nat): (p: nat)
    ensures p > 0
  {
    if k == 0 then 1 else 2 * Pow2(k - 1)
  }

  ghost predicate IsPow2(n: nat) {
    exists k: nat :: n == Pow2(k)
  }

  /** `usize::next_power_of_two`. */
  function NextPowerOfTwo(n: nat): (p: nat)
    ensures n <= p
    ensures n > 0 ==> p < 2 * n
  {
    if n <= 1 then 1 else 2 * NextPowerOfTwo((n + 1) / 2)
  }

  /** `usize::trailing_zeros`, on a non-zero word. */
  function TrailingZeros(n: nat): nat
    requires n > 0
  {
    if n % 2 == 1 then 0 else 1 + TrailingZeros(n / 2)
  }

  /** Bitwise `x & !y`. */
  function AndNot(x: nat, y: nat): nat {
    if x == 0 then 0
    else 2 * AndNot(x / 2, y / 2) + (if x % 2 == 1 && y % 2 == 0 then 1 else 0)
  }

  /** `(pos + align - 1) & !(align - 1)`. */
  function AlignUp(pos: nat, align: nat): nat
    requires align > 0
  {
    AndNot(pos + align - 1, align - 1)
  }

  lemma DivUnique(x: int, d: int, q: int, r: int)
    requires 0 <= r < d
    requires x == d * q + r
    ensures x / d == q && x % d == r
  {
    var e := x / d;
    assert d * e + x % d == x;
    if e < q {
      MulGap(d, e, q);
    } else if e > q {
      MulGap(d, q, e);
    }
  }

  lemma {:induction false} MulGap(d: int, a: int, b: int)
    requires 0 < d && a < b
    ensures d * a + d <= d * b
    decreases b - a
  {
    if a + 1 < b {
      MulGap(d, a, b - 1);
    }
    assert d * b == d * (b - 1) + d;
  }

  lemma ModDouble(x: nat, p: nat)
    requires p > 0
    ensures x % (2 * p) == 2 * ((x / 2) % p) + x % 2
  {
    var h := x / 2;
    var r, m := h % p, h / p;
    assert h == p * m + r;
    calc {
      x;
      2 * h + x % 2;
      2 * (p * m) + (2 * r + x % 2);
      (2 * p) * m + (2 * r + x % 2);
    }
    DivUnique(x, 2 * p, m, 2 * r + x % 2);
  }

  lemma {:induction false} Pow2Divides(j: nat, k: nat)
    requires j <= k
    ensures Pow2(j) <= Pow2(k) && Pow2(k) % Pow2(j) == 0
  {
    if j < k {
      Pow2Divides(j, k - 1);
      var m := Pow2(k - 1) / Pow2(j);
      assert Pow2(k) == Pow2(j) * (2 * m);
      DivUnique(Pow2(k), Pow2(j), 2 * m, 0);
    }
  }

  lemma {:induction false} Pow2StrictlyIncreasing(j: nat, k: nat)
    requires j < k
    ensures Pow2(j) < Pow2(k)
    decreases k
  {
    if j < k - 1 {
      Pow2StrictlyIncreasing(j, k - 1);
    }
  }

  lemma {:induction false} TrailingZerosOfPow2(k: nat)
    ensures TrailingZeros(Pow2(k)) == k
  {
    if k > 0 {
      TrailingZerosOfPow2(k - 1);
    }
  }

  /** `next_power_of_two` is the least power of two that is not below its argument. */
  lemma {:induction false} NextPowerOfTwoIsLeast(n: nat) returns (k: nat)
    ensures NextPowerOfTwo(n) == Pow2(k)
    ensures n <= Pow2(k)
    ensures k > 0 ==> Pow2(k - 1) < n
  {
    if n <= 1 {
      k := 0;
    } else {
      var j := NextPowerOfTwoIsLeast((n + 1) / 2);
      k := j + 1;
    }
  }

  lemma {:induction false} AndNotZero(x: nat)
    ensures AndNot(x, 0) == x
  {
    if x > 0 {
      AndNotZero(x / 2);
    }
  }

  lemma AndNotOddMask(x: nat, p: nat)
    requires p > 0
    ensures AndNot(x, 2 * p - 1) == 2 * AndNot(x / 2, p - 1)
  {
    var y := 2 * p - 1;
    assert y / 2 == p - 1 && y % 2 == 1;
  }

  lemma AndNotDouble(x: nat, p: nat)
    requires p > 0 && AndNot(x / 2, p - 1) == x / 2 - x / 2 % p
    ensures AndNot(x, 2 * p - 1) == x - x % (2 * p)
  {
    AndNotOddMask(x, p);
    hide AndNot;
    ModDouble(x, p);
    HalvesRejoin(x, x / 2, x / 2 % p, x % (2 * p), AndNot(x / 2, p - 1), AndNot(x, 2 * p - 1));
  }

  /** Clearing the low `k` bits rounds down to a multiple of `2^k`. */
  lemma {:induction false} AndNotLowBits(x: nat, k: nat)
    ensures AndNot(x, Pow2(k) - 1) == x - x % Pow2(k)
    decreases k
  {
    if k == 0 {
      AndNotZero(x);
    } else {
      AndNotLowBits(x / 2, k - 1);
      hide AndNot;
      AndNotDouble(x, Pow2(k - 1));
    }
  }

  lemma HalvesRejoin(x: int, h: int, r: int, s: int, low: int, all: int)
    requires h == x / 2 && s == 2 * r + x % 2 && low == h - r && all == 2 * low
    ensures all == x - s
  {
  }

  lemma RoundDown(x: nat, d: nat)
    requires d > 0
    ensures 0 <= x - x % d && (x - x % d) % d == 0
  {
    var q := x / d;
    assert x == d * q + x % d;
    DivUnique(d * q, d, q, 0);
  }

  /** `x` ends in at least `k` zero bits. */
  ghost predicate AlignedTo(x: nat, k: nat) {
    k == 0 || (x % 2 == 0 && AlignedTo(x / 2, k - 1))
  }

  lemma {:induction false} AlignedIffMultiple(x: nat, k: nat)
    ensures AlignedTo(x, k) <==> x % Pow2(k) == 0
    decreases k
  {
    if k > 0 {
      AlignedIffMultiple(x / 2, k - 1);
      ModDouble(x, Pow2(k - 1));
    }
  }

  lemma {:induction false} AlignedToLess(x: nat, k: nat, j: nat)
    requires AlignedTo(x, k) && j <= k
    ensures AlignedTo(x, j)
    decreases k
  {
    if j > 0 {
      AlignedToLess(x / 2, k - 1, j - 1);
    }
  }

  /** The mask idiom rounds `pos` up to the next multiple of a power of two. */
  lemma AlignUpCorrect(pos: nat, k: nat)
    ensures AlignedTo(AlignUp(pos, Pow2(k)), k)
    ensures pos <= AlignUp(pos, Pow2(k)) < pos + Pow2(k)
  {
    var x := pos + Pow2(k) - 1;
    AndNotLowBits(x, k);
    RoundDown(x, Pow2(k));
    AlignedIffMultiple(AlignUp(pos, Pow2(k)), k);
  }

  lemma MultiplesApart(d: nat, x: nat, y: nat)
    requires d > 0 && x % d == 0 && y % d == 0 && x < y
    ensures x + d <= y
  {
    var q, r := x / d, y / d;
    assert x == d * q && y == d * r;
    if q < r { MulGap(d, q, r); }
  }

  /** It is the least such multiple. */
  lemma AlignUpLeast(pos: nat, k: nat, o: nat)
    requires pos <= o && AlignedTo(o, k)
    ensures AlignUp(pos, Pow2(k)) <= o
  {
    hide AlignUp, AlignedTo, Pow2;
    AlignUpCorrect(pos, k);
    var a := AlignUp(pos, Pow2(k));
    AlignedIffMultiple(o, k);
    AlignedIffMultiple(a, k);
    if o < a { MultiplesApart(Pow2(k), o, a); }
  }

  /** Two extents with no byte of one inside the other. */
  ghost predicate Apart(o: nat, n: nat, o': nat, n': nat) {
    o + n <= o' || o' + n' <= o
  }
}
