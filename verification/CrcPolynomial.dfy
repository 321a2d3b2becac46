/** What the CRC computes: a remainder of polynomials over the two-element field. A polynomial is
    the set of its exponents. */
module CrcPolynomial {
  import opened Crc
  import opened Gpt

  type Poly = set<nat>

  function Plus(a: Poly, b: Poly): Poly { (a - b) + (b - a) }

  function Shift(a: Poly, k: nat): Poly { set e | e in a :: e + k }

  lemma InPlus(a: Poly, b: Poly)
    ensures forall e :: e in Plus(a, b) <==> (e in a) != (e in b)
  {
  }

  lemma InShift(a: Poly, k: nat)
    ensures forall e :: e in Shift(a, k) <==> e >= k && e - k in a
  {
    forall e | e >= k && e - k in a ensures e in Shift(a, k) { assert e == (e - k) + k; }
  }

  lemma PlusLaws(a: Poly, b: Poly, c: Poly)
    ensures Plus(Plus(a, b), c) == Plus(a, Plus(b, c)) && Plus(a, b) == Plus(b, a)
    ensures Plus(a, a) == {} && Plus(a, {}) == a
  {
    InPlus(a, b);
    InPlus(b, c);
    InPlus(Plus(a, b), c);
    InPlus(a, Plus(b, c));
    hide Plus;
    assert forall e :: e in Plus(Plus(a, b), c) <==> e in Plus(a, Plus(b, c));
    PlusSelf(a, b);
  }

  lemma PlusSelf(a: Poly, b: Poly)
    ensures Plus(a, a) == {} && Plus(a, {}) == a && Plus(a, b) == Plus(b, a)
  {
  }

  /** Terms cancel in pairs. */
  lemma PlusCancel(a: Poly, b: Poly, p: Poly)
    ensures Plus(Plus(a, p), Plus(b, p)) == Plus(a, b)
    ensures Plus(p, Plus(p, a)) == a
  {
    hide Plus;
    PlusLaws(a, p, Plus(b, p));
    PlusLaws(p, b, p);
    PlusLaws(p, p, b);
    PlusLaws(b, p, p);
    PlusLaws(p, p, a);
    PlusLaws({}, b, p);
    PlusLaws(b, {}, p);
    PlusLaws(a, {}, p);
    PlusLaws({}, a, p);
  }

  lemma ShiftLaws(a: Poly, b: Poly, j: nat, k: nat)
    ensures Shift(Plus(a, b), k) == Plus(Shift(a, k), Shift(b, k))
    ensures Shift(Shift(a, j), k) == Shift(a, j + k) && Shift(a, 0) == a
  {
    InPlus(a, b);
    InPlus(Shift(a, k), Shift(b, k));
    InShift(Plus(a, b), k);
    InShift(a, k);
    InShift(b, k);
    hide Plus, Shift;
    assert forall e :: e in Shift(Plus(a, b), k) <==> e in Plus(Shift(a, k), Shift(b, k));
    ShiftTwice(a, j, k);
  }

  lemma ShiftTwice(a: Poly, j: nat, k: nat)
    ensures Shift(Shift(a, j), k) == Shift(a, j + k) && Shift(a, 0) == a
  {
    InShift(a, j);
    InShift(Shift(a, j), k);
    InShift(a, j + k);
    InShift(a, 0);
    hide Shift;
    assert forall e :: e in Shift(Shift(a, j), k) <==> e in Shift(a, j + k);
  }

  /** The generator of CRC-32. */
  const GENERATOR: Poly := {32, 26, 23, 22, 16, 12, 11, 10, 8, 7, 5, 4, 2, 1, 0}

  const ONES: Poly := set e: nat | e < 32

  // --- Multiples of the generator -----------------------------------------------------

  /** The generator times the polynomial with coefficients `q`, lowest first. */
  function Times(q: seq<bool>): Poly {
    if q == [] then {}
    else Plus(Times(q[..|q| - 1]), if q[|q| - 1] then Shift(GENERATOR, |q| - 1) else {})
  }

  ghost predicate IsMultiple(a: Poly) { exists q :: Times(q) == a }

  /** `r` is what division of `m` by the generator leaves. */
  ghost predicate IsRemainder(m: Poly, r: Poly) {
    (forall e :: e in r ==> e < 32) && IsMultiple(Plus(m, r))
  }

  /** A nonzero multiple has an exponent of 32 or more. */
  lemma {:induction false} MultipleDegree(q: seq<bool>)
    ensures forall e :: e in Times(q) ==> e < |q| + 32
    ensures Times(q) != {} ==> exists e :: e in Times(q) && e >= 32
  {
    if q != [] {
      var n := |q| - 1;
      MultipleDegree(q[..n]);
      InShift(GENERATOR, n);
      InPlus(Times(q[..n]), if q[n] then Shift(GENERATOR, n) else {});
      if q[n] { assert n + 32 in Shift(GENERATOR, n) && n + 32 in Times(q); }
    }
  }

  lemma {:induction false} TimesPlus(p: seq<bool>, q: seq<bool>, s: seq<bool>)
    requires |p| == |q| == |s| && forall i :: 0 <= i < |s| ==> s[i] == (p[i] != q[i])
    ensures Times(s) == Plus(Times(p), Times(q))
  {
    if s == [] {
      PlusSelf({}, {});
    } else {
      var n := |s| - 1;
      TimesPlus(p[..n], q[..n], s[..n]);
      var a, b, g := Times(p[..n]), Times(q[..n]), Shift(GENERATOR, n);
      assert Times(s) == Plus(Plus(a, b), if s[n] then g else {});
      assert Times(p) == Plus(a, if p[n] then g else {}) && Times(q) == Plus(b, if q[n] then g else {});
      hide Times, Plus, Shift;
      TermsAdd(a, b, g, p[n], q[n]);
    }
  }

  lemma TermsAdd(a: Poly, b: Poly, g: Poly, p: bool, q: bool)
    ensures Plus(Plus(a, if p then g else {}), Plus(b, if q then g else {})) ==
            Plus(Plus(a, b), if p != q then g else {})
  {
    hide Plus;
    PlusLaws(a, g, b);
    PlusLaws(a, b, g);
    PlusLaws(b, g, a);
    PlusLaws(Plus(a, b), {}, {});
    PlusLaws(b, {}, {});
    PlusCancel(a, b, g);
  }

  lemma {:induction false} TimesPad(q: seq<bool>, n: nat)
    ensures Times(q + seq(n, _ => false)) == Times(q)
  {
    var more := q + seq(n, _ => false);
    if n == 0 {
      assert more == q;
    } else {
      TimesPad(q, n - 1);
      assert more[..|more| - 1] == q + seq(n - 1, _ => false) && !more[|more| - 1];
      PlusSelf(Times(q), {});
    }
  }

  lemma MultiplesAdd(a: Poly, b: Poly)
    requires IsMultiple(a) && IsMultiple(b)
    ensures IsMultiple(Plus(a, b))
  {
    var p :| Times(p) == a;
    var q :| Times(q) == b;
    TimesPad(p, |q|);
    TimesPad(q, |p|);
    var p', q' := p + seq(|q|, _ => false), q + seq(|p|, _ => false);
    var s := seq(|p'|, i requires 0 <= i < |p'| => p'[i] != q'[i]);
    TimesPlus(p', q', s);
  }

  lemma {:induction false} TimesShift(q: seq<bool>)
    ensures Times([false] + q) == Shift(Times(q), 1)
  {
    var more := [false] + q;
    if q == [] {
      assert more[..0] == [] && Times(more) == Plus(Times([]), {});
      assert Times([]) == {} && Times(more) == {};
    } else {
      var n := |q| - 1;
      TimesShift(q[..n]);
      assert more[..|more| - 1] == [false] + q[..n] && more[|more| - 1] == q[n];
      var a, g := Times(q[..n]), if q[n] then Shift(GENERATOR, n) else {};
      var g' := if q[n] then Shift(GENERATOR, n + 1) else {};
      assert Times(q) == Plus(a, g) && Times(more) == Plus(Shift(a, 1), g');
      ShiftLaws(a, g, 0, 1);
      ShiftLaws(GENERATOR, {}, n, 1);
      InShift({}, 1);
      hide Times, Plus, Shift;
    }
  }

  lemma MultipleShift(a: Poly)
    requires IsMultiple(a)
    ensures IsMultiple(Shift(a, 1))
  {
    var q :| Times(q) == a;
    TimesShift(q);
  }

  lemma GeneratorIsMultiple()
    ensures IsMultiple(GENERATOR) && IsMultiple({})
  {
    assert [true][..0] == [];
    assert Times([true]) == GENERATOR;
    assert Times([]) == {};
  }

  /** The remainder is unique. */
  lemma RemainderUnique(m: Poly, r: Poly, s: Poly)
    requires IsRemainder(m, r) && IsRemainder(m, s)
    ensures r == s
  {
    MultiplesAdd(Plus(m, r), Plus(m, s));
    PlusSelf(m, r);
    PlusSelf(m, s);
    PlusCancel(r, s, m);
    var d := Plus(r, s);
    InPlus(r, s);
    hide Plus;
    var q :| Times(q) == d;
    MultipleDegree(q);
    hide Times;
    forall e ensures e in r <==> e in s { assert e !in d; }
  }

  // --- Bits -----------------------------------------------------------------------------

  /** Bit `k` of `x`, the lowest first. */
  predicate Bit(x: bv32, k: nat)
    decreases k
  {
    if k == 0 then Odd(x) else Bit(Half(x), k - 1)
  }

  lemma {:induction false} BitXor(x: bv32, y: bv32, k: nat)
    ensures Bit(Xor(x, y), k) <==> Bit(x, k) != Bit(y, k)
    decreases k
  {
    HalfLinear(x, y);
    hide Xor, Half, Odd;
    if k > 0 { BitXor(Half(x), Half(y), k - 1); }
  }

  lemma OddHalves(x: bv32)
    ensures (Odd(x) <==> x & 0x01 != 0) && (Odd(Half(x)) <==> x & 0x02 != 0)
    ensures (Odd(Half(Half(x))) <==> x & 0x04 != 0) && (Odd(Half(Half(Half(x)))) <==> x & 0x08 != 0)
  {
  }

  function Down4(x: bv32): bv32 { x >> 4 }
  function Down8(x: bv32): bv32 { x >> 8 }

  lemma Halves(x: bv32)
    ensures Half(Half(Half(Half(x)))) == Down4(x) && Down4(Down4(x)) == Down8(x)
    ensures Down8(Down8(Down8(Down8(x)))) == 0
  {
  }

  lemma BitUp4(x: bv32, k: nat)
    ensures Bit(x, k + 4) <==> Bit(Down4(x), k)
  {
    Halves(x);
    hide Half, Odd, Down4;
    assert Bit(x, k + 4) == Bit(Half(x), k + 3) == Bit(Half(Half(x)), k + 2) == Bit(Half(Half(Half(x))), k + 1);
  }

  lemma BitUp(x: bv32, k: nat)
    ensures Bit(x, k + 8) <==> Bit(Down8(x), k)
  {
    Halves(x);
    hide Half, Odd, Down4, Down8, Bit;
    BitUp4(x, k + 4);
    BitUp4(Down4(x), k);
  }

  lemma LowBits(x: bv32)
    ensures (Bit(x, 0) <==> x & 0x01 != 0) && (Bit(x, 1) <==> x & 0x02 != 0)
    ensures (Bit(x, 2) <==> x & 0x04 != 0) && (Bit(x, 3) <==> x & 0x08 != 0)
    ensures (Bit(x, 4) <==> x & 0x10 != 0) && (Bit(x, 5) <==> x & 0x20 != 0)
    ensures (Bit(x, 6) <==> x & 0x40 != 0) && (Bit(x, 7) <==> x & 0x80 != 0)
  {
    hide Bit, Down4;
    NibbleBits(x);
    NibbleBits(Down4(x));
    BitUp4(x, 0);
    BitUp4(x, 1);
    BitUp4(x, 2);
    BitUp4(x, 3);
    HighNibble(x);
  }

  lemma HighNibble(x: bv32)
    ensures (Down4(x) & 0x01 != 0 <==> x & 0x10 != 0) && (Down4(x) & 0x02 != 0 <==> x & 0x20 != 0)
    ensures (Down4(x) & 0x04 != 0 <==> x & 0x40 != 0) && (Down4(x) & 0x08 != 0 <==> x & 0x80 != 0)
  {
  }

  lemma NibbleBits(x: bv32)
    ensures (Bit(x, 0) <==> x & 0x01 != 0) && (Bit(x, 1) <==> x & 0x02 != 0)
    ensures (Bit(x, 2) <==> x & 0x04 != 0) && (Bit(x, 3) <==> x & 0x08 != 0)
  {
    OddHalves(x);
    hide Half, Odd;
    var x1, x2 := Half(x), Half(Half(x));
    assert Bit(x, 2) == Bit(x1, 1) && Bit(x, 3) == Bit(x1, 2) && Bit(x1, 2) == Bit(x2, 1);
  }

  /** The 32 bits of `x`, byte by byte. */
  lemma ByteBits(x: bv32, k: nat)
    ensures (Bit(x, k + 8) <==> Bit(Down8(x), k)) && (Bit(x, k + 16) <==> Bit(Down8(Down8(x)), k))
    ensures (Bit(x, k + 24) <==> Bit(Down8(Down8(Down8(x))), k)) && !Bit(x, k + 32)
  {
    Halves(x);
    ZeroBits(k);
    hide Down8, Bit;
    var x1, x2, x3 := Down8(x), Down8(Down8(x)), Down8(Down8(Down8(x)));
    BitUp(x, k);
    BitUp(x, k + 8);
    BitUp(x, k + 16);
    BitUp(x, k + 24);
    BitUp(x1, k);
    BitUp(x1, k + 8);
    BitUp(x1, k + 16);
    BitUp(x2, k);
    BitUp(x2, k + 8);
    BitUp(x3, k);
  }

  /** Bits 0 to 31 determine the word. */
  lemma BitsDetermine(x: bv32, y: bv32)
    requires forall k: nat :: k < 32 ==> Bit(x, k) == Bit(y, k)
    ensures x == y
  {
    hide Bit, Down8;
    var x1, x2, x3 := Down8(x), Down8(Down8(x)), Down8(Down8(Down8(x)));
    var y1, y2, y3 := Down8(y), Down8(Down8(y)), Down8(Down8(Down8(y)));
    forall k: nat | k < 8 ensures Bit(x1, k) == Bit(y1, k) { ByteBits(x, k); ByteBits(y, k); }
    forall k: nat | k < 8 ensures Bit(x2, k) == Bit(y2, k) { ByteBits(x, k); ByteBits(y, k); }
    forall k: nat | k < 8 ensures Bit(x3, k) == Bit(y3, k) { ByteBits(x, k); ByteBits(y, k); }
    LowSame(x, y);
    LowSame(x1, y1);
    LowSame(x2, y2);
    LowSame(x3, y3);
    BytesDetermine(x, y);
  }

  lemma BytesDetermine(x: bv32, y: bv32)
    requires x & 0xFF == y & 0xFF && Down8(x) & 0xFF == Down8(y) & 0xFF
    requires Down8(Down8(x)) & 0xFF == Down8(Down8(y)) & 0xFF
    requires Down8(Down8(Down8(x))) & 0xFF == Down8(Down8(Down8(y))) & 0xFF
    ensures x == y
  {
  }

  lemma LowSame(x: bv32, y: bv32)
    requires forall k: nat :: k < 8 ==> Bit(x, k) == Bit(y, k)
    ensures x & 0xFF == y & 0xFF
  {
    LowBits(x);
    LowBits(y);
    hide Bit;
    assert Bit(x, 0) == Bit(y, 0) && Bit(x, 1) == Bit(y, 1) && Bit(x, 2) == Bit(y, 2) && Bit(x, 3) == Bit(y, 3);
    assert Bit(x, 4) == Bit(y, 4) && Bit(x, 5) == Bit(y, 5) && Bit(x, 6) == Bit(y, 6) && Bit(x, 7) == Bit(y, 7);
  }

  // --- Registers as polynomials -----------------------------------------------------------

  /** The coefficient of `x^e` in a register, reflected: its lowest bit has the highest exponent. */
  predicate Coefficient(s: bv32, e: nat) { e < 32 && Bit(s, 31 - e) }

  function Reflected(s: bv32): Poly { set e: nat | e < 32 && Coefficient(s, e) }

  /** The coefficient of `x^e` in a byte, fed lowest bit first. */
  predicate ByteCoefficient(b: bv8, e: nat) { e < 8 && Bit(b as bv32, 7 - e) }

  function BytePoly(b: bv8): Poly { set e: nat | e < 8 && ByteCoefficient(b, e) }

  /** The coefficient of `x^e` in a message, whose first bit has the highest exponent. */
  predicate MessageCoefficient(data: Bytes, e: nat) {
    e < 8 * |data| && ByteCoefficient(data[|data| - 1 - e / 8], e % 8)
  }

  function Message(data: Bytes): Poly { set e: nat | e < 8 * |data| && MessageCoefficient(data, e) }

  /** The dividend of CRC-32: the message with 32 zero bits appended and its first 32 bits complemented. */
  function Dividend(data: Bytes): Poly { Plus(Shift(Message(data), 32), Shift(ONES, 8 * |data|)) }

  lemma PolyByte0(j: nat)
    requires j < 8
    ensures Bit(0xEDB88320, j) <==> 31 - j in GENERATOR
  {
    LowBits(0xEDB88320);
    hide Bit;
    assert j == 0 || j == 1 || j == 2 || j == 3 || j == 4 || j == 5 || j == 6 || j == 7;
  }

  lemma PolyByte1(j: nat)
    requires j < 8
    ensures Bit(0x00EDB883, j) <==> 23 - j in GENERATOR
  {
    LowBits(0x00EDB883);
    hide Bit;
    assert j == 0 || j == 1 || j == 2 || j == 3 || j == 4 || j == 5 || j == 6 || j == 7;
  }

  lemma PolyByte2(j: nat)
    requires j < 8
    ensures Bit(0x0000EDB8, j) <==> 15 - j in GENERATOR
  {
    LowBits(0x0000EDB8);
    hide Bit;
    assert j == 0 || j == 1 || j == 2 || j == 3 || j == 4 || j == 5 || j == 6 || j == 7;
  }

  lemma PolyByte3(j: nat)
    requires j < 8
    ensures Bit(0x000000ED, j) <==> 7 - j in GENERATOR
  {
    LowBits(0x000000ED);
    hide Bit;
    assert j == 0 || j == 1 || j == 2 || j == 3 || j == 4 || j == 5 || j == 6 || j == 7;
  }

  /** The polynomial constant is the generator without its leading term, reflected. */
  lemma PolyBits(k: nat)
    requires k < 32
    ensures Bit(POLY, k) <==> 31 - k in GENERATOR
  {
    var j := k % 8;
    assert Down8(POLY) == 0x00EDB883 && Down8(0x00EDB883) == 0x0000EDB8 && Down8(0x0000EDB8) == 0x000000ED;
    ByteBits(POLY, j);
    hide Bit, Down8;
    PolyByte0(j);
    PolyByte1(j);
    PolyByte2(j);
    PolyByte3(j);
    assert k == j || k == j + 8 || k == j + 16 || k == j + 24;
  }

  lemma OnesByte(x: bv32, j: nat)
    requires j < 8 && x & 0xFF == 0xFF
    ensures Bit(x, j)
  {
    LowBits(x);
    hide Bit;
    assert j == 0 || j == 1 || j == 2 || j == 3 || j == 4 || j == 5 || j == 6 || j == 7;
  }

  /** Every bit of the start value is set. */
  lemma OnesBits(k: nat)
    requires k < 32
    ensures Bit(0xFFFF_FFFF, k)
  {
    var x: bv32, j := 0xFFFF_FFFF, k % 8;
    ByteBits(x, j);
    hide Bit;
    OnesByte(x, j);
    OnesByte(Down8(x), j);
    OnesByte(Down8(Down8(x)), j);
    OnesByte(Down8(Down8(Down8(x))), j);
    assert k == j || k == j + 8 || k == j + 16 || k == j + 24;
  }

  lemma InReflected(s: bv32)
    ensures forall e: nat :: e in Reflected(s) <==> Coefficient(s, e)
    ensures forall e :: e in Reflected(s) ==> e < 32
  {
  }

  lemma ReflectedXor(x: bv32, y: bv32)
    ensures Reflected(Xor(x, y)) == Plus(Reflected(x), Reflected(y))
  {
    var z := Xor(x, y);
    forall e: nat ensures Coefficient(z, e) <==> Coefficient(x, e) != Coefficient(y, e) {
      if e < 32 { BitXor(x, y, 31 - e); }
    }
    InReflected(x);
    InReflected(y);
    InReflected(z);
    InPlus(Reflected(x), Reflected(y));
    hide Coefficient, Reflected, Plus, Xor;
  }

  lemma ReflectedTail(s: bv32, g: Poly)
    requires 32 in g && forall e :: e in g ==> e <= 32
    requires forall e: nat :: e < 32 ==> (Coefficient(s, e) <==> e in g)
    ensures Reflected(s) == Plus(g, {32})
  {
    InReflected(s);
    InPlus(g, {32});
    hide Coefficient, Reflected, Plus;
  }

  lemma ReflectedPoly()
    ensures Reflected(POLY) == Plus(GENERATOR, {32})
  {
    forall e: nat | e < 32 ensures Coefficient(POLY, e) <==> e in GENERATOR { PolyBits(31 - e); }
    hide Coefficient, Reflected, Plus;
    ReflectedTail(POLY, GENERATOR);
  }

  lemma ReflectedOnes()
    ensures Reflected(0xFFFF_FFFF) == ONES
  {
    forall e: nat | e < 32 ensures Coefficient(0xFFFF_FFFF, e) { OnesBits(31 - e); }
    InReflected(0xFFFF_FFFF);
    hide Coefficient, Reflected;
  }

  lemma ReflectedNot(x: bv32)
    ensures Reflected(Not(x)) == Plus(ONES, Reflected(x))
  {
    assert Not(x) == Xor(0xFFFF_FFFF, x);
    ReflectedXor(0xFFFF_FFFF, x);
    ReflectedOnes();
    hide Reflected, Xor, Plus;
  }

  lemma ReflectedHalf(x: bv32)
    ensures Reflected(Half(x)) == Shift(Reflected(x), 1) - {32}
    ensures 31 in Reflected(x) <==> Odd(x)
  {
    var h := Half(x);
    assert Bit(x, 32) == Bit(h, 31);
    ByteBits(x, 0);
    hide Half, Odd;
    forall e: nat | e < 32 ensures Coefficient(h, e) <==> e > 0 && Coefficient(x, e - 1) { }
    assert Coefficient(x, 31) <==> Odd(x);
    InReflected(x);
    InReflected(h);
    InShift(Reflected(x), 1);
    hide Coefficient, Reflected, Shift;
  }

  /** One bit step multiplies by x and takes the generator off when the product reaches degree 32. */
  lemma StepPoly(s: bv32)
    ensures Reflected(BitStep(s)) == Plus(Shift(Reflected(s), 1), if Odd(s) then GENERATOR else {})
  {
    hide Half, Odd, Xor, Reflected;
    ReflectedHalf(s);
    ReflectedXor(Half(s), POLY);
    ReflectedPoly();
    InReflected(s);
    InShift(Reflected(s), 1);
    hide BitStep, Coefficient, Shift;
    DropTop(Shift(Reflected(s), 1), Odd(s));
  }

  lemma DropTop(a: Poly, odd: bool)
    requires 32 in a <==> odd
    ensures Plus(a, if odd then GENERATOR else {}) ==
            if odd then Plus(a - {32}, Plus(GENERATOR, {32})) else a - {32}
  {
  }

  lemma StepKeeps(a: Poly, s: bv32)
    requires IsMultiple(Plus(a, Reflected(s)))
    ensures IsMultiple(Plus(Shift(a, 1), Reflected(BitStep(s))))
  {
    var r := Reflected(s);
    var g := if Odd(s) then GENERATOR else {};
    StepPoly(s);
    MultipleShift(Plus(a, r));
    GeneratorIsMultiple();
    hide IsMultiple, Reflected, BitStep, Plus, Shift, Odd;
    ShiftLaws(a, r, 0, 1);
    MultiplesAdd(Shift(Plus(a, r), 1), g);
    PlusLaws(Shift(a, 1), Shift(r, 1), g);
  }

  lemma {:induction false} StepsKeep(a: Poly, s: bv32, n: nat)
    requires IsMultiple(Plus(a, Reflected(s)))
    ensures IsMultiple(Plus(Shift(a, n), Reflected(BitSteps(s, n))))
    decreases n
  {
    hide IsMultiple, Reflected, BitStep, Plus, Shift;
    if n == 0 {
      ShiftTwice(a, 0, 0);
    } else {
      StepKeeps(a, s);
      StepsKeep(Shift(a, 1), BitStep(s), n - 1);
      ShiftTwice(a, 1, n - 1);
    }
  }

  lemma ReflectedByte(b: bv8)
    ensures Reflected(b as bv32) == Shift(BytePoly(b), 24)
  {
    var x := b as bv32;
    forall e: nat | e < 32 ensures Coefficient(x, e) <==> e >= 24 && ByteCoefficient(b, e - 24) {
      if e < 24 { HighBit(b, 31 - e); }
    }
    hide Bit;
    InReflected(x);
    InShift(BytePoly(b), 24);
    hide Reflected, Shift;
  }

  lemma HighBit(b: bv8, k: nat)
    requires 8 <= k < 32
    ensures !Bit(b as bv32, k)
  {
    var x, j := b as bv32, k % 8;
    assert Down8(x) == 0 && Down8(Down8(x)) == 0 && Down8(Down8(Down8(x))) == 0;
    ByteBits(x, j);
    ZeroBits(j);
    hide Bit, Down8;
    assert k == j + 8 || k == j + 16 || k == j + 24;
  }

  lemma {:induction false} ZeroBits(k: nat)
    ensures !Bit(0, k)
  {
    assert Half(0) == 0 && !Odd(0);
    hide Half, Odd;
    if k > 0 { ZeroBits(k - 1); }
  }

  lemma DividendSnoc(data: Bytes, b: bv8)
    ensures Dividend(data + [b]) == Shift(Plus(Dividend(data), Shift(BytePoly(b), 24)), 8)
  {
    MessageSnoc(data, b);
    var m, p, o := Message(data), BytePoly(b), Shift(ONES, 8 * |data|);
    hide Message, BytePoly, Plus, Shift;
    ShiftLaws(Plus(Shift(m, 32), o), Shift(p, 24), 0, 8);
    ShiftLaws(Shift(m, 32), o, 0, 8);
    ShiftTwice(m, 32, 8);
    ShiftTwice(p, 24, 8);
    ShiftTwice(ONES, 8 * |data|, 8);
    ShiftLaws(Shift(m, 8), p, 0, 32);
    ShiftTwice(m, 8, 32);
    var x, y, z := Shift(m, 40), Shift(ONES, 8 * |data| + 8), Shift(p, 32);
    PlusLaws(x, y, z);
    PlusLaws(x, z, y);
    PlusLaws(y, z, x);
  }

  lemma MessageSnoc(data: Bytes, b: bv8)
    ensures Message(data + [b]) == Plus(Shift(Message(data), 8), BytePoly(b))
  {
    hide ByteCoefficient;
    var more := data + [b];
    forall e: nat ensures MessageCoefficient(more, e) <==>
                            if e < 8 then ByteCoefficient(b, e) else MessageCoefficient(data, e - 8)
    {
      if 8 <= e < 8 * |more| {
        assert (e - 8) / 8 == e / 8 - 1 && (e - 8) % 8 == e % 8;
        assert more[|more| - 1 - e / 8] == data[|data| - 1 - (e - 8) / 8];
      }
    }
    InShift(Message(data), 8);
    InPlus(Shift(Message(data), 8), BytePoly(b));
    assert forall e: nat :: e in Message(data) <==> MessageCoefficient(data, e);
    assert forall e: nat :: e in Message(more) <==> MessageCoefficient(more, e);
    assert forall e: nat :: e in BytePoly(b) <==> e < 8 && ByteCoefficient(b, e);
    hide Message, MessageCoefficient, BytePoly, Plus, Shift;
  }

  /** The register after `data` is the reflected remainder of the dividend. */
  lemma {:induction false} RegisterIsRemainder(data: Bytes)
    ensures IsRemainder(Dividend(data), Reflected(Feed(0xFFFF_FFFF, data)))
  {
    InReflected(Feed(0xFFFF_FFFF, data));
    hide IsMultiple, Reflected, BitSteps, Coefficient;
    if data == [] {
      ReflectedOnes();
      GeneratorIsMultiple();
      assert Message(data) == {};
      InShift(ONES, 0);
      assert Dividend(data) == ONES;
      PlusSelf(ONES, {});
    } else {
      hide Dividend, Plus, Shift, BytePoly;
      var before, b := data[..|data| - 1], data[|data| - 1];
      RegisterIsRemainder(before);
      assert before + [b] == data;
      DividendSnoc(before, b);
      ByteKeeps(Dividend(before), Feed(0xFFFF_FFFF, before), b);
    }
  }

  lemma ByteKeeps(a: Poly, s: bv32, b: bv8)
    requires IsMultiple(Plus(a, Reflected(s)))
    ensures IsMultiple(Plus(Shift(Plus(a, Shift(BytePoly(b), 24)), 8), Reflected(ByteStep(s, b))))
  {
    var x := b as bv32;
    ReflectedByte(b);
    ReflectedXor(s, x);
    var p := Shift(BytePoly(b), 24);
    hide IsMultiple, Reflected, BitSteps, Xor, Plus, Shift, BytePoly;
    PlusCancel(a, Reflected(s), p);
    StepsKeep(Plus(a, p), Xor(s, x), 8);
  }

  /** CRC-32 is the complement of the reflected remainder of the dividend by the generator, for every input. */
  lemma Crc32IsRemainder(data: Bytes)
    ensures IsRemainder(Dividend(data), Plus(ONES, Reflected(Crc32(data))))
  {
    RegisterIsRemainder(data);
    var s := Feed(0xFFFF_FFFF, data);
    ReflectedNot(s);
    hide IsMultiple, Reflected, Feed, Plus, Dividend;
    PlusCancel(Reflected(s), {}, ONES);
  }

  /** Nothing else is: the remainder determines the checksum. */
  lemma Crc32Determined(data: Bytes, x: bv32)
    requires IsRemainder(Dividend(data), Plus(ONES, Reflected(x)))
    ensures x == Crc32(data)
  {
    Crc32IsRemainder(data);
    var y := Crc32(data);
    var r, t := Reflected(x), Reflected(y);
    hide Crc32, Plus, Dividend, IsRemainder;
    RemainderUnique(Dividend(data), Plus(ONES, r), Plus(ONES, t));
    PlusCancel(r, {}, ONES);
    PlusCancel(t, {}, ONES);
    forall k: nat | k < 32 ensures Bit(x, k) == Bit(y, k) {
      assert (31 - k in r <==> Coefficient(x, 31 - k)) && (31 - k in t <==> Coefficient(y, 31 - k));
    }
    BitsDetermine(x, y);
  }

  // --- Known values --------------------------------------------------------------------------

  lemma Eight(s: bv32, x1: bv32, x2: bv32, x3: bv32, x4: bv32, x5: bv32, x6: bv32, x7: bv32, x8: bv32)
    requires BitStep(s) == x1 && BitStep(x1) == x2 && BitStep(x2) == x3 && BitStep(x3) == x4
    requires BitStep(x4) == x5 && BitStep(x5) == x6 && BitStep(x6) == x7 && BitStep(x7) == x8
    ensures BitSteps(s, 8) == x8
  {
    hide BitStep;
    assert BitSteps(s, 8) == BitSteps(x1, 7) == BitSteps(x2, 6) == BitSteps(x3, 5) == BitSteps(x4, 4);
    assert BitSteps(x4, 4) == BitSteps(x5, 3) == BitSteps(x6, 2) == BitSteps(x7, 1) == BitSteps(x8, 0);
  }

  const DIGITS: Bytes := [0x31, 0x32, 0x33, 0x34, 0x35, 0x36, 0x37, 0x38, 0x39]

  lemma Digits1()
    requires Feed(0xFFFF_FFFF, DIGITS[..0]) == 0xFFFFFFFF
    ensures Feed(0xFFFF_FFFF, DIGITS[..3]) == 0x77B79C2D
  {
    hide Feed, BitSteps;
    Eight(0xFFFFFFCE, 0x7FFFFFE7, 0xD2477CD3, 0x849B3D49, 0xAFF51D84, 0x57FA8EC2, 0x2BFD4761, 0xF8462090, 0x7C231048);
    NextByte(DIGITS, 0, 0xFFFFFFFF, 0xFFFFFFCE, 0x7C231048);
    Eight(0x7C23107A, 0x3E11883D, 0xF2B0473E, 0x7958239F, 0xD11492EF, 0x8532CA57, 0xAF21E60B, 0xBA287025, 0xB0ACBB32);
    NextByte(DIGITS, 1, 0x7C231048, 0x7C23107A, 0xB0ACBB32);
    Eight(0xB0ACBB01, 0xB5EEDEA0, 0x5AF76F50, 0x2D7BB7A8, 0x16BDDBD4, 0x0B5EEDEA, 0x05AF76F5, 0xEF6F385A, 0x77B79C2D);
    NextByte(DIGITS, 2, 0xB0ACBB32, 0xB0ACBB01, 0x77B79C2D);
  }

  lemma Digits2()
    requires Feed(0xFFFF_FFFF, DIGITS[..3]) == 0x77B79C2D
    ensures Feed(0xFFFF_FFFF, DIGITS[..6]) == 0xF68D2C9E
  {
    hide Feed, BitSteps;
    Eight(0x77B79C19, 0xD6634D2C, 0x6B31A696, 0x3598D34B, 0xF774EA85, 0x9602F662, 0x4B017B31, 0xC8383EB8, 0x641C1F5C);
    NextByte(DIGITS, 3, 0x77B79C2D, 0x77B79C19, 0x641C1F5C);
    Eight(0x641C1F69, 0xDFB68C94, 0x6FDB464A, 0x37EDA325, 0xF64E52B2, 0x7B272959, 0xD02B178C, 0x68158BC6, 0x340AC5E3);
    NextByte(DIGITS, 4, 0x641C1F5C, 0x641C1F69, 0x340AC5E3);
    Eight(0x340AC5D5, 0xF7BDE1CA, 0x7BDEF0E5, 0xD057FB52, 0x682BFDA9, 0xD9AD7DF4, 0x6CD6BEFA, 0x366B5F7D, 0xF68D2C9E);
    NextByte(DIGITS, 5, 0x340AC5E3, 0x340AC5D5, 0xF68D2C9E);
  }

  lemma Digits3()
    requires Feed(0xFFFF_FFFF, DIGITS[..6]) == 0xF68D2C9E
    ensures Feed(0xFFFF_FFFF, DIGITS[..9]) == 0x340BC6D9
  {
    hide Feed, BitSteps;
    Eight(0xF68D2CA9, 0x96FE1574, 0x4B7F0ABA, 0x25BF855D, 0xFF67418E, 0x7FB3A0C7, 0xD2615343, 0x84882A81, 0xAFFC9660);
    NextByte(DIGITS, 6, 0xF68D2C9E, 0xF68D2CA9, 0xAFFC9660);
    Eight(0xAFFC9658, 0x57FE4B2C, 0x2BFF2596, 0x15FF92CB, 0xE7474A45, 0x9E1B2602, 0x4F0D9301, 0xCA3E4AA0, 0x651F2550);
    NextByte(DIGITS, 7, 0xAFFC9660, 0xAFFC9658, 0x651F2550);
    Eight(0x651F2569, 0xDF371194, 0x6F9B88CA, 0x37CDC465, 0xF65E6112, 0x7B2F3089, 0xD02F1B64, 0x68178DB2, 0x340BC6D9);
    NextByte(DIGITS, 8, 0x651F2550, 0x651F2569, 0x340BC6D9);
  }

  /** The check value: the CRC of the ASCII digits 1 to 9. */
  lemma CheckValue()
    ensures Crc32([0x31, 0x32, 0x33, 0x34, 0x35, 0x36, 0x37, 0x38, 0x39]) == 0xCBF4_3926
  {
    assert DIGITS[..0] == [] && DIGITS[..9] == DIGITS;
    assert Feed(0xFFFF_FFFF, []) == 0xFFFF_FFFF;
    hide Feed;
    Digits1();
    Digits2();
    Digits3();
  }

  lemma NextByte(d: Bytes, i: nat, s: bv32, x: bv32, t: bv32)
    requires i < |d| && Feed(0xFFFF_FFFF, d[..i]) == s && Xor(s, d[i] as bv32) == x && BitSteps(x, 8) == t
    ensures Feed(0xFFFF_FFFF, d[..i + 1]) == t
  {
    hide BitSteps, Xor;
    assert d[..i + 1] == d[..i] + [d[i]];
    FeedSnoc(0xFFFF_FFFF, d[..i], d[i]);
  }

  /** The residue: an input followed by its own little-endian CRC always leaves the same register. */
  lemma Residue(data: Bytes)
    ensures Feed(0xFFFF_FFFF, data + LE32(Crc32(data))) == 0xDEBB_20E3
  {
    var s := Feed(0xFFFF_FFFF, data);
    var b := LE32(Not(s));
    FeedConcat(0xFFFF_FFFF, data, b);
    assert b == [b[0], b[1], b[2], b[3]];
    hide Feed;
    FeedFour(s, b[0], b[1], b[2], b[3]);
    WordOfLE(s);
    hide LE32, Word, BitSteps;
    AllOnes();
  }

  lemma WordOfLE(s: bv32)
    ensures var b := LE32(Not(s)); Xor(s, Word(b[0], b[1], b[2], b[3])) == 0xFFFF_FFFF
  {
  }

  lemma AllOnes()
    ensures BitSteps(0xFFFF_FFFF, 32) == 0xDEBB_20E3
  {
    Eight(0xFFFFFFFF, 0x92477CDF, 0xA49B3D4F, 0xBFF51D87, 0xB2420DE3, 0xB49985D1, 0xB7F441C8, 0x5BFA20E4, 0x2DFD1072);
    Eight(0x2DFD1072, 0x16FE8839, 0xE6C7C73C, 0x7363E39E, 0x39B1F1CF, 0xF1607BC7, 0x9508BEC3, 0xA73CDC41, 0xBE26ED00);
    Eight(0xBE26ED00, 0x5F137680, 0x2F89BB40, 0x17C4DDA0, 0x0BE26ED0, 0x05F13768, 0x02F89BB4, 0x017C4DDA, 0x00BE26ED);
    Eight(0x00BE26ED, 0xEDE79056, 0x76F3C82B, 0xD6C16735, 0x86D830BA, 0x436C185D, 0xCC0E8F0E, 0x66074787, 0xDEBB20E3);
    BitStepsAdd(0xFFFF_FFFF, 8, 24);
    BitStepsAdd(0x2DFD1072, 8, 16);
    BitStepsAdd(0xBE26ED00, 8, 8);
    hide BitSteps;
  }
}
