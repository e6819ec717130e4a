/** The checksum against its definition: the remainder of the message as a polynomial over the
    field of two elements, divided by the generator of IEEE 802.3. */
module CrcDivision {
  import opened Folds
  import opened Crc32

  /** Coefficients, the highest first. */
  type Polynomial = seq<bool>

  /** x^32 + x^26 + x^23 + x^22 + x^16 + x^12 + x^11 + x^10 + x^8 + x^7 + x^5 + x^4 + x^2 + x + 1. */
  const EXPONENTS: set<nat> := {32, 26, 23, 22, 16, 12, 11, 10, 8, 7, 5, 4, 2, 1, 0}

  function Generator(): (g: Polynomial)
    ensures |g| == 33 && g[0]
  {
    seq(33, i requires 0 <= i < 33 => 32 - i in EXPONENTS)
  }

  /** Addition, which is also subtraction. */
  function Plus(a: Polynomial, b: Polynomial): (r: Polynomial)
    requires |a| == |b|
    ensures |r| == |a|
  {
    seq(|a|, i requires 0 <= i < |a| => a[i] != b[i])
  }

  /** Long division: whatever is left below degree 32. */
  function Remainder(p: Polynomial): Polynomial
    decreases |p|
  {
    if |p| <= 32 then p
    else if p[0] then Remainder((Plus(p[..33], Generator()) + p[33..])[1..])
    else Remainder(p[1..])
  }

  function Complement(p: Polynomial): (r: Polynomial)
    ensures |r| == |p|
  {
    seq(|p|, i requires 0 <= i < |p| => !p[i])
  }

  /** The polynomial that is divided: the bits of the message, each byte from its least significant
      bit on, times x^32, with the first 32 coefficients complemented. */
  function Dividend(s: seq<bv8>): Polynomial {
    var p := Bits(s) + Zeros();
    Complement(p[..32]) + p[32..]
  }

  // ----- the register as a polynomial -----

  /** The register holds its highest coefficient in the lowest bit. */
  function Register(c: bv32): (r: Polynomial)
    ensures |r| == 32
  {
    Digits(Odd, Half, c, 32)
  }

  lemma OddOfDiff(x: bv32, y: bv32)
    ensures Odd(Diff(x, y)) <==> Odd(x) != Odd(y)
  {
  }

  lemma {:induction false} DigitsOfDiff(x: bv32, y: bv32, n: nat)
    ensures Digits(Odd, Half, Diff(x, y), n) == Plus(Digits(Odd, Half, x, n), Digits(Odd, Half, y, n))
    decreases n
  {
    hide Odd, Half, Diff;
    if n == 0 {
    } else {
      OddOfDiff(x, y);
      HalfOfDiff(x, y);
      DigitsOfDiff(Half(x), Half(y), n - 1);
    }
  }

  lemma HalfIsShort(x: bv32)
    ensures Half(x) >> 31 == 0 && !Odd(0)
  {
  }

  /** A shift multiplies by x, dropping the highest coefficient. */
  lemma RegisterOfHalf(c: bv32)
    ensures Register(Half(c)) == Register(c)[1..] + [false]
  {
    HalfIsShort(c);
    Shift31(Half(c));
    hide Odd, Half;
    DigitsSnoc(Odd, Half, Half(c), 31);
    assert Digits(Odd, Half, c, 32) == [Odd(c)] + Digits(Odd, Half, Half(c), 31);
  }

  // ----- the constants -----

  lemma RegisterByBytes(c: bv32, c1: bv32, c2: bv32, c3: bv32)
    requires Iterate(Half, c, 8) == c1 && Iterate(Half, c1, 8) == c2 && Iterate(Half, c2, 8) == c3
    ensures Register(c)
            == Digits(Odd, Half, c, 8) + Digits(Odd, Half, c1, 8) + Digits(Odd, Half, c2, 8) + Digits(Odd, Half, c3, 8)
  {
    hide Odd, Half, Iterate, Digits;
    DigitsConcat(Odd, Half, c, 8, 24);
    DigitsConcat(Odd, Half, c1, 8, 16);
    DigitsConcat(Odd, Half, c2, 8, 8);
  }

  lemma PolyByte0()
    ensures Digits(Odd, Half, POLY, 8) == [false, false, false, false, false, true, false, false]
            && Iterate(Half, POLY, 8) == 0xED_B883
  {
  }

  lemma PolyByte1()
    ensures Digits(Odd, Half, 0xED_B883, 8) == [true, true, false, false, false, false, false, true]
            && Iterate(Half, 0xED_B883, 8) == 0xEDB8
  {
  }

  lemma PolyByte2()
    ensures Digits(Odd, Half, 0xEDB8, 8) == [false, false, false, true, true, true, false, true]
            && Iterate(Half, 0xEDB8, 8) == 0xED
  {
  }

  lemma PolyByte3()
    ensures Digits(Odd, Half, 0xED, 8) == [true, false, true, true, false, true, true, true]
            && Iterate(Half, 0xED, 8) == 0x0
  {
  }

  lemma OnesByte0()
    ensures Digits(Odd, Half, ONES, 8) == [true, true, true, true, true, true, true, true]
            && Iterate(Half, ONES, 8) == 0xFF_FFFF
  {
  }

  lemma OnesByte1()
    ensures Digits(Odd, Half, 0xFF_FFFF, 8) == [true, true, true, true, true, true, true, true]
            && Iterate(Half, 0xFF_FFFF, 8) == 0xFFFF
  {
  }

  lemma OnesByte2()
    ensures Digits(Odd, Half, 0xFFFF, 8) == [true, true, true, true, true, true, true, true]
            && Iterate(Half, 0xFFFF, 8) == 0xFF
  {
  }

  lemma OnesByte3()
    ensures Digits(Odd, Half, 0xFF, 8) == [true, true, true, true, true, true, true, true]
            && Iterate(Half, 0xFF, 8) == 0x0
  {
  }

  lemma RegisterOfPoly()
    ensures Register(POLY) == Generator()[1..]
  {
    hide Odd, Half, Iterate, Digits, Register;
    PolyByte0();
    PolyByte1();
    PolyByte2();
    PolyByte3();
    RegisterByBytes(POLY, 0xED_B883, 0xEDB8, 0xED);
  }

  lemma RegisterOfOnes()
    ensures Register(ONES) == seq(32, _ => true)
  {
    hide Odd, Half, Iterate, Digits, Register;
    OnesByte0();
    OnesByte1();
    OnesByte2();
    OnesByte3();
    RegisterByBytes(ONES, 0xFF_FFFF, 0xFFFF, 0xFF);
  }

  // ----- feeding is dividing -----

  function Zeros(): (r: Polynomial)
    ensures |r| == 32
  {
    seq(32, _ => false)
  }

  /** `p` with the register added to its highest 32 coefficients. */
  function Mixed(c: bv32, p: Polynomial): (r: Polynomial)
    requires |p| >= 32
    ensures |r| == |p|
  {
    Plus(p[..32], Register(c)) + p[32..]
  }

  lemma FeedSteps(c: bv32, b: bool)
    ensures var x := Diff(c, BitValue(b));
            && (Odd(x) <==> b != Odd(c)) && Half(x) == Half(c)
            && Feed(c, b) == if Odd(x) then Diff(POLY, Half(c)) else Half(c)
  {
    OddOfDiff(c, BitValue(b));
    HalfDropsBit(c, b);
    assert Odd(BitValue(b)) <==> b;
    FeedIsStep(c, b);
    StepOf(Diff(c, BitValue(b)));
    hide Odd, Half, Feed, BitValue, Diff;
  }

  lemma StepOf(x: bv32)
    ensures BitStep(x) == if Odd(x) then Diff(POLY, Half(x)) else Half(x)
  {
  }

  lemma RegisterOfDiff(x: bv32, y: bv32)
    ensures Register(Diff(x, y)) == Plus(Register(x), Register(y))
  {
    hide Odd, Half, Diff, Digits, Plus;
    DigitsOfDiff(x, y, 32);
  }

  /** What one bit makes of the register: shift, and subtract the generator when the highest
      coefficient asks for it. */
  lemma RegisterStep(c: bv32, b: bool)
    ensures var shifted := Register(c)[1..] + [false];
            Register(Feed(c, b)) == if b != Register(c)[0] then Plus(Generator()[1..], shifted) else shifted
  {
    FeedSteps(c, b);
    RegisterOfHalf(c);
    assert Register(c)[0] == Odd(c) by { hide Odd, Half; }
    hide Odd, Half, Diff, Feed, Register, Plus, Generator;
    RegisterOfPoly();
    RegisterOfDiff(POLY, Half(c));
  }

  /** The same on the polynomial: one turn of the long division. */
  lemma MixedStep(c: bv32, c': bv32, p: Polynomial)
    requires |p| > 32
    requires var shifted := Register(c)[1..] + [false];
             Register(c') == if p[0] != Register(c)[0] then Plus(Generator()[1..], shifted) else shifted
    ensures Remainder(Mixed(c, p)) == Remainder(Mixed(c', p[1..]))
  {
    hide Register, Generator;
    var m, g := Mixed(c, p), Generator();
    var r, r' := Register(c), Register(c');
    assert m[0] == (p[0] != r[0]);
    var next := if m[0] then (Plus(m[..33], g) + m[33..])[1..] else m[1..];
    assert Mixed(c', p[1..]) == next by { MixedAt(m, g, r, r', p); }
    hide Mixed, Plus;
  }

  lemma MixedAt(m: Polynomial, g: Polynomial, r: Polynomial, r': Polynomial, p: Polynomial)
    requires |p| > 32 && |g| == 33 && |r| == 32 == |r'| && m == Plus(p[..32], r) + p[32..]
    requires var shifted := r[1..] + [false]; r' == if p[0] != r[0] then Plus(g[1..], shifted) else shifted
    ensures Plus(p[1..][..32], r') + p[1..][32..] == if p[0] != r[0] then (Plus(m[..33], g) + m[33..])[1..] else m[1..]
  {
    var left := Plus(p[1..][..32], r') + p[1..][32..];
    var right := if p[0] != r[0] then (Plus(m[..33], g) + m[33..])[1..] else m[1..];
    forall i | 0 <= i < |left| ensures left[i] == right[i] {
      assert m[i + 1] == if i < 31 then p[i + 1] != r[i + 1] else p[i + 1];
      assert left[i] == if i < 32 then p[i + 1] != r'[i] else p[i + 1];
      assert right[i] == if i < 32 && p[0] != r[0] then m[i + 1] != g[i + 1] else m[i + 1];
      assert i < 32 ==> r'[i] == (if p[0] != r[0] then g[i + 1] != (i < 31 && r[i + 1]) else i < 31 && r[i + 1]);
    }
  }

  lemma {:induction false} FeedIsDivision(c: bv32, bits: seq<bool>)
    ensures Register(Fold(Feed, c, bits)) == Remainder(Mixed(c, bits + Zeros()))
    decreases |bits|
  {
    hide Feed, Register;
    var p := bits + Zeros();
    if bits == [] {
      assert Plus(Zeros(), Register(c)) == Register(c);
      assert Mixed(c, p) == Register(c);
    } else {
      RegisterStep(c, bits[0]);
      MixedStep(c, Feed(c, bits[0]), p);
      assert p[1..] == bits[1..] + Zeros();
      hide Mixed, Remainder;
      FeedIsDivision(Feed(c, bits[0]), bits[1..]);
    }
  }

  lemma MixedOnes(p: Polynomial)
    requires |p| >= 32
    ensures Mixed(ONES, p) == Complement(p[..32]) + p[32..]
  {
    hide Register;
    RegisterOfOnes();
    assert Plus(p[..32], Register(ONES)) == Complement(p[..32]);
  }

  /** The checksum is the complement of the remainder. */
  lemma ChecksumIsRemainder(s: seq<bv8>)
    ensures Register(Of(s)) == Complement(Remainder(Dividend(s)))
  {
    var c := Fold(ByteStep, ONES, s);
    FoldIsBits(s);
    FeedIsDivision(ONES, Bits(s));
    MixedOnes(Bits(s) + Zeros());
    OfIsDiff(s);
    RegisterOfDiff(c, ONES);
    RegisterOfOnes();
    hide Register, Remainder, Mixed, Of, Fold, Bits, Diff;
    assert Plus(Register(c), Register(ONES)) == Complement(Register(c));
  }

  lemma OfIsDiff(s: seq<bv8>)
    ensures Of(s) == Diff(Fold(ByteStep, ONES, s), ONES)
  {
    hide ByteStep;
  }

  /** Registers are determined by their coefficients, so this says what every checksum is. */
  lemma RegisterInjective(x: bv32, y: bv32)
    requires Register(x) == Register(y)
    ensures x == y
  {
    OddAndHalfDetermine();
    Emptied(x);
    Emptied(y);
    hide Odd, Half;
    DigitsInjective(Odd, Half, x, y, 32);
  }

  lemma Emptied(x: bv32)
    ensures Iterate(Half, x, 32) == 0
  {
    HalfIsShort(x);
    Shift31(Half(x));
  }
}
