/** CRC-32 (IEEE 802.3, reflected) as the archive writer computes it, and the error bursts
    it is guaranteed to detect.

    `Of` works byte by byte, like the code. `Bits` lays the message out one bit at a time,
    least significant bit of each byte first: the order in which the length of a burst of
    wrong bits is measured. */
module Crc32 {
  import opened Folds

  const POLY: bv32 := 0xEDB8_8320
  const ONES: bv32 := 0xFFFF_FFFF

  /** One turn of the inner loop. */
  function BitStep(c: bv32): bv32 {
    if c & 1 != 0 then POLY ^ (c >> 1) else c >> 1
  }

  function ByteStep(c: bv32, b: bv8): bv32 {
    Iterate(BitStep, c ^ (b as bv32), 8)
  }

  function Of(s: seq<bv8>): bv32 {
    Fold(ByteStep, ONES, s) ^ ONES
  }

  /** The checksum as the number a header field holds. */
  function Checksum(s: seq<bv8>): (r: nat)
    ensures r < 0x1_0000_0000
  {
    Of(s) as nat
  }

  /** The inner loop: eight shifts of the register. */
  method ShiftByte(start: bv32) returns (crc: bv32)
    ensures crc == Iterate(BitStep, start, 8)
  {
    crc := start;
    for k := 0 to 8
      invariant Iterate(BitStep, crc, 8 - k) == Iterate(BitStep, start, 8)
    {
      crc := if crc & 1 != 0 then POLY ^ (crc >> 1) else crc >> 1;
    }
  }

  /** The writer's loop over the bytes. */
  method Compute(buf: seq<bv8>) returns (crc: bv32)
    ensures crc == Of(buf)
  {
    crc := ONES;
    for i := 0 to |buf|
      invariant crc == Fold(ByteStep, ONES, buf[..i])
    {
      FoldSnoc(ByteStep, ONES, buf, i);
      crc := ShiftByte(crc ^ (buf[i] as bv32));
    }
    assert buf[..|buf|] == buf;
    crc := crc ^ ONES;
  }

  // ----- facts about one step of the register -----

  function BitValue(b: bool): bv32 { if b then 1 else 0 }

  function Feed(c: bv32, b: bool): bv32 { BitStep(c ^ BitValue(b)) }

  predicate Odd(x: bv32) { x & 1 != 0 }

  function Half(x: bv32): bv32 { x >> 1 }

  /** The bits in which two registers differ. */
  function Diff(x: bv32, y: bv32): bv32 { x ^ y }

  lemma XorCases(p: bv32, a: bv32, b: bv32)
    ensures (p ^ a) ^ (p ^ b) == a ^ b
  {
  }

  lemma XorZero(x: bv32, y: bv32)
    ensures x ^ y == 0 <==> x == y
  {
  }

  /** Registers of equal parity keep their difference, shifted by one. */
  lemma StepShiftsDifference(x: bv32, y: bv32, h: bv32)
    requires Odd(x) == Odd(y) && Half(x) ^ Half(y) == h
    ensures BitStep(x) ^ BitStep(y) == h
  {
    if x & 1 != 0 { XorCases(POLY, x >> 1, y >> 1); }
  }

  lemma StepIsInjective(x: bv32, y: bv32)
    requires BitStep(x) == BitStep(y)
    ensures x == y
  {
  }

  /** Registers that differ in their low bit differ in the top bit one step later. */
  lemma ParityReachesTop(x: bv32, y: bv32)
    requires BitStep(x) ^ BitStep(y) < 0x8000_0000
    ensures Odd(x) == Odd(y)
  {
  }

  lemma ShiftOfXor(x: bv32, y: bv32)
    ensures Half(x ^ y) == Half(x) ^ Half(y)
  {
  }

  lemma WrongBitReachesTop(c: bv32, a: bool, b: bool)
    requires a != b
    ensures Feed(c, a) ^ Feed(c, b) >= 0x8000_0000
  {
  }

  lemma StepDifference(u: bv32, v: bv32)
    requires BitStep(u) ^ BitStep(v) < 0x8000_0000
    ensures BitStep(u) ^ BitStep(v) == Half(u ^ v)
  {
    ParityReachesTop(u, v);
    ShiftOfXor(u, v);
    hide *;
    StepShiftsDifference(u, v, Half(u ^ v));
  }

  /** These facts with the difference as one term, so that what builds on them does not
      look at bits any more. */
  lemma DiffOfSteps(u: bv32, v: bv32)
    requires Diff(BitStep(u), BitStep(v)) < 0x8000_0000
    ensures Diff(BitStep(u), BitStep(v)) == Half(Diff(u, v))
  {
    hide BitStep, Half, Odd;
    StepDifference(u, v);
  }

  lemma HalfOfDiff(x: bv32, y: bv32)
    ensures Half(Diff(x, y)) == Diff(Half(x), Half(y))
  {
  }

  lemma HalfDropsBit(x: bv32, b: bool)
    ensures Half(Diff(x, BitValue(b))) == Half(x)
  {
  }

  lemma DiffDropsLowBits(x: bv32, y: bv32, a: bool, b: bool)
    ensures Half(Diff(Diff(x, BitValue(a)), Diff(y, BitValue(b)))) == Half(Diff(x, y))
  {
    hide *;
    HalfOfDiff(Diff(x, BitValue(a)), Diff(y, BitValue(b)));
    HalfDropsBit(x, a);
    HalfDropsBit(y, b);
    HalfOfDiff(x, y);
  }

  lemma DiffReachesTop(c: bv32, a: bool, b: bool)
    requires a != b
    ensures Diff(Feed(c, a), Feed(c, b)) >= 0x8000_0000
  {
    hide Feed;
    WrongBitReachesTop(c, a, b);
  }

  lemma CancelBit(x: bv32, y: bv32, b: bool)
    requires x ^ BitValue(b) == y ^ BitValue(b)
    ensures x == y
  {
  }

  /** Mixing in the low bit `v` of `b` leaves a difference of `b` without that bit. */
  lemma MixedParity(x: bv32, c: bv32, b: bv32, mixed: bv32, v: bv32)
    requires x ^ c == b && mixed == c ^ v && v == b & 1
    ensures Odd(mixed) == Odd(x)
  {
  }

  lemma MixedHalf(x: bv32, c: bv32, b: bv32, mixed: bv32, v: bv32)
    requires x ^ c == b && mixed == c ^ v && v <= 1
    ensures Half(x) ^ Half(mixed) == Half(b)
  {
  }

  lemma MixedStep(x: bv32, c: bv32, b: bv32, mixed: bv32, v: bv32)
    requires x ^ c == b && mixed == c ^ v && v == b & 1
    ensures BitStep(x) ^ BitStep(mixed) == Half(b)
  {
    MixedParity(x, c, b, mixed, v);
    MixedHalf(x, c, b, mixed, v);
    StepShiftsDifference(x, mixed, Half(b));
  }

  lemma LowBitValue(b: bv32)
    ensures BitValue(Odd(b)) == b & 1
  {
  }

  lemma MixDifference(c: bv32, b: bv32)
    ensures (c ^ b) ^ c == b
  {
  }

  // ----- shifting a register empty -----

  lemma Shift8(x: bv32)
    ensures Iterate(Half, x, 8) == x >> 8
  {
    IterateConcat(Half, x, 2, 2);
    IterateConcat(Half, x >> 4, 2, 2);
    IterateConcat(Half, x, 4, 4);
  }

  lemma Shift16(x: bv32)
    ensures Iterate(Half, x, 16) == x >> 16
  {
    IterateConcat(Half, x, 8, 8);
    Shift8(x);
    Shift8(x >> 8);
  }

  lemma Shift7(x: bv32)
    ensures Iterate(Half, x, 7) == x >> 7
  {
    IterateConcat(Half, x, 2, 2);
    IterateConcat(Half, x, 4, 3);
  }

  lemma Shift15(x: bv32)
    ensures Iterate(Half, x, 15) == x >> 15
  {
    IterateConcat(Half, x, 8, 7);
    Shift8(x);
    Shift7(x >> 8);
  }

  lemma Shift31(x: bv32)
    ensures Iterate(Half, x, 31) == x >> 31
  {
    IterateConcat(Half, x, 16, 15);
    Shift16(x);
    Shift15(x >> 16);
  }

  /** Fewer than 32 shifts do not clear a register whose top bit is set. */
  lemma TopBitStays(x: bv32, n: nat)
    requires n <= 31 && Iterate(Half, x, n) == 0
    ensures x < 0x8000_0000
  {
    IterateConcat(Half, x, n, 31 - n);
    IterateFixed(Half, 0, 31 - n);
    Shift31(x);
  }

  // ----- error detection -----

  /** Registers that agree on all but their low `k` bits. */
  predicate Close(x: bv32, y: bv32, k: nat) {
    Iterate(Half, Diff(x, y), k) == 0
  }

  lemma FeedIsStep(c: bv32, b: bool)
    ensures Feed(c, b) == BitStep(Diff(c, BitValue(b)))
  {
    hide BitStep, BitValue;
  }

  lemma FeedShiftsDifference(x: bv32, y: bv32, a: bool, b: bool)
    requires Diff(Feed(x, a), Feed(y, b)) < 0x8000_0000
    ensures Diff(Feed(x, a), Feed(y, b)) == Half(Diff(x, y))
  {
    hide *;
    FeedIsStep(x, a);
    FeedIsStep(y, b);
    DiffOfSteps(Diff(x, BitValue(a)), Diff(y, BitValue(b)));
    DiffDropsLowBits(x, y, a, b);
  }

  lemma CloseBackwards(x: bv32, y: bv32, a: bool, b: bool, k: nat)
    requires k < 32 && Close(Feed(x, a), Feed(y, b), k)
    ensures Close(x, y, k + 1)
  {
    hide Feed, Half, Diff;
    TopBitStays(Diff(Feed(x, a), Feed(y, b)), k);
    FeedShiftsDifference(x, y, a, b);
  }

  lemma FeedMeetsHypotheses()
    ensures StepInjective(Feed) && Contracts(Feed, Close, 32) && Separates(Feed, Close, 32)
  {
    forall x, y, b | Feed(x, b) == Feed(y, b) ensures x == y {
      StepIsInjective(x ^ BitValue(b), y ^ BitValue(b));
      CancelBit(x, y, b);
    }
    forall x ensures Close(x, x, 0) { XorZero(x, x); }
    forall x, y, a, b, k: nat | k < 32 && Close(Feed(x, a), Feed(y, b), k) ensures Close(x, y, k + 1) {
      CloseBackwards(x, y, a, b, k);
    }
    forall x, a, b, k: nat | a != b && k < 32 ensures !Close(Feed(x, a), Feed(x, b), k) {
      DiffReachesTop(x, a, b);
      if Close(Feed(x, a), Feed(x, b), k) { TopBitStays(Diff(Feed(x, a), Feed(x, b)), k); }
    }
  }

  /** The bits of one byte, least significant first. */
  function ByteBits(b: bv8): (r: seq<bool>)
    ensures |r| == 8
  {
    Digits(Odd, Half, b as bv32, 8)
  }

  function Bits(s: seq<bv8>): (r: seq<bool>)
    ensures |r| == 8 * |s|
  {
    FlatMapLength(ByteBits, s, 8);
    FlatMap(ByteBits, s)
  }

  lemma NothingPastEightBits(b: bv8)
    ensures Iterate(Half, b as bv32, 8) == 0
  {
    Shift8(b as bv32);
  }

  lemma ByteBitsInjective(a: bv8, b: bv8)
    requires ByteBits(a) == ByteBits(b)
    ensures a == b
  {
    OddAndHalfDetermine();
    NothingPastEightBits(a);
    NothingPastEightBits(b);
    DigitsInjective(Odd, Half, a as bv32, b as bv32, 8);
    WidenInjective(a, b);
  }

  lemma OddAndHalfDetermine()
    ensures forall x, y :: Odd(x) == Odd(y) && Half(x) == Half(y) ==> x == y
  {
    forall x, y | Odd(x) == Odd(y) && Half(x) == Half(y) ensures x == y { ParityAndHalf(x, y); }
  }

  lemma ParityAndHalf(x: bv32, y: bv32)
    requires Odd(x) == Odd(y) && Half(x) == Half(y)
    ensures x == y
  {
  }

  lemma WidenInjective(a: bv8, b: bv8)
    requires a as bv32 == b as bv32
    ensures a == b
  {
  }

  predicate Lead(x: bv32, c: bv32, b: bv32) { x ^ c == b }

  lemma LeadAdvances(x: bv32, c: bv32, b: bv32, odd: bool, half: bv32)
    requires Lead(x, c, b) && odd == Odd(b) && half == Half(b)
    ensures Lead(BitStep(x), Feed(c, odd), half)
  {
    LowBitValue(b);
    MixedStep(x, c, b, c ^ BitValue(odd), BitValue(odd));
  }

  lemma LeadMeetsHypotheses()
    ensures forall x, c, b :: Lead(x, c, b) ==> Lead(BitStep(x), Feed(c, Odd(b)), Half(b))
    ensures forall x, c :: Lead(x, c, 0) ==> x == c
  {
    forall x, c, b | Lead(x, c, b) ensures Lead(BitStep(x), Feed(c, Odd(b)), Half(b)) {
      LeadAdvances(x, c, b, Odd(b), Half(b));
    }
    forall x, c | Lead(x, c, 0) ensures x == c { XorZero(x, c); }
  }

  lemma ShiftsAreBits(x: bv32, c: bv32, b: bv32)
    requires Lead(x, c, b) && Iterate(Half, b, 8) == 0
    ensures Iterate(BitStep, x, 8) == Fold(Feed, c, Digits(Odd, Half, b, 8))
  {
    LeadMeetsHypotheses();
    MixAtOnceOrByDigits(BitStep, Feed, Odd, Half, Lead, 0, x, c, b, 8);
  }

  /** One byte step is eight bit steps. */
  lemma ByteStepIsBits(c: bv32, b: bv8)
    ensures ByteStep(c, b) == Fold(Feed, c, ByteBits(b))
  {
    MixDifference(c, b as bv32);
    NothingPastEightBits(b);
    ShiftsAreBits(c ^ (b as bv32), c, b as bv32);
  }

  lemma BitsInjective(a: seq<bv8>, b: seq<bv8>)
    requires |a| == |b| && Bits(a) == Bits(b)
    ensures a == b
  {
    forall x, y | ByteBits(x) == ByteBits(y) ensures x == y { ByteBitsInjective(x, y); }
    FlatMapInjective(ByteBits, a, b, 8);
  }

  lemma InversionCancels(x: bv32, y: bv32)
    requires x ^ ONES == y ^ ONES
    ensures x == y
  {
  }

  lemma FoldIsBits(s: seq<bv8>)
    ensures Fold(ByteStep, ONES, s) == Fold(Feed, ONES, Bits(s))
  {
    forall c, x ensures ByteStep(c, x) == Fold(Feed, c, ByteBits(x)) { ByteStepIsBits(c, x); }
    FoldByDigits(ByteStep, Feed, ByteBits, ONES, s);
  }

  lemma SameChecksumSameRegister(a: seq<bv8>, b: seq<bv8>)
    requires Of(a) == Of(b)
    ensures Fold(Feed, ONES, Bits(a)) == Fold(Feed, ONES, Bits(b))
  {
    InversionCancels(Fold(ByteStep, ONES, a), Fold(ByteStep, ONES, b));
    hide *;
    FoldIsBits(a);
    FoldIsBits(b);
  }

  /** Every burst is detected: two messages of equal length whose differing bits all lie
      within 32 consecutive bits have different checksums. */
  lemma BurstDetected(a: seq<bv8>, b: seq<bv8>, start: nat)
    requires |a| == |b| && a != b
    requires forall i :: 0 <= i < 8 * |a| && !(start <= i < start + 32) ==> Bits(a)[i] == Bits(b)[i]
    ensures Of(a) != Of(b)
  {
    hide *;
    if Of(a) == Of(b) {
      SameChecksumSameRegister(a, b);
      FeedMeetsHypotheses();
      ChangeIsVisible(Feed, Close, 32, ONES, Bits(a), Bits(b), start);
      BitsInjective(a, b);
    }
  }

  lemma BitsAt(s: seq<bv8>, k: nat)
    requires k < 8 * |s|
    ensures Bits(s)[k] == ByteBits(s[k / 8])[k % 8]
  {
    FlatMapAt(ByteBits, s, 8, k / 8, k % 8);
  }

  /** In particular any change confined to four consecutive bytes. */
  lemma FourByteChangeDetected(a: seq<bv8>, b: seq<bv8>, i: nat)
    requires |a| == |b| && a != b
    requires forall j :: 0 <= j < |a| && !(i <= j < i + 4) ==> a[j] == b[j]
    ensures Of(a) != Of(b)
  {
    forall k | 0 <= k < 8 * |a| && !(8 * i <= k < 8 * i + 32) ensures Bits(a)[k] == Bits(b)[k] {
      BitsAt(a, k);
      BitsAt(b, k);
    }
    BurstDetected(a, b, 8 * i);
  }
}
