/** The signer's timestamp `YYYYMMDD'T'HHMMSS'Z'`: fixed width and order-preserving exactly as
    long as years have four digits. */
module AmzDate {
  import opened CivilDate

  // ----- decimal numbers, zero-padded to a minimum width -----

  function Digit(d: nat): char
    requires d < 10
  {
    '0' + d as char
  }

  function Digits(n: nat): string {
    if n < 10 then [Digit(n)] else Digits(n / 10) + [Digit(n % 10)]
  }

  function Zeros(k: nat): string { seq(k, _ => '0') }

  function Padded(n: nat, width: nat): string {
    var ds := Digits(n);
    if |ds| < width then Zeros(width - |ds|) + ds else ds
  }

  function DayPart(d: Date): string {
    Padded(d.year, 4) + (Padded(d.month, 2) + Padded(d.day, 2))
  }

  function TimePart(tod: nat): string {
    Padded(tod / 3600, 2) + (Padded(tod % 3600 / 60, 2) + Padded(tod % 60, 2))
  }

  function AmzDate(unixSecs: nat): string {
    DayPart(CivilFromDays(unixSecs / 86400)) + ("T" + (TimePart(unixSecs % 86400) + "Z"))
  }

  // ----- comparing strings -----

  predicate StringLess(a: string, b: string)
    decreases |a|
  {
    b != [] && (a == [] || a[0] < b[0] || (a[0] == b[0] && StringLess(a[1..], b[1..])))
  }

  lemma {:induction false} LessIsStrict(a: string, b: string)
    requires StringLess(a, b)
    ensures a != b && !StringLess(b, a)
    decreases |a|
  {
    if a != [] && a[0] == b[0] { LessIsStrict(a[1..], b[1..]); }
  }

  lemma {:induction false} LessByPrefix(a: string, b: string, c: string, d: string)
    requires |a| == |b| && StringLess(a, b)
    ensures StringLess(a + c, b + d)
    decreases |a|
  {
    assert (a + c)[0] == a[0] && (b + d)[0] == b[0];
    if a[0] == b[0] {
      LessByPrefix(a[1..], b[1..], c, d);
      assert (a + c)[1..] == a[1..] + c && (b + d)[1..] == b[1..] + d;
    }
  }

  lemma {:induction false} LessBySuffix(a: string, c: string, d: string)
    requires StringLess(c, d)
    ensures StringLess(a + c, a + d)
    decreases |a|
  {
    if a == [] {
      assert a + c == c && a + d == d;
    } else {
      LessBySuffix(a[1..], c, d);
      assert (a + c)[1..] == a[1..] + c && (a + d)[1..] == a[1..] + d;
    }
  }

  // ----- numbers of a fixed width -----

  function Pow10(w: nat): (r: nat)
    ensures r > 0
  {
    if w == 0 then 1 else 10 * Pow10(w - 1)
  }

  /** The last `w` digits of `n`. */
  function Fixed(n: nat, w: nat): (r: string)
    ensures |r| == w
    decreases w
  {
    if w == 0 then [] else Fixed(n / 10, w - 1) + [Digit(n % 10)]
  }

  lemma {:induction false} FixedZero(w: nat)
    ensures Fixed(0, w) == Zeros(w)
    decreases w
  {
    if w == 0 {
    } else {
      FixedZero(w - 1);
    }
  }

  lemma {:induction false} PaddedIsFixed(n: nat, w: nat)
    requires w > 0 && n < Pow10(w)
    ensures Padded(n, w) == Fixed(n, w) && |Digits(n)| <= w
    decreases w
  {
    if w == 1 || n < 10 {
      FixedZero(w - 1);
      assert n < 10;
    } else {
      PaddedIsFixed(n / 10, w - 1);
      assert |Digits(n)| == |Digits(n / 10)| + 1;
      if |Digits(n)| < w {
        assert Zeros(w - |Digits(n)|) + Digits(n) == Zeros(w - 1 - |Digits(n / 10)|) + Digits(n / 10) + [Digit(n % 10)];
      }
    }
  }

  lemma {:induction false} TooWide(n: nat, w: nat)
    requires w > 0 && n >= Pow10(w)
    ensures |Padded(n, w)| > w && |Digits(n)| > w
    decreases w
  {
    if w > 1 {
      TooWide(n / 10, w - 1);
    } else {
      assert Pow10(1) == 10 && |Digits(n)| == |Digits(n / 10)| + 1;
    }
  }

  lemma {:induction false} FixedOrder(n: nat, m: nat, w: nat)
    requires n < m < Pow10(w)
    ensures StringLess(Fixed(n, w), Fixed(m, w))
    decreases w
  {
    if n / 10 < m / 10 {
      FixedOrder(n / 10, m / 10, w - 1);
      LessByPrefix(Fixed(n / 10, w - 1), Fixed(m / 10, w - 1), [Digit(n % 10)], [Digit(m % 10)]);
    } else {
      assert n / 10 == m / 10 && n % 10 < m % 10;
      LessBySuffix(Fixed(n / 10, w - 1), [Digit(n % 10)], [Digit(m % 10)]);
    }
  }

  lemma TriplesOrder(a: nat, b: nat, c: nat, x: nat, y: nat, z: nat, w: nat)
    requires w > 0 && a < Pow10(w) && x < Pow10(w) && b < 100 && c < 100 && y < 100 && z < 100
    requires Less3(a, b, c, x, y, z)
    ensures StringLess(Padded(a, w) + (Padded(b, 2) + Padded(c, 2)), Padded(x, w) + (Padded(y, 2) + Padded(z, 2)))
  {
    assert Pow10(2) == 100 by { assert Pow10(1) == 10; }
    PaddedIsFixed(a, w); PaddedIsFixed(b, 2); PaddedIsFixed(c, 2);
    PaddedIsFixed(x, w); PaddedIsFixed(y, 2); PaddedIsFixed(z, 2);
    hide Padded, Fixed, StringLess;
    if a < x {
      FixedOrder(a, x, w);
      LessByPrefix(Fixed(a, w), Fixed(x, w), Fixed(b, 2) + Fixed(c, 2), Fixed(y, 2) + Fixed(z, 2));
    } else if b < y {
      FixedOrder(b, y, 2);
      LessByPrefix(Fixed(b, 2), Fixed(y, 2), Fixed(c, 2), Fixed(z, 2));
      LessBySuffix(Fixed(a, w), Fixed(b, 2) + Fixed(c, 2), Fixed(y, 2) + Fixed(z, 2));
    } else {
      FixedOrder(c, z, 2);
      LessBySuffix(Fixed(b, 2), Fixed(c, 2), Fixed(z, 2));
      LessBySuffix(Fixed(a, w), Fixed(b, 2) + Fixed(c, 2), Fixed(y, 2) + Fixed(z, 2));
    }
  }

  // ----- dates -----

  lemma {:induction false} DatesAscend(a: nat, b: nat)
    requires a < b
    ensures DateLess(CivilFromDays(a), CivilFromDays(b))
    decreases b
  {
    hide CivilFromDays;
    NextCivilDay(b - 1);
    if a < b - 1 { DatesAscend(a, b - 1); }
  }

  /** The first day with a five-digit year, and the first second of it. */
  const YEAR_10000: nat := 2932897
  const SECOND_10000: nat := 253402300800

  lemma LastFourDigitDay()
    ensures CivilFromDays(YEAR_10000 - 1) == Date(9999, 12, 31) && CivilFromDays(YEAR_10000) == Date(10000, 1, 1)
  {
    assert DaysBefore(399) == 145731;
    CivilIs(YEAR_10000 - 1, 24, 399, 305);
    assert DateOf(9999, 305) == Date(9999, 12, 31);
    hide CivilFromDays;
    NextCivilDay(YEAR_10000 - 1);
  }

  lemma FourDigits(days: nat)
    ensures CivilFromDays(days).year < 10000 <==> days < YEAR_10000
  {
    LastFourDigitDay();
    hide CivilFromDays;
    if days < YEAR_10000 - 1 { DatesAscend(days, YEAR_10000 - 1); }
    if days > YEAR_10000 { DatesAscend(YEAR_10000, days); }
  }

  lemma PartWidths(unixSecs: nat)
    ensures |TimePart(unixSecs % 86400)| == 6
    ensures |DayPart(CivilFromDays(unixSecs / 86400))| == 8 <==> CivilFromDays(unixSecs / 86400).year < 10000
  {
    var d := CivilFromDays(unixSecs / 86400);
    var tod := unixSecs % 86400;
    NextCivilDay(unixSecs / 86400);
    hide CivilFromDays, Padded;
    assert Pow10(4) == 10000 && Pow10(2) == 100 by { assert Pow10(1) == 10 && Pow10(3) == 1000; }
    PaddedIsFixed(d.month, 2); PaddedIsFixed(d.day, 2);
    PaddedIsFixed(tod / 3600, 2); PaddedIsFixed(tod % 3600 / 60, 2); PaddedIsFixed(tod % 60, 2);
    if d.year < 10000 { PaddedIsFixed(d.year, 4); } else { TooWide(d.year, 4); }
  }

  /** Sixteen characters, for exactly the timestamps before year 10000. */
  lemma SixteenWide(unixSecs: nat)
    ensures |AmzDate(unixSecs)| == 16 <==> unixSecs < SECOND_10000
  {
    PartWidths(unixSecs);
    FourDigits(unixSecs / 86400);
    hide CivilFromDays, DayPart, TimePart;
  }

  lemma DayPartOrder(d: Date, e: Date)
    requires IsDate(d) && IsDate(e) && d.year < 10000 && e.year < 10000 && DateLess(d, e)
    ensures StringLess(DayPart(d), DayPart(e))
  {
    assert Pow10(4) == 10000 by { assert Pow10(3) == 1000; }
    TriplesOrder(d.year, d.month, d.day, e.year, e.month, e.day, 4);
  }

  lemma TimePartOrder(s: nat, t: nat)
    requires s < t < 86400
    ensures StringLess(TimePart(s), TimePart(t))
  {
    assert Pow10(2) == 100 by { assert Pow10(1) == 10; }
    TriplesOrder(s / 3600, s % 3600 / 60, s % 60, t / 3600, t % 3600 / 60, t % 60, 2);
  }

  lemma AscendingDays(s: nat, t: nat)
    requires s / 86400 < t / 86400 < YEAR_10000
    ensures StringLess(AmzDate(s), AmzDate(t)) && |AmzDate(s)| >= 8 && |AmzDate(t)| >= 8
    ensures StringLess(AmzDate(s)[..8], AmzDate(t)[..8])
  {
    var d, e := CivilFromDays(s / 86400), CivilFromDays(t / 86400);
    NextCivilDay(s / 86400);
    NextCivilDay(t / 86400);
    FourDigits(s / 86400);
    FourDigits(t / 86400);
    DatesAscend(s / 86400, t / 86400);
    PartWidths(s);
    PartWidths(t);
    DayPartOrder(d, e);
    hide *;
    LessByPrefix(DayPart(d), DayPart(e), "T" + (TimePart(s % 86400) + "Z"), "T" + (TimePart(t % 86400) + "Z"));
    Prefix8(s);
    Prefix8(t);
  }

  lemma Prefix8(s: nat)
    requires |DayPart(CivilFromDays(s / 86400))| == 8
    ensures AmzDate(s) == DayPart(CivilFromDays(s / 86400)) + ("T" + (TimePart(s % 86400) + "Z"))
    ensures |AmzDate(s)| >= 8 && AmzDate(s)[..8] == DayPart(CivilFromDays(s / 86400))
  {
    hide CivilFromDays, DayPart, TimePart;
  }

  lemma AscendingTimes(s: nat, t: nat)
    requires s / 86400 == t / 86400 && s < t
    ensures StringLess(AmzDate(s), AmzDate(t))
  {
    var d := DayPart(CivilFromDays(s / 86400));
    var x, y := TimePart(s % 86400), TimePart(t % 86400);
    TimePartOrder(s % 86400, t % 86400);
    PartWidths(s);
    PartWidths(t);
    hide CivilFromDays, DayPart, TimePart, StringLess;
    LessByPrefix(x, y, "Z", "Z");
    LessBySuffix("T", x + "Z", y + "Z");
    LessBySuffix(d, "T" + (x + "Z"), "T" + (y + "Z"));
  }

  /** Before year 10000 the timestamps sort as the instants do, and their first eight
      characters, the date scope of the signature, agree exactly within one UTC day. */
  lemma OrderPreserved(s: nat, t: nat)
    requires s < SECOND_10000 && t < SECOND_10000
    ensures StringLess(AmzDate(s), AmzDate(t)) <==> s < t
    ensures |AmzDate(s)| == |AmzDate(t)| == 16
    ensures AmzDate(s)[..8] == AmzDate(t)[..8] <==> s / 86400 == t / 86400
  {
    SixteenWide(s);
    SixteenWide(t);
    hide AmzDate, StringLess;
    if s < t {
      AscendingPair(s, t);
    } else if t < s {
      AscendingPair(t, s);
    } else if StringLess(AmzDate(s), AmzDate(t)) {
      LessIsStrict(AmzDate(s), AmzDate(t));
    }
  }

  lemma AscendingPair(s: nat, t: nat)
    requires s < t < SECOND_10000
    ensures StringLess(AmzDate(s), AmzDate(t)) && !StringLess(AmzDate(t), AmzDate(s))
    ensures |AmzDate(s)| >= 8 && |AmzDate(t)| >= 8
    ensures AmzDate(s)[..8] == AmzDate(t)[..8] <==> s / 86400 == t / 86400
  {
    SixteenWide(s);
    SixteenWide(t);
    if s / 86400 < t / 86400 {
      AscendingDays(s, t);
      hide AmzDate, StringLess;
      LessIsStrict(AmzDate(s)[..8], AmzDate(t)[..8]);
    } else {
      AscendingTimes(s, t);
      PartWidths(s);
      FourDigits(s / 86400);
      Prefix8(s);
      Prefix8(t);
    }
    hide AmzDate, StringLess;
    LessIsStrict(AmzDate(s), AmzDate(t));
  }

  lemma OrderLostInYear10000()
    ensures !StringLess(AmzDate(SECOND_10000 - 1), AmzDate(SECOND_10000))
  {
    LastFourDigitDay();
    Year9999();
    Year10000();
    hide CivilFromDays, TimePart, Padded;
  }

  /** The bound is exact: timestamps sort as the instants do for all instants up to some bound, if
      and only if the bound is at most the first second of the year 10000. */
  lemma OrderPreservedIff(bound: nat)
    ensures (forall s: nat, t: nat :: s < bound && t < bound ==> (StringLess(AmzDate(s), AmzDate(t)) <==> s < t))
            <==> bound <= SECOND_10000
  {
    hide AmzDate, StringLess;
    if bound <= SECOND_10000 {
      forall s: nat, t: nat | s < bound && t < bound ensures StringLess(AmzDate(s), AmzDate(t)) <==> s < t {
        OrderPreserved(s, t);
      }
    } else {
      OrderLostInYear10000();
    }
  }

  lemma Year9999()
    ensures Padded(9999, 4) != [] && Padded(9999, 4)[0] == '9'
  {
    assert Digits(9) == "9" && Digits(99)[0] == '9';
    assert Digits(999)[0] == '9' && |Digits(999)| == 3;
    assert Digits(9999)[0] == '9' && |Digits(9999)| == 4;
  }

  lemma Year10000()
    ensures Padded(10000, 4) != [] && Padded(10000, 4)[0] == '1'
  {
    assert Digits(1) == "1" && Digits(10)[0] == '1' && |Digits(10)| == 2;
    assert Digits(100)[0] == '1' && |Digits(100)| == 3;
    assert Digits(1000)[0] == '1' && |Digits(1000)| == 4;
  }

  // ----- reading a timestamp -----

  /** The number a string of decimal digits stands for. */
  function Number(s: string): nat
    decreases |s|
  {
    if s == "" then 0
    else 10 * Number(s[..|s| - 1]) + (if '0' <= s[|s| - 1] <= '9' then (s[|s| - 1] - '0') as nat else 0)
  }

  lemma {:induction false} NumberOfFixed(n: nat, w: nat)
    requires n < Pow10(w)
    ensures Number(Fixed(n, w)) == n
    decreases w
  {
    if w == 0 {
    } else {
      NumberOfFixed(n / 10, w - 1);
      var s := Fixed(n, w);
      assert s[..|s| - 1] == Fixed(n / 10, w - 1) && s[|s| - 1] == Digit(n % 10);
    }
  }

  lemma NumberOfPadded(n: nat, w: nat)
    requires w > 0 && n < Pow10(w)
    ensures |Padded(n, w)| == w && Number(Padded(n, w)) == n
  {
    PaddedIsFixed(n, w);
    NumberOfFixed(n, w);
    hide Padded, Fixed, Number;
  }

  lemma SmallPowers()
    ensures Pow10(2) == 100 && Pow10(4) == 10000
  {
    assert Pow10(1) == 10 && Pow10(3) == 1000;
  }

  lemma DayPartReads(d: Date)
    requires IsDate(d) && d.year < 10000
    ensures var t := DayPart(d);
            |t| == 8 && Number(t[..4]) == d.year && Number(t[4..6]) == d.month && Number(t[6..]) == d.day
  {
    SmallPowers();
    NumberOfPadded(d.year, 4);
    NumberOfPadded(d.month, 2);
    NumberOfPadded(d.day, 2);
    hide Padded, Number;
    var t := DayPart(d);
    assert t[..4] == Padded(d.year, 4) && t[4..6] == Padded(d.month, 2) && t[6..] == Padded(d.day, 2);
  }

  lemma TimePartReads(tod: nat)
    requires tod < 86400
    ensures var t := TimePart(tod);
            |t| == 6 && Number(t[..2]) == tod / 3600 && Number(t[2..4]) == tod % 3600 / 60 && Number(t[4..]) == tod % 60
  {
    SmallPowers();
    NumberOfPadded(tod / 3600, 2);
    NumberOfPadded(tod % 3600 / 60, 2);
    NumberOfPadded(tod % 60, 2);
    hide Padded, Number;
    var t := TimePart(tod);
    assert t[..2] == Padded(tod / 3600, 2) && t[2..4] == Padded(tod % 3600 / 60, 2) && t[4..] == Padded(tod % 60, 2);
  }

  /** YYYYMMDD'T'HHMMSS'Z': every field of a timestamp, where it stands, is that of the calendar date and
      of the time of day. */
  lemma FieldsRead(unixSecs: nat)
    requires unixSecs < SECOND_10000
    ensures var t := AmzDate(unixSecs); var d, tod := Calendar(unixSecs / 86400), unixSecs % 86400;
            && |t| == 16 && t[8] == 'T' && t[15] == 'Z'
            && Number(t[..4]) == d.year && Number(t[4..6]) == d.month && Number(t[6..8]) == d.day
            && Number(t[9..11]) == tod / 3600 && Number(t[11..13]) == tod % 3600 / 60 && Number(t[13..15]) == tod % 60
  {
    hide *;
    SixteenWide(unixSecs);
    PartWidths(unixSecs);
    FourDigits(unixSecs / 86400);
    BeforeYear10000(unixSecs);
    NextCivilDay(unixSecs / 86400);
    CivilIsCalendar(unixSecs / 86400);
    var day, time := DayPart(CivilFromDays(unixSecs / 86400)), TimePart(unixSecs % 86400);
    DayPartReads(CivilFromDays(unixSecs / 86400));
    TimePartReads(unixSecs % 86400);
    Prefix8(unixSecs);
    Pieces(day, time);
  }

  lemma BeforeYear10000(unixSecs: nat)
    requires unixSecs < SECOND_10000
    ensures unixSecs / 86400 < YEAR_10000
  {
  }

  lemma Pieces(day: string, time: string)
    requires |day| == 8 && |time| == 6
    ensures var t := day + ("T" + (time + "Z"));
            && t[..4] == day[..4] && t[4..6] == day[4..6] && t[6..8] == day[6..] && t[8] == 'T'
            && t[9..11] == time[..2] && t[11..13] == time[2..4] && t[13..15] == time[4..] && t[15] == 'Z'
  {
  }
}
