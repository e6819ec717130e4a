/** Civil dates from unix time, as the request signer computes them without a calendar library:
    `civil_from_days` is nested division, and the theorem is that it is the Gregorian calendar. */
module CivilDate {
  datatype Date = Date(year: nat, month: nat, day: nat)

  // ----- the calendar -----

  predicate IsLeap(y: nat) { y % 4 == 0 && (y % 100 != 0 || y % 400 == 0) }

  function DaysInMonth(y: nat, m: nat): nat
    requires 1 <= m <= 12
  {
    if m == 2 then (if IsLeap(y) then 29 else 28)
    else if m == 4 || m == 6 || m == 9 || m == 11 then 30
    else 31
  }

  predicate IsDate(d: Date) {
    1 <= d.month <= 12 && 1 <= d.day <= DaysInMonth(d.year, d.month)
  }

  /** The day after. */
  function Tomorrow(d: Date): (r: Date)
    requires IsDate(d)
    ensures IsDate(r) && DateLess(d, r)
  {
    if d.day < DaysInMonth(d.year, d.month) then d.(day := d.day + 1)
    else if d.month < 12 then Date(d.year, d.month + 1, 1)
    else Date(d.year + 1, 1, 1)
  }

  predicate DateLess(a: Date, b: Date) {
    Less3(a.year, a.month, a.day, b.year, b.month, b.day)
  }

  predicate Less3(a: nat, b: nat, c: nat, x: nat, y: nat, z: nat) {
    a < x || (a == x && (b < y || (b == y && c < z)))
  }

  /** The calendar: count days from 1970-01-01. */
  function Calendar(days: nat): (r: Date)
    ensures IsDate(r)
    decreases days
  {
    if days == 0 then Date(1970, 1, 1) else Tomorrow(Calendar(days - 1))
  }

  // ----- the code -----

  /** Unsigned subtraction: it must not go below zero. */
  function Minus(a: nat, b: nat): nat
    requires b <= a
  {
    a - b
  }

  function YearOfEra(doe: nat): nat {
    Minus(Minus(doe, doe / 1460) + doe / 36524, doe / 146096) / 365
  }

  /** The day `doy` of the year that starts on 1 March of year `y`. */
  function DateOf(y: nat, doy: nat): Date
    requires doy <= 365
  {
    var mp := (5 * doy + 2) / 153;
    var d := Minus(doy, (153 * mp + 2) / 5) + 1;
    var m := if mp < 10 then mp + 3 else Minus(mp, 9);
    Date(if m <= 2 then y + 1 else y, m, d)
  }

  function CivilFromDays(days: nat): Date {
    var z := days + 719468;
    var doe := z % 146097;
    Bracket(doe);
    var yoe := YearOfEra(doe);
    DateOf(yoe + z / 146097 * 400, Minus(doe, Minus(365 * yoe + yoe / 4, yoe / 100)))
  }

  // ----- years that start in March -----

  /** Days of the era before its March-based year `y`. */
  function DaysBefore(y: nat): nat { 365 * y + y / 4 - y / 100 + y / 400 }

  /** The length of the March-based year `y`, which ends in February of the next. */
  function YearLength(y: nat): nat { if IsLeap(y + 1) then 366 else 365 }

  lemma Quotients(c: nat, q: nat, u: nat)
    requires c < 4 && q < 25 && u <= 1460 && (q == 24 ==> u < 1460)
    ensures var doe := 36524 * c + 1461 * q + u;
            && doe / 36524 == c && doe / 146096 == 0
            && doe / 1460 == 25 * c + q + (if 24 * c + q + u >= 1460 then 1 else 0)
  {
  }

  lemma YearIs(c: nat, q: nat, u: nat, k: nat)
    requires c < 4 && q < 25 && u <= 1460 && (q == 24 ==> u < 1460)
    requires k < 4 && 365 * k <= u && (u < 365 * (k + 1) || k == 3)
    ensures YearOfEra(36524 * c + 1461 * q + u) == 100 * c + 4 * q + k
  {
    Quotients(c, q, u);
  }

  lemma DaysBeforeIs(c: nat, q: nat, k: nat)
    requires c < 4 && q < 25 && k < 4
    ensures DaysBefore(100 * c + 4 * q + k) == 36524 * c + 1461 * q + 365 * k
    ensures YearLength(100 * c + 4 * q + k) == if k == 3 && (q < 24 || c == 3) then 366 else 365
  {
    YearParts(c, q, k);
    LeapParts(c, q, k);
    hide IsLeap;
  }

  lemma YearParts(c: nat, q: nat, k: nat)
    requires c < 4 && q < 25 && k < 4
    ensures (100 * c + 4 * q + k) / 4 == 25 * c + q
    ensures (100 * c + 4 * q + k) / 100 == c && (100 * c + 4 * q + k) / 400 == 0
  {
  }

  lemma LeapParts(c: nat, q: nat, k: nat)
    requires c < 4 && q < 25 && k < 4
    ensures IsLeap(100 * c + 4 * q + k + 1) <==> k == 3 && (q < 24 || c == 3)
  {
    var x := 100 * c + 4 * q + k + 1;
    assert x % 4 == (k + 1) % 4;
    assert x % 100 == (4 * q + k + 1) % 100;
  }

  lemma Parts(doe: nat) returns (c: nat, q: nat, u: nat)
    requires doe < 146096
    ensures c < 4 && q < 25 && u <= 1460 && (q == 24 ==> u < 1460)
    ensures doe == 36524 * c + 1461 * q + u
  {
    var t := doe % 36524;
    c, q, u := doe / 36524, t / 1461, t % 1461;
  }

  lemma LastDay()
    ensures YearOfEra(146096) == 399
    ensures DaysBefore(399) + 365 == 146096 && YearLength(399) == 366
  {
  }

  /** The nested division finds the year the day lies in. */
  lemma Bracket(doe: nat)
    requires doe < 146097
    ensures YearOfEra(doe) < 400
    ensures DaysBefore(YearOfEra(doe)) <= doe < DaysBefore(YearOfEra(doe)) + YearLength(YearOfEra(doe))
  {
    hide YearOfEra, DaysBefore, YearLength;
    if doe == 146096 {
      LastDay();
    } else {
      var c, q, u := Parts(doe);
      var k := if u < 365 then 0 else if u < 730 then 1 else if u < 1095 then 2 else 3;
      YearIs(c, q, u, k);
      DaysBeforeIs(c, q, k);
    }
  }

  lemma Steps4(y: nat)
    ensures (y + 1) / 4 == y / 4 + (if (y + 1) % 4 == 0 then 1 else 0)
  {
  }

  lemma Steps100(y: nat)
    ensures (y + 1) / 100 == y / 100 + (if (y + 1) % 100 == 0 then 1 else 0)
    ensures (y + 1) % 100 == 0 ==> (y + 1) % 4 == 0
  {
  }

  lemma Steps400(y: nat)
    ensures (y + 1) / 400 == y / 400 + (if (y + 1) % 400 == 0 then 1 else 0)
    ensures (y + 1) % 400 == 0 ==> (y + 1) % 100 == 0
  {
  }

  lemma NextYear(y: nat)
    ensures DaysBefore(y) + YearLength(y) == DaysBefore(y + 1)
  {
    Steps4(y);
    Steps100(y);
    Steps400(y);
    YearSum(y, y / 4, y / 100, y / 400, (y + 1) / 4, (y + 1) / 100, (y + 1) / 400);
    hide IsLeap;
  }

  lemma YearSum(y: nat, a: nat, b: nat, c: nat, a': nat, b': nat, c': nat)
    requires a' == a + (if (y + 1) % 4 == 0 then 1 else 0) && b' == b + (if (y + 1) % 100 == 0 then 1 else 0)
    requires c' == c + (if (y + 1) % 400 == 0 then 1 else 0)
    requires ((y + 1) % 100 == 0 ==> (y + 1) % 4 == 0) && ((y + 1) % 400 == 0 ==> (y + 1) % 100 == 0)
    ensures 365 * y + a - b + c + YearLength(y) == 365 * (y + 1) + a' - b' + c'
  {
  }

  lemma {:induction false} YearsAscend(a: nat, b: nat)
    requires a < b <= 400
    ensures DaysBefore(a) + YearLength(a) <= DaysBefore(b)
    decreases b
  {
    hide DaysBefore, YearLength;
    NextYear(b - 1);
    if a < b - 1 { YearsAscend(a, b - 1); }
  }

  lemma YearUnique(doe: nat, y: nat)
    requires doe < 146097 && y < 400 && DaysBefore(y) <= doe < DaysBefore(y) + YearLength(y)
    ensures YearOfEra(doe) == y
  {
    hide YearOfEra, DaysBefore, YearLength;
    Bracket(doe);
    var x := YearOfEra(doe);
    if x < y { YearsAscend(x, y); }
    if y < x { YearsAscend(y, x); }
  }

  lemma EraYears(y: nat, era: nat)
    ensures YearLength(y + era * 400) == YearLength(y)
  {
    ShiftMod4(y + 1, era);
    ShiftMod100(y + 1, era);
    ShiftMod400(y + 1, era);
  }

  lemma ShiftMod4(x: nat, k: nat)
    ensures (x + 400 * k) % 4 == x % 4
  {
  }

  lemma ShiftMod100(x: nat, k: nat)
    ensures (x + 400 * k) % 100 == x % 100
  {
  }

  lemma ShiftMod400(x: nat, k: nat)
    ensures (x + 400 * k) % 400 == x % 400
  {
  }

  // ----- days within such a year -----

  /** Days of such a year before its month `mp`, counted from March. */
  function MonthStart(mp: nat): nat { (153 * mp + 2) / 5 }

  lemma MonthOf(doy: nat) returns (mp: nat)
    requires doy <= 365
    ensures mp < 12 && MonthStart(mp) <= doy < MonthStart(mp + 1) && (5 * doy + 2) / 153 == mp
  {
    mp := (5 * doy + 2) / 153;
  }

  lemma DayOfMonth(y: nat, doy: nat, mp: nat)
    requires doy <= 365 && mp < 12 && MonthStart(mp) <= doy < MonthStart(mp + 1)
    ensures DateOf(y, doy)
            == Date(if mp < 10 then y else y + 1, if mp < 10 then mp + 3 else mp - 9, doy - MonthStart(mp) + 1)
  {
    var m := MonthOf(doy);
    MonthsApart(m, mp, doy);
    hide MonthStart;
  }

  lemma MonthsApart(m: nat, n: nat, doy: nat)
    requires m < 12 && n < 12 && MonthStart(m) <= doy < MonthStart(m + 1) && MonthStart(n) <= doy < MonthStart(n + 1)
    ensures m == n
  {
  }

  /** All months but February, which the year's end cuts short. */
  lemma MonthLength(y: nat, mp: nat)
    requires mp < 11
    ensures MonthStart(mp + 1) - MonthStart(mp)
            == DaysInMonth(if mp < 10 then y else y + 1, if mp < 10 then mp + 3 else mp - 9)
  {
  }

  lemma FebruaryStart()
    ensures MonthStart(11) == 337 && MonthStart(12) == 367
  {
  }

  lemma NextDay(y: nat, doy: nat)
    requires doy + 1 < YearLength(y)
    ensures IsDate(DateOf(y, doy)) && Tomorrow(DateOf(y, doy)) == DateOf(y, doy + 1)
  {
    hide MonthStart, DateOf;
    FebruaryStart();
    var mp := MonthOf(doy);
    DayOfMonth(y, doy, mp);
    if mp < 11 { MonthLength(y, mp); }
    if doy + 1 < MonthStart(mp + 1) {
      DayOfMonth(y, doy + 1, mp);
    } else {
      MonthStarts(mp + 1);
      DayOfMonth(y, doy + 1, mp + 1);
    }
  }

  lemma MonthStarts(mp: nat)
    ensures MonthStart(mp) < MonthStart(mp + 1)
  {
  }

  lemma NewYear(y: nat)
    ensures var last := DateOf(y, YearLength(y) - 1); IsDate(last) && Tomorrow(last) == DateOf(y + 1, 0)
  {
  }

  lemma YearFitsEra(y: nat)
    requires y < 400
    ensures DaysBefore(y) + YearLength(y) <= 146097
  {
    hide DaysBefore, YearLength;
    LastDay();
    if y < 399 { YearsAscend(y, 399); }
  }

  /** The day in era `era`, March-based year `y`, day-of-year `doy`, whatever its number. */
  lemma CivilIs(days: nat, era: nat, y: nat, doy: nat)
    requires y < 400 && doy < YearLength(y)
    requires days + 719468 == era * 146097 + DaysBefore(y) + doy
    ensures CivilFromDays(days) == DateOf(y + era * 400, doy)
  {
    var doe := DaysBefore(y) + doy;
    YearFitsEra(y);
    YearUnique(doe, y);
    EraAndDay(days + 719468, era, doe);
    assert DaysBefore(y) == 365 * y + y / 4 - y / 100;
    hide YearOfEra, YearLength, DateOf, DaysBefore;
  }

  lemma EraAndDay(z: nat, era: nat, doe: nat)
    requires doe < 146097 && z == era * 146097 + doe
    ensures z / 146097 == era && z % 146097 == doe
  {
  }

  lemma Locate(days: nat) returns (era: nat, y: nat, doy: nat)
    ensures y < 400 && doy < YearLength(y)
    ensures days + 719468 == era * 146097 + DaysBefore(y) + doy
  {
    era := (days + 719468) / 146097;
    var doe := (days + 719468) % 146097;
    Bracket(doe);
    hide YearOfEra, YearLength, DaysBefore;
    y := YearOfEra(doe);
    doy := doe - DaysBefore(y);
  }

  /** One day later is the next calendar day. */
  lemma NextCivilDay(days: nat)
    ensures IsDate(CivilFromDays(days)) && Tomorrow(CivilFromDays(days)) == CivilFromDays(days + 1)
  {
    hide CivilFromDays, YearLength, DaysBefore, DateOf, Tomorrow, IsDate;
    var era, y, doy := Locate(days);
    CivilIs(days, era, y, doy);
    EraYears(y, era);
    NextYear(y);
    if doy + 1 < YearLength(y) {
      NextDay(y + era * 400, doy);
      CivilIs(days + 1, era, y, doy + 1);
    } else {
      NewYear(y + era * 400);
      LastDay();
      FirstYear();
      if y < 399 { CivilIs(days + 1, era, y + 1, 0); } else { CivilIs(days + 1, era + 1, 0, 0); }
    }
  }

  lemma FirstYear()
    ensures DaysBefore(0) == 0 && forall y :: YearLength(y) > 0
  {
  }

  lemma Epoch()
    ensures CivilFromDays(0) == Date(1970, 1, 1)
  {
    assert DaysBefore(369) == 134774;
    CivilIs(0, 4, 369, 306);
    hide CivilFromDays;
  }

  /** The theorem: the code is the calendar, for every day. */
  lemma {:induction false} CivilIsCalendar(days: nat)
    ensures CivilFromDays(days) == Calendar(days)
    decreases days
  {
    hide CivilFromDays, Tomorrow, IsDate;
    if days == 0 {
      Epoch();
    } else {
      CivilIsCalendar(days - 1);
      NextCivilDay(days - 1);
    }
  }
}
