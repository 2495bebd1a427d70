/** The month calendar: which month is shown, the "no future months" guard on
    navigation, the grid of leading blanks and day cells, the `YYYY-MM-DD` keys
    that match journal entries and chat days, and the today/past/future flags.
    Dates are proleptic Gregorian civil dates in local time with months
    numbered 0..11 as `Date.prototype.getMonth` numbers them; a day has exactly
    86 400 000 ms. */
module Calendar {
  import opened Common
  import Text

  type Month0 = m: int | 0 <= m < 12

  const MsPerDay: int := 86_400_000

  type MsOfDay = n: int | 0 <= n < MsPerDay

  datatype YearMonth = YearMonth(year: int, month: Month0)

  datatype CivilDate = CivilDate(year: int, month: Month0, day: int)

  /** A moment: a civil date and the milliseconds elapsed since its midnight. */
  datatype Instant = Instant(date: CivilDate, msOfDay: MsOfDay)

  /** Months counted from year 0: a total order on year-month pairs. */
  function MonthIndex(ym: YearMonth): int {
    ym.year * 12 + ym.month
  }

  /** `isFutureMonth(date)`: the month of `d` lies after the month of `now`. */
  function IsFutureMonth(d: YearMonth, now: YearMonth): (r: bool)
    ensures r <==> MonthIndex(d) > MonthIndex(now)
  {
    d.year > now.year || (d.year == now.year && d.month > now.month)
  }

  /** `new Date(y, m + delta, 1)`: month overflow and underflow carry into the year. */
  function AddMonths(ym: YearMonth, delta: int): (r: YearMonth)
    ensures MonthIndex(r) == MonthIndex(ym) + delta
  {
    var t := ym.month + delta;
    YearMonth(ym.year + t / 12, t % 12)
  }

  lemma JanuaryBackIsPreviousDecember(year: int)
    ensures AddMonths(YearMonth(year, 0), -1) == YearMonth(year - 1, 11)
    ensures AddMonths(YearMonth(year, 11), 1) == YearMonth(year + 1, 0)
  {
  }

  /** `navigateMonth(direction)`: moves to the month `direction` away unless
      that month is in the future, in which case the view stays put. */
  function NavigateMonth(current: YearMonth, direction: int, now: YearMonth): (r: YearMonth)
    ensures r == current || !IsFutureMonth(r, now)
    ensures !IsFutureMonth(current, now) ==> !IsFutureMonth(r, now)
    ensures r != current ==> MonthIndex(r) == MonthIndex(current) + direction
    ensures direction != 0 && MonthIndex(current) + direction <= MonthIndex(now) ==>
              MonthIndex(r) == MonthIndex(current) + direction
  {
    var target := AddMonths(current, direction);
    if !IsFutureMonth(target, now) then target else current
  }

  /** The forward arrow is rendered when the next month is not in the future. */
  function ShowsForwardArrow(current: YearMonth, now: YearMonth): (r: bool)
    ensures r <==> MonthIndex(current) < MonthIndex(now)
  {
    !IsFutureMonth(AddMonths(current, 1), now)
  }

  /** The arrow is shown exactly when pressing it would change the view. */
  lemma ForwardArrowIffNavigable(current: YearMonth, now: YearMonth)
    ensures ShowsForwardArrow(current, now) <==> NavigateMonth(current, 1, now) != current
  {
  }

  // ---------------------------------------------------------------------------
  // Day arithmetic

  predicate IsLeapYear(y: int) {
    y % 4 == 0 && (y % 100 != 0 || y % 400 == 0)
  }

  /** `new Date(y, m + 1, 0).getDate()`. */
  function DaysInMonth(year: int, month: Month0): (n: int)
    ensures 28 <= n <= 31
  {
    if month == 1 then (if IsLeapYear(year) then 29 else 28)
    else if month == 3 || month == 5 || month == 8 || month == 10 then 30
    else 31
  }

  /** Days since 1970-01-01 of a civil date (Gregorian, proleptic), the
      era-based formula; `month1` is 1..12. */
  function DaysFromCivil(year: int, month1: int, day: int): int
    requires 1 <= month1 <= 12
  {
    MonthStart(year, month1) + day - 1
  }

  /** Days since 1970-01-01 of the first of a month. Years are shifted to
      start in March so that the leap day is the last day of a shifted year. */
  function MonthStart(year: int, month1: int): int
    requires 1 <= month1 <= 12
  {
    var y := if month1 <= 2 then year - 1 else year;
    var era := y / 400;
    var yoe := y - era * 400;
    var mp := if month1 > 2 then month1 - 3 else month1 + 9;
    var doe := yoe * 365 + yoe / 4 - yoe / 100 + (153 * mp + 2) / 5;
    era * 146097 + doe - 719468
  }

  /** The first of the following month comes `DaysInMonth` days after the
      first of this one, December running into January of the next year:
      the day arithmetic and the month lengths agree. */
  lemma MonthLength(year: int, month: Month0)
    ensures (if month < 11 then MonthStart(year, month + 2) else MonthStart(year + 1, 1))
            - MonthStart(year, month + 1) == DaysInMonth(year, month)
  {
    if month == 1 {
      FebruaryLength(year);
    } else if month == 11 {
      DecemberLength(year);
    } else {
      OtherMonthLength(year, month);
    }
  }

  lemma FebruaryLength(year: int)
    ensures MonthStart(year, 3) - MonthStart(year, 2) == DaysInMonth(year, 1)
  {
    MonthStartFromMarch(year, 2);
    MonthStartFromMarch(year, 3);
    ShiftedYearLength(year - 1);
  }

  lemma DecemberLength(year: int)
    ensures MonthStart(year + 1, 1) - MonthStart(year, 12) == DaysInMonth(year, 11)
  {
    MonthStartFromMarch(year, 12);
    MonthStartFromMarch(year + 1, 1);
  }

  lemma OtherMonthLength(year: int, month: Month0)
    requires month != 1 && month != 11
    ensures MonthStart(year, month + 2) - MonthStart(year, month + 1) == DaysInMonth(year, month)
  {
    MonthStartFromMarch(year, month + 1);
    MonthStartFromMarch(year, month + 2);
    OffsetsGiveLengths(year, month);
  }

  lemma OffsetsGiveLengths(year: int, month: Month0)
    requires month != 1 && month != 11
    ensures MarchOffset(month + 2) - MarchOffset(month + 1) == DaysInMonth(year, month)
  {
  }

  /** The days from 1 March to the first of a month of the year that starts
      in that March. */
  function MarchOffset(month1: int): int
    requires 1 <= month1 <= 12
  {
    [306, 337, 0, 31, 61, 92, 122, 153, 184, 214, 245, 275][month1 - 1]
  }

  /** A month's first is its March-based offset after the first of the March
      that starts its shifted year. */
  lemma MonthStartFromMarch(year: int, month1: int)
    requires 1 <= month1 <= 12
    ensures MonthStart(year, month1) == MonthStart(if month1 <= 2 then year - 1 else year, 3) + MarchOffset(month1)
  {
  }

  /** A year that starts in March is 366 days long exactly when the February
      that ends it has a leap day. */
  lemma ShiftedYearLength(y: int)
    ensures MonthStart(y + 1, 3) - MonthStart(y, 3) == if IsLeapYear(y + 1) then 366 else 365
  {
    var era := y / 400;
    var yoe := y - era * 400;
    assert MonthStart(y, 3) == era * 146097 + yoe * 365 + yoe / 4 - yoe / 100 - 719468;
    if yoe == 399 {
      assert (y + 1) / 400 == era + 1;
      assert MonthStart(y + 1, 3) == era * 146097 + 146097 - 719468;
      assert IsLeapYear(y + 1) by {
        AddEras(era, 400);
      }
    } else {
      var t := yoe + 1;
      assert (y + 1) / 400 == era;
      assert MonthStart(y + 1, 3) == era * 146097 + t * 365 + t / 4 - t / 100 - 719468;
      assert IsLeapYear(y + 1) <==> t % 4 == 0 && (t % 100 != 0 || t == 400) by {
        AddEras(era, t);
      }
      assert t / 4 - yoe / 4 == if t % 4 == 0 then 1 else 0;
      assert t / 100 - yoe / 100 == if t % 100 == 0 then 1 else 0;
    }
  }

  /** Adding whole 400-year eras leaves the remainders the leap-year rule
      looks at unchanged. */
  lemma AddEras(era: int, t: int)
    ensures (era * 400 + t) % 4 == t % 4
    ensures (era * 400 + t) % 100 == t % 100
    ensures (era * 400 + t) % 400 == t % 400
  {
    var x := era * 400 + t;
    assert x / 4 == era * 100 + t / 4;
    assert x / 100 == era * 4 + t / 100;
    assert x / 400 == era + t / 400;
  }

  function DayNumber(d: CivilDate): int {
    DaysFromCivil(d.year, d.month + 1, d.day)
  }

  /** `getDay()`: 0 for Sunday .. 6 for Saturday; 1970-01-01 was a Thursday. */
  function Weekday(dayNumber: int): (w: int)
    ensures 0 <= w < 7
  {
    (dayNumber + 4) % 7
  }

  /** 1970-01-01 was a Thursday. */
  lemma EpochIsThursday()
    ensures DayNumber(CivilDate(1970, 0, 1)) == 0
    ensures Weekday(DayNumber(CivilDate(1970, 0, 1))) == 4
  {
  }

  /** 2000 was a leap year (divisible by 400) and 29 February 2000 was a Tuesday. */
  lemma LeapDay2000()
    ensures DaysInMonth(2000, 1) == 29
    ensures Weekday(DayNumber(CivilDate(2000, 1, 29))) == 2
  {
  }

  /** 1900 was not a leap year; 1 March 1900 was a Thursday. */
  lemma Century1900()
    ensures DaysInMonth(1900, 1) == 28
    ensures Weekday(DayNumber(CivilDate(1900, 2, 1))) == 4
  {
  }

  // ---------------------------------------------------------------------------
  // Date keys

  /** `String(n).padStart(2, '0')`. */
  function Pad2(n: nat): (r: string)
    ensures n < 100 ==> |r| == 2 && Text.AllDigits(r) && Text.ParseDecimal(r) == n
  {
    Pad2Facts(n);
    if n < 10 then "0" + Text.Decimal(n) else Text.Decimal(n)
  }

  lemma Pad2Facts(n: nat)
    ensures var r := if n < 10 then "0" + Text.Decimal(n) else Text.Decimal(n);
      n < 100 ==> |r| == 2 && Text.AllDigits(r) && Text.ParseDecimal(r) == n
  {
    Text.DecimalRoundTrip(n);
    if n < 10 {
      var r := "0" + Text.Decimal(n);
      assert r[..1] == "0";
      assert Text.ParseDecimal(r[..1]) == 0 by {
        assert r[..1][..0] == [];
      }
    } else if n < 100 {
      assert |Text.Decimal(n / 10)| == 1;
    }
  }

  /** `${year}-${pad(month + 1)}-${pad(day)}`. */
  function DateKey(d: CivilDate): string
    requires d.day >= 0
  {
    Text.IntToString(d.year) + "-" + Pad2(d.month + 1) + "-" + Pad2(d.day)
  }

  /** A calendar date of year 0 or later whose day fits two digits. */
  predicate KeyableDate(d: CivilDate) {
    d.year >= 0 && 0 <= d.day < 100
  }

  /** Reads the year, month and day back out of a key. */
  function ParseDateKey(key: string): Option<CivilDate> {
    if |key| < 7 then None
    else
      var y := key[..|key| - 6];
      var m := key[|key| - 5..|key| - 3];
      var d := key[|key| - 2..];
      ParseParts(y, m, d)
  }

  lemma DateKeyRoundTrip(d: CivilDate)
    requires KeyableDate(d)
    ensures ParseDateKey(DateKey(d)) == Some(d)
  {
    var ys := Text.Decimal(d.year);
    var ms := Pad2(d.month + 1);
    var ds := Pad2(d.day);
    assert DateKey(d) == ys + "-" + ms + "-" + ds;
    ParseSplice(ys, ms, ds);
    Text.DecimalRoundTrip(d.year);
  }

  /** The parser cuts a key back into the three fields it was joined from. */
  lemma ParseSplice(ys: string, ms: string, ds: string)
    requires |ys| >= 1 && |ms| == 2 && |ds| == 2
    ensures ParseDateKey(ys + "-" + ms + "-" + ds) == ParseParts(ys, ms, ds)
  {
    var key := ys + "-" + ms + "-" + ds;
    assert key[..|key| - 6] == ys;
    assert key[|key| - 5..|key| - 3] == ms;
    assert key[|key| - 2..] == ds;
  }

  /** What the parser makes of a key's three digit fields. */
  function ParseParts(ys: string, ms: string, ds: string): Option<CivilDate> {
    if Text.AllDigits(ys) && Text.AllDigits(ms) && Text.AllDigits(ds)
       && 1 <= Text.ParseDecimal(ms) <= 12
    then Some(CivilDate(Text.ParseDecimal(ys), Text.ParseDecimal(ms) - 1, Text.ParseDecimal(ds)))
    else None
  }

  /** Different dates have different keys. */
  lemma DateKeyInjective(a: CivilDate, b: CivilDate)
    requires KeyableDate(a) && KeyableDate(b) && DateKey(a) == DateKey(b)
    ensures a == b
  {
    DateKeyRoundTrip(a);
    DateKeyRoundTrip(b);
  }

  /** `hasJournal`: some journal entry's local date formats to `key`. */
  predicate HasJournal(entries: seq<CivilDate>, key: string)
    requires forall k :: 0 <= k < |entries| ==> entries[k].day >= 0
  {
    exists k :: 0 <= k < |entries| && DateKey(entries[k]) == key
  }

  /** For ordinary dates, a cell has a journal exactly when an entry falls on its date. */
  lemma HasJournalIffSameDate(entries: seq<CivilDate>, d: CivilDate)
    requires forall k :: 0 <= k < |entries| ==> entries[k].year >= 0 && 0 <= entries[k].day < 100
    requires KeyableDate(d)
    ensures HasJournal(entries, DateKey(d)) <==> exists k :: 0 <= k < |entries| && entries[k] == d
  {
    if HasJournal(entries, DateKey(d)) {
      var k :| 0 <= k < |entries| && DateKey(entries[k]) == DateKey(d);
      assert KeyableDate(entries[k]);
      DateKeyInjective(entries[k], d);
    }
  }

  // ---------------------------------------------------------------------------
  // The grid

  datatype Cell =
    | Blank
    | DayCell(day: int, key: string, hasJournal: bool, hasChat: bool,
              isToday: bool, isPast: bool, isFuture: bool)

  /** Milliseconds since the epoch of the midnight starting `d`. */
  function MidnightOf(d: CivilDate): int {
    DayNumber(d) * MsPerDay
  }

  function InstantMs(t: Instant): int {
    MidnightOf(t.date) + t.msOfDay
  }

  /** `firstDay.getDay()`: the number of blank cells before day 1. */
  function LeadingBlanks(view: YearMonth): int {
    Weekday(DaysFromCivil(view.year, view.month + 1, 1))
  }

  /** The cell for day `i` of the viewed month. */
  function DayCellFor(view: YearMonth, i: int, entries: seq<CivilDate>, chatDays: set<string>, today: Instant): Cell
    requires i >= 1
    requires forall k :: 0 <= k < |entries| ==> entries[k].day >= 0
  {
    var date := CivilDate(view.year, view.month, i);
    var key := DateKey(date);
    DayCell(i, key, HasJournal(entries, key), key in chatDays,
            date == today.date, MidnightOf(date) < InstantMs(today), MidnightOf(date) > InstantMs(today))
  }

  /** `renderCalendar()`; missing journal entries or chat days count as none. */
  function RenderCalendar(view: YearMonth, journalEntries: Option<seq<CivilDate>>,
                          chatDays: Option<set<string>>, today: Instant): (cells: seq<Cell>)
    requires journalEntries.Some? ==> forall k :: 0 <= k < |journalEntries.value| ==> journalEntries.value[k].day >= 0
    ensures var lead := LeadingBlanks(view);
      var n := DaysInMonth(view.year, view.month);
      && 0 <= lead < 7
      && |cells| == lead + n
      && (forall p :: 0 <= p < lead ==> cells[p].Blank?)
      && (forall p :: lead <= p < |cells| ==> cells[p].DayCell? && cells[p].day == p - lead + 1)
  {
    var entries := journalEntries.GetOr([]);
    var chats := chatDays.GetOr({});
    var lead := LeadingBlanks(view);
    var n := DaysInMonth(view.year, view.month);
    var days := DayCells(view, n, entries, chats, today);
    GridShape(lead, days);
    seq(lead, p => Blank) + days
  }

  /** The cells for days 1 to `n` of the viewed month, in order. */
  function DayCells(view: YearMonth, n: nat, entries: seq<CivilDate>, chatDays: set<string>, today: Instant): (days: seq<Cell>)
    requires forall k :: 0 <= k < |entries| ==> entries[k].day >= 0
    ensures |days| == n
    ensures forall p :: 0 <= p < n ==> days[p].DayCell? && days[p].day == p + 1
  {
    seq(n, p requires 0 <= p < n => DayCellFor(view, p + 1, entries, chatDays, today))
  }

  /** `lead` blanks followed by the day cells. */
  lemma GridShape(lead: nat, days: seq<Cell>)
    requires forall p :: 0 <= p < |days| ==> days[p].DayCell? && days[p].day == p + 1
    ensures var cells := seq(lead, p => Blank) + days;
      && |cells| == lead + |days|
      && (forall p :: 0 <= p < lead ==> cells[p].Blank?)
      && (forall p :: lead <= p < |cells| ==> cells[p].DayCell? && cells[p].day == p - lead + 1)
  {
    var cells := seq(lead, p => Blank) + days;
    assert forall p :: lead <= p < |cells| ==> cells[p] == days[p - lead];
  }

  /** Each day cell sits in the column of its weekday (Sunday first). */
  lemma DayCellsUnderTheirWeekday(view: YearMonth, i: int)
    requires 1 <= i <= DaysInMonth(view.year, view.month)
    ensures (LeadingBlanks(view) + i - 1) % 7 == Weekday(DayNumber(CivilDate(view.year, view.month, i)))
  {
    var first := MonthStart(view.year, view.month + 1);
    assert DayNumber(CivilDate(view.year, view.month, i)) == first + i - 1;
    ModShift(first + 4, i - 1);
  }

  lemma ModShift(a: int, b: int)
    ensures (a % 7 + b) % 7 == (a + b) % 7
  {
    var q := a / 7;
    assert a == 7 * q + a % 7;
    assert a + b == 7 * q + (a % 7 + b);
  }

  /** A cell is never both past and future; today's cell is future never, and
      past exactly when the clock is later than midnight. */
  lemma CellFlags(view: YearMonth, i: int, entries: seq<CivilDate>, chatDays: set<string>, today: Instant)
    requires i >= 1
    requires forall k :: 0 <= k < |entries| ==> entries[k].day >= 0
    ensures var c := DayCellFor(view, i, entries, chatDays, today);
      && !(c.isPast && c.isFuture)
      && (c.isToday ==> !c.isFuture && (c.isPast <==> today.msOfDay > 0))
      && (c.isFuture <==> DayNumber(CivilDate(view.year, view.month, i)) > DayNumber(today.date))
      && (c.hasChat <==> DateKey(CivilDate(view.year, view.month, i)) in chatDays)
  {
    var date := CivilDate(view.year, view.month, i);
    var a := DayNumber(date);
    var b := DayNumber(today.date);
    if a > b {
      assert a * MsPerDay >= b * MsPerDay + MsPerDay;
    } else {
      assert a * MsPerDay <= b * MsPerDay;
    }
  }
}
