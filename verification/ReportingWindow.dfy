/**
 * Which months of COUNTER metrics can be reported on (`Sushi.first_month_available`,
 * `Sushi.last_month_available`), and how a request's begin and end dates are coerced and checked.
 */
module ReportingWindow {
  import opened Prelude
  import opened Text
  import opened Calendar

  datatype Error =
    | UsageNotReady
    | UsageNoLongerAvailable
    | InvalidDateArgument
    | InsufficientInformation
    | NoMethodError

  // ---------- the window ----------

  function Earliest(metrics: seq<Date>): (a: Date)
    requires metrics != []
    ensures a in metrics && forall x | x in metrics :: NotAfter(a, x)
  {
    if |metrics| == 1 then metrics[0]
    else
      var a := Earliest(metrics[1..]);
      assert metrics == [metrics[0]] + metrics[1..];
      if Calendar.Before(metrics[0], a) then metrics[0] else a
  }

  function Latest(metrics: seq<Date>): (a: Date)
    requires metrics != []
    ensures a in metrics && forall x | x in metrics :: NotAfter(x, a)
  {
    if |metrics| == 1 then metrics[0]
    else
      var a := Latest(metrics[1..]);
      assert metrics == [metrics[0]] + metrics[1..];
      if Calendar.Before(a, metrics[0]) then metrics[0] else a
  }

  function FirstMonthAvailable(metrics: seq<Date>, current: Date): Result<Date, Error> {
    if metrics == [] then Err(UsageNotReady)
    else
      var first := BeginningOfMonth(Earliest(metrics));
      if first == BeginningOfMonth(current) then Err(UsageNotReady) else Ok(first)
  }

  function LastMonthAvailable(metrics: seq<Date>, current: Date): Result<Date, Error> {
    var first := FirstMonthAvailable(metrics, current);
    if first.Err? then first
    else
      var latest := EndOfMonth(Latest(metrics));
      var endOfLastMonth := EndOfMonth(MonthAgo(current));
      Ok(if Calendar.Before(latest, endOfLastMonth) then latest else endOfLastMonth)
  }

  predicate RealDates(metrics: seq<Date>) {
    forall x | x in metrics :: RealDate(x)
  }

  /** Both functions succeed, or both raise. */
  lemma WindowTogether(metrics: seq<Date>, current: Date)
    ensures FirstMonthAvailable(metrics, current).Ok? <==> LastMonthAvailable(metrics, current).Ok?
    ensures FirstMonthAvailable(metrics, current).Err? ==>
              FirstMonthAvailable(metrics, current) == LastMonthAvailable(metrics, current) == Err(UsageNotReady)
  {
  }

  /**
   * They do so together, by whether some metric is of a month that is over; and the window is then made of whole months and holds exactly
   * the metrics of the months that are over.
   */
  lemma WindowIsWholeMonths(metrics: seq<Date>, current: Date)
    requires RealDates(metrics) && RealDate(current) && forall x | x in metrics :: NotAfter(x, current)
    ensures var first, last := FirstMonthAvailable(metrics, current), LastMonthAvailable(metrics, current);
            && (first.Ok? <==> last.Ok?)
            && (first.Ok? <==> exists x :: x in metrics && Calendar.Before(x, BeginningOfMonth(current)))
            && (first.Err? ==> first == last == Err(UsageNotReady))
            && (first.Ok? ==> IsWindow(metrics, current, first.value, last.value))
  {
    WindowTogether(metrics, current);
    if metrics != [] {
      EndOfLastMonth(current);
      var earliest, latest := Earliest(metrics), Latest(metrics);
      assert NotAfter(earliest, latest) && RealDate(latest) && RealDate(earliest);
    }
  }

  predicate IsWindow(metrics: seq<Date>, current: Date, first: Date, last: Date) {
    && RealDate(first) && RealDate(last)
    && first == BeginningOfMonth(first) && last == EndOfMonth(last)
    && NotAfter(first, last) && Calendar.Before(last, BeginningOfMonth(current))
    && forall x | x in metrics :: NotAfter(first, x) && NotAfter(x, last) <==> Calendar.Before(x, BeginningOfMonth(current))
  }

  /** The last day is the earlier of the latest entry's month end and the day before the current month. */
  lemma LastIsMinimum(metrics: seq<Date>, current: Date, x: Date)
    requires RealDates(metrics) && RealDate(current) && LastMonthAvailable(metrics, current).Ok? && RealDate(x)
    ensures NotAfter(x, LastMonthAvailable(metrics, current).value) <==>
            NotAfter(x, EndOfMonth(Latest(metrics))) && Calendar.Before(x, BeginningOfMonth(current))
  {
    EndOfLastMonth(current);
    assert RealDate(Latest(metrics));
  }

  /** The window is in order exactly when some metric predates the current month: future-dated data breaks it. */
  lemma WindowOrderedExactly(metrics: seq<Date>, current: Date)
    requires RealDates(metrics) && RealDate(current) && FirstMonthAvailable(metrics, current).Ok?
    ensures NotAfter(FirstMonthAvailable(metrics, current).value, LastMonthAvailable(metrics, current).value) <==>
            Calendar.Before(Earliest(metrics), BeginningOfMonth(current))
  {
    EndOfLastMonth(current);
    var earliest, latest := Earliest(metrics), Latest(metrics);
    assert NotAfter(earliest, latest) && RealDate(latest) && RealDate(earliest);
  }

  /** Metrics of March, asked for in January: the window starts in March and ends in December. */
  lemma FutureWindowOutOfOrder()
    ensures var metrics, current := [Date(2024, 3, 10)], Date(2024, 1, 15);
            && FirstMonthAvailable(metrics, current) == Ok(Date(2024, 3, 1))
            && LastMonthAvailable(metrics, current) == Ok(Date(2023, 12, 31))
  {
  }

  // ---------- date texts ----------

  predicate MonthText(s: string) {
    |s| == 7 && AllDigits(s[..4]) && s[4] == '-' && AllDigits(s[5..])
  }

  predicate DayText(s: string) {
    |s| == 10 && MonthText(s[..7]) && s[7] == '-' && AllDigits(s[8..])
  }

  predicate DateText(s: string) {
    MonthText(s) || DayText(s)
  }

  function YearOf(s: string): int
    requires DateText(s)
  {
    assert AllDigits(s[..4]) by { assert |s| == 10 ==> s[..7][..4] == s[..4]; }
    Value(s[..4], 10)
  }

  function MonthOf(s: string): int
    requires DateText(s)
  {
    assert AllDigits(s[5..7]) by { assert s[..7][5..] == s[5..7]; assert |s| == 7 ==> s[..7] == s; }
    Value(s[5..7], 10)
  }

  /** `to_date`, and failing that the first of the month that the text names. */
  function CoerceToDate(s: string): Result<Date, Error>
    requires DateText(s)
  {
    if DayText(s) && RealDate(Date(YearOf(s), MonthOf(s), Value(s[8..], 10))) then
      Ok(Date(YearOf(s), MonthOf(s), Value(s[8..], 10)))
    else if 1 <= MonthOf(s) <= 12 then Ok(Date(YearOf(s), MonthOf(s), 1))
    else Err(InvalidDateArgument)
  }

  /** The dates among the first `n` that `validate_date_format` remarks on before it meets one it rejects. */
  function AmendedUpTo(dates: seq<string>, n: nat): seq<string>
    requires n <= |dates|
  {
    if n == 0 then []
    else AmendedUpTo(dates, n - 1) +
         (if (forall i | 0 <= i < n :: DateText(dates[i])) && DayText(dates[n - 1]) then [dates[n - 1]] else [])
  }

  function Amended(dates: seq<string>): seq<string> {
    AmendedUpTo(dates, |dates|)
  }

  lemma {:induction false} NothingAmendedAfter(dates: seq<string>, i: nat, n: nat)
    requires i < n <= |dates| && !DateText(dates[i])
    ensures AmendedUpTo(dates, n) == AmendedUpTo(dates, i)
  {
    hide DateText, DayText;
    if n > i + 1 {
      NothingAmendedAfter(dates, i, n - 1);
    }
  }

  /** Which dates are remarked on: those in the long form that no malformed date precedes; of two, in order. */
  lemma {:induction false} AmendedMeans(dates: seq<string>, n: nat, d: string)
    requires n <= |dates|
    ensures d in AmendedUpTo(dates, n) <==>
            exists i :: 0 <= i < n && dates[i] == d && DayText(d) && forall j | 0 <= j <= i :: DateText(dates[j])
  {
    hide DayText, DateText;
    if n > 0 {
      AmendedMeans(dates, n - 1, d);
      if DayText(dates[n - 1]) {
        LongFormIsDate(dates[n - 1]);
      }
    }
  }

  lemma LongFormIsDate(s: string)
    ensures DayText(s) ==> DateText(s)
  {
  }

  lemma AmendedOfTwo(a: string, b: string)
    ensures Amended([a, b]) == if !DateText(a) then [] else (if DayText(a) then [a] else []) + (if DayText(b) then [b] else [])
  {
    hide DayText, DateText;
    var dates := [a, b];
    LongFormIsDate(a);
    LongFormIsDate(b);
    assert dates[0] == a && dates[1] == b;
    assert AmendedUpTo(dates, 0) == [];
    assert AmendedUpTo(dates, 1) == if DayText(a) then [a] else [];
  }

  // ---------- coercion of a request ----------

  /** What a coercion did: how it ended, and which of the two dates it assigned on the way. */
  datatype Coercion = Coercion(error: Option<Error>, begin: Option<Date>, end: Option<Date>)

  function Coerce(begin: Option<string>, end: Option<string>, metrics: seq<Date>): Coercion {
    if begin.None? || end.None? then Coercion(Some(InsufficientInformation), None, None)
    else if !DateText(begin.value) || !DateText(end.value) then Coercion(Some(InvalidDateArgument), None, None)
    else
      var b, e := CoerceToDate(begin.value), CoerceToDate(end.value);
      if b.Err? then Coercion(Some(b.error), None, None)
      else
        var first := BeginningOfMonth(b.value);
        if e.Err? then Coercion(Some(e.error), Some(first), None)
        else
          var last := EndOfMonth(e.value);
          Coercion(Check(first, last, metrics), Some(first), Some(last))
  }

  function Check(first: Date, last: Date, metrics: seq<Date>): Option<Error> {
    if Calendar.Before(last, first) then Some(InvalidDateArgument)
    else if metrics == [] then Some(NoMethodError)
    else if Calendar.Before(first, Earliest(metrics)) then Some(UsageNoLongerAvailable)
    else if Calendar.Before(Latest(metrics), last) then Some(UsageNotReady)
    else None
  }

  /** The module-level `Sushi.info`. */
  class Sushi {
    var info: seq<string>

    method ValidateDateFormat(dates: seq<string>) returns (error: Option<Error>)
      modifies this
      ensures error == if forall i | 0 <= i < |dates| :: DateText(dates[i]) then None else Some(InvalidDateArgument)
      ensures info == old(info) + Amended(dates)
    {
      hide DateText, DayText;
      var i := 0;
      while i < |dates|
        invariant 0 <= i <= |dates|
        invariant forall j | 0 <= j < i :: DateText(dates[j])
        invariant info == old(info) + AmendedUpTo(dates, i)
      {
        if !DateText(dates[i]) {
          NothingAmendedAfter(dates, i, |dates|);
          return Some(InvalidDateArgument);
        }
        if DayText(dates[i]) {
          info := info + [dates[i]];
        }
        i := i + 1;
      }
      return None;
    }
  }

  class DateCoercion {
    const sushi: Sushi
    var beginDate: Option<Date>
    var endDate: Option<Date>

    constructor (sushi: Sushi)
      ensures this.sushi == sushi && beginDate == None && endDate == None
    {
      this.sushi, beginDate, endDate := sushi, None, None;
    }

    method CoerceDates(begin: Option<string>, end: Option<string>, metrics: seq<Date>) returns (error: Option<Error>)
      modifies this, sushi
      ensures var c := Coerce(begin, end, metrics);
              && error == c.error
              && beginDate == (if c.begin.Some? then c.begin else old(beginDate))
              && endDate == (if c.end.Some? then c.end else old(endDate))
      ensures sushi.info == old(sushi.info) +
                if begin.Some? && end.Some? then Amended([begin.value, end.value]) else []
    {
      if begin.None? {
        return Some(InsufficientInformation);
      }
      if end.None? {
        return Some(InsufficientInformation);
      }
      error := sushi.ValidateDateFormat([begin.value, end.value]);
      assert DateText([begin.value, end.value][0]) == DateText(begin.value);
      assert DateText([begin.value, end.value][1]) == DateText(end.value);
      if error.Some? {
        return;
      }
      var b := CoerceToDate(begin.value);
      if b.Err? {
        return Some(b.error);
      }
      beginDate := Some(BeginningOfMonth(b.value));
      var e := CoerceToDate(end.value);
      if e.Err? {
        return Some(e.error);
      }
      endDate := Some(EndOfMonth(e.value));
      if Calendar.Before(endDate.value, beginDate.value) {
        return Some(InvalidDateArgument);
      }
      if metrics == [] {
        return Some(NoMethodError);
      }
      if Calendar.Before(beginDate.value, Earliest(metrics)) {
        return Some(UsageNoLongerAvailable);
      }
      if Calendar.Before(Latest(metrics), endDate.value) {
        return Some(UsageNotReady);
      }
      return None;
    }
  }

  /** A date text of the month of `a`. */
  predicate NamesMonth(s: string, a: Date) {
    DateText(s) && YearOf(s) == a.y && MonthOf(s) == a.m
  }

  /** The accepted requests: both texts name months, in order, between the earliest and the latest entry. */
  lemma AcceptedExactly(begin: string, end: string, metrics: seq<Date>)
    requires metrics != []
    ensures Coerce(Some(begin), Some(end), metrics).error == None <==>
            && DateText(begin) && 1 <= MonthOf(begin) <= 12
            && DateText(end) && 1 <= MonthOf(end) <= 12
            && var first := Date(YearOf(begin), MonthOf(begin), 1);
               var last := EndOfMonth(Date(YearOf(end), MonthOf(end), 1));
               NotAfter(Earliest(metrics), first) && NotAfter(first, last) && NotAfter(last, Latest(metrics))
  {
  }

  /** An accepted request runs from the first of a month to the last of a month, within the data. */
  lemma AcceptedRange(begin: string, end: string, metrics: seq<Date>)
    requires metrics != [] && Coerce(Some(begin), Some(end), metrics).error == None
    ensures var c := Coerce(Some(begin), Some(end), metrics);
            && c.begin.Some? && c.end.Some? && RealDate(c.begin.value) && RealDate(c.end.value)
            && c.begin.value.d == 1 && NamesMonth(begin, c.begin.value)
            && c.end.value.d == DaysInMonth(c.end.value.y, c.end.value.m) && NamesMonth(end, c.end.value)
            && NotAfter(Earliest(metrics), c.begin.value) && NotAfter(c.begin.value, c.end.value)
            && NotAfter(c.end.value, Latest(metrics))
  {
  }

  /** The same year and month in the long or the short form, even with a day that month does not have. */
  predicate SameMonthText(s: string, t: string) {
    DateText(s) && DateText(t) && s[..7] == t[..7]
  }

  lemma SameMonthTextAgrees(s: string, t: string)
    requires SameMonthText(s, t)
    ensures YearOf(s) == YearOf(t) && MonthOf(s) == MonthOf(t)
  {
    assert s[..4] == s[..7][..4] && t[..4] == t[..7][..4];
    assert s[5..7] == s[..7][5..] && t[5..7] == t[..7][5..];
  }

  /** Only the year and month of the two texts matter: `YYYY-MM` and `YYYY-MM-DD` coerce alike. */
  lemma DayDoesNotMatter(begin: string, begin': string, end: string, end': string, metrics: seq<Date>)
    requires SameMonthText(begin, begin') && SameMonthText(end, end')
    ensures Coerce(Some(begin), Some(end), metrics) == Coerce(Some(begin'), Some(end'), metrics)
  {
    SameMonthTextAgrees(begin, begin');
    SameMonthTextAgrees(end, end');
  }

  /**
   * The advertised window itself is accepted exactly when the earliest entry falls on the first of its
   * month and the latest entry reaches the window's last day: the request is checked against raw entries.
   */
  lemma AdvertisedWindowAcceptedExactly(metrics: seq<Date>, current: Date, begin: string, end: string)
    requires RealDates(metrics) && RealDate(current) && FirstMonthAvailable(metrics, current).Ok?
    requires forall x | x in metrics :: NotAfter(x, current)
    requires NamesMonth(begin, FirstMonthAvailable(metrics, current).value)
    requires NamesMonth(end, LastMonthAvailable(metrics, current).value)
    ensures Coerce(Some(begin), Some(end), metrics).error == None <==>
            Earliest(metrics).d == 1 && NotAfter(LastMonthAvailable(metrics, current).value, Latest(metrics))
  {
    WindowIsWholeMonths(metrics, current);
    AcceptedExactly(begin, end, metrics);
    var first, last := FirstMonthAvailable(metrics, current).value, LastMonthAvailable(metrics, current).value;
    assert first == Date(YearOf(begin), MonthOf(begin), 1);
    assert last == EndOfMonth(Date(YearOf(end), MonthOf(end), 1));
    assert RealDate(Earliest(metrics));
  }

  /** With data from 10 May to 20 June the advertised months are May and June, and asking for them is refused. */
  lemma AdvertisedWindowRefused(begin: string, end: string)
    requires NamesMonth(begin, Date(2023, 5, 1)) && NamesMonth(end, Date(2023, 6, 1))
    ensures var metrics, current := [Date(2023, 5, 10), Date(2023, 6, 20)], Date(2023, 8, 1);
            && FirstMonthAvailable(metrics, current) == Ok(Date(2023, 5, 1))
            && LastMonthAvailable(metrics, current) == Ok(Date(2023, 6, 30))
            && Coerce(Some(begin), Some(end), metrics).error == Some(UsageNoLongerAvailable)
  {
    hide YearOf, MonthOf, DateText;
    var metrics := [Date(2023, 5, 10), Date(2023, 6, 20)];
    assert metrics[0] == Date(2023, 5, 10) && metrics[1] == Date(2023, 6, 20);
    assert Earliest(metrics) == Date(2023, 5, 10) && Latest(metrics) == Date(2023, 6, 20);
    MonthFirst(begin);
    MonthFirst(end);
  }

  lemma MonthFirst(s: string)
    requires DateText(s) && 1 <= MonthOf(s) <= 12
    ensures CoerceToDate(s).Ok? && BeginningOfMonth(CoerceToDate(s).value) == Date(YearOf(s), MonthOf(s), 1)
    ensures EndOfMonth(CoerceToDate(s).value) == EndOfMonth(Date(YearOf(s), MonthOf(s), 1))
  {
  }

  // ---------- requests by their months ----------

  /** `n` in decimal, with zeros in front to make `width` characters. */
  function ZeroPadded(n: nat, width: nat): string {
    var ds := Decimal(n);
    if |ds| < width then seq(width - |ds|, _ => '0') + ds else ds
  }

  /** `YYYY-MM` */
  function MonthSpelled(y: nat, m: nat): string {
    ZeroPadded(y, 4) + "-" + ZeroPadded(m, 2)
  }

  /** The text names the month, alone or with any two digits for a day. */
  ghost predicate SpellsMonth(s: string, y: nat, m: nat) {
    s == MonthSpelled(y, m) || exists day :: |day| == 2 && AllDigits(day) && s == MonthSpelled(y, m) + "-" + day
  }

  lemma {:induction false} DecimalWidth(n: nat, width: nat, bound: nat)
    requires n < bound && (width, bound) in {(1, 10), (2, 100), (3, 1000), (4, 10000)}
    ensures |Decimal(n)| <= width
  {
    if n >= 10 {
      DecimalWidth(n / 10, width - 1, bound / 10);
    }
  }

  lemma ZeroPaddedSpells(n: nat, width: nat)
    requires |Decimal(n)| <= width
    ensures |ZeroPadded(n, width)| == width && AllDigits(ZeroPadded(n, width)) && Value(ZeroPadded(n, width), 10) == n
  {
    var ds := Decimal(n);
    DecimalSpells(n);
    if |ds| < width {
      LeadingZeros(seq(width - |ds|, _ => '0'), ds);
    }
  }

  /** Such a text is read as that year and month. */
  lemma SpelledMonthIsRead(s: string, y: nat, m: nat)
    requires y < 10000 && m < 100 && SpellsMonth(s, y, m)
    ensures DateText(s) && YearOf(s) == y && MonthOf(s) == m
  {
    DecimalWidth(y, 4, 10000);
    DecimalWidth(m, 2, 100);
    ZeroPaddedSpells(y, 4);
    ZeroPaddedSpells(m, 2);
    hide ZeroPadded, Value;
    var t := MonthSpelled(y, m);
    assert t[..4] == ZeroPadded(y, 4) && t[5..] == ZeroPadded(m, 2) && t[4] == '-';
    if s != t {
      var day :| |day| == 2 && AllDigits(day) && s == t + "-" + day;
      assert s[..7] == t && s[8..] == day;
    } else {
      assert s[..7] == t;
    }
    assert s[..4] == s[..7][..4] && s[5..7] == s[..7][5..];
  }

  /** A month alone is read as its first day. */
  lemma MonthIsReadAsFirst(y: nat, m: nat)
    requires y < 10000 && 1 <= m <= 12
    ensures DateText(MonthSpelled(y, m)) && CoerceToDate(MonthSpelled(y, m)) == Ok(Date(y, m, 1))
  {
    DecimalWidth(y, 4, 10000);
    DecimalWidth(m, 2, 100);
    ZeroPaddedSpells(y, 4);
    ZeroPaddedSpells(m, 2);
    SpelledMonthIsRead(MonthSpelled(y, m), y, m);
    hide ZeroPadded, Value, YearOf, MonthOf;
  }

  /** A real date in full is read as that date. */
  lemma RealDayIsRead(y: nat, m: nat, d: nat)
    requires y < 10000 && RealDate(Date(y, m, d))
    ensures var s := MonthSpelled(y, m) + "-" + ZeroPadded(d, 2); DateText(s) && CoerceToDate(s) == Ok(Date(y, m, d))
  {
    DecimalWidth(y, 4, 10000);
    DecimalWidth(m, 2, 100);
    DecimalWidth(d, 2, 100);
    ZeroPaddedSpells(y, 4);
    ZeroPaddedSpells(m, 2);
    ZeroPaddedSpells(d, 2);
    var s := MonthSpelled(y, m) + "-" + ZeroPadded(d, 2);
    SpelledMonthIsRead(s, y, m);
    assert s[8..] == ZeroPadded(d, 2) && s[..7] == MonthSpelled(y, m);
    hide ZeroPadded, Value, YearOf, MonthOf;
  }

  /**
   * What a request for two months does: it assigns the first of the one and the last of the other, and is
   * refused when they are out of order, when there is no data, when the data starts later, or when it ends
   * earlier, in that order.
   */
  lemma RequestedMonths(begin: string, y: nat, m: nat, end: string, y': nat, m': nat, metrics: seq<Date>)
    requires y < 10000 && 1 <= m <= 12 && SpellsMonth(begin, y, m)
    requires y' < 10000 && 1 <= m' <= 12 && SpellsMonth(end, y', m')
    ensures var first, last := Date(y, m, 1), Date(y', m', DaysInMonth(y', m'));
            Coerce(Some(begin), Some(end), metrics) ==
            Coercion(if y' < y || (y' == y && m' < m) then Some(InvalidDateArgument)
                     else if metrics == [] then Some(NoMethodError)
                     else if forall x | x in metrics :: Calendar.Before(first, x) then Some(UsageNoLongerAvailable)
                     else if forall x | x in metrics :: Calendar.Before(x, last) then Some(UsageNotReady)
                     else None,
                     Some(first), Some(last))
  {
    SpelledMonthIsRead(begin, y, m);
    SpelledMonthIsRead(end, y', m');
    hide YearOf, MonthOf, DateText, SpellsMonth;
    MonthFirst(begin);
    MonthFirst(end);
    if metrics != [] {
      var earliest, latest := Earliest(metrics), Latest(metrics);
      assert earliest in metrics && latest in metrics;
    }
  }

  /** What is refused before that: a missing date, a text in neither form, and a month that no year has. */
  lemma RefusedTexts(begin: Option<string>, end: Option<string>, metrics: seq<Date>)
    ensures begin.None? || end.None? ==> Coerce(begin, end, metrics) == Coercion(Some(InsufficientInformation), None, None)
    ensures begin.Some? && end.Some? && !(DateText(begin.value) && DateText(end.value)) ==>
              Coerce(begin, end, metrics) == Coercion(Some(InvalidDateArgument), None, None)
    ensures forall y: nat, m: nat | begin.Some? && end.Some? && DateText(end.value) && SpellsMonth(begin.value, y, m)
                                    && y < 10000 && m < 100 && !(1 <= m <= 12) ::
              Coerce(begin, end, metrics) == Coercion(Some(InvalidDateArgument), None, None)
  {
    forall y: nat, m: nat | begin.Some? && end.Some? && DateText(end.value) && SpellsMonth(begin.value, y, m)
                            && y < 10000 && m < 100 && !(1 <= m <= 12)
      ensures Coerce(begin, end, metrics) == Coercion(Some(InvalidDateArgument), None, None)
    {
      SpelledMonthIsRead(begin.value, y, m);
    }
  }

  lemma {:induction false} ValueWidth(ds: string, bound: nat)
    requires AllDigits(ds) && (|ds|, bound) in {(1, 10), (2, 100), (3, 1000), (4, 10000)}
    ensures Value(ds, 10) < bound
  {
    if |ds| > 1 {
      ValueWidth(ds[..|ds| - 1], bound / 10);
    } else {
      assert ds[..0] == "";
    }
  }

  lemma ReadIsZeroPadded(ds: string, bound: nat)
    requires AllDigits(ds) && (|ds|, bound) in {(2, 100), (4, 10000)}
    ensures ZeroPadded(Value(ds, 10), |ds|) == ds && Value(ds, 10) < bound
  {
    var n := Value(ds, 10);
    ValueWidth(ds, bound);
    DecimalWidth(n, |ds|, bound);
    ZeroPaddedSpells(n, |ds|);
    DigitOrder(ZeroPadded(n, |ds|), ds);
  }

  lemma SpellsWhatIsRead(s: string)
    requires DateText(s)
    ensures 0 <= YearOf(s) < 10000 && 0 <= MonthOf(s) < 100 && SpellsMonth(s, YearOf(s), MonthOf(s))
  {
    var t := s[..7];
    assert |s| == 7 ==> t == s;
    assert t[..4] == s[..4] && t[5..] == s[5..7] && t[4] == s[4];
    ReadIsZeroPadded(s[..4], 10000);
    ReadIsZeroPadded(s[5..7], 100);
    hide ZeroPadded, Value;
    assert t == t[..4] + "-" + t[5..];
    if |s| == 10 {
      assert s == t + "-" + s[8..];
    }
  }

  /** The texts that are dates at all: exactly those that name a month of some year, be it the thirteenth. */
  lemma DateTextsSpellMonths(s: string)
    ensures DateText(s) <==> exists y: nat, m: nat :: y < 10000 && m < 100 && SpellsMonth(s, y, m)
  {
    if DateText(s) {
      SpellsWhatIsRead(s);
    }
    forall y: nat, m: nat | y < 10000 && m < 100 && SpellsMonth(s, y, m) ensures DateText(s) {
      SpelledMonthIsRead(s, y, m);
    }
  }
}
