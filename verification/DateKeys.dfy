/** Date keys and week navigation of the history strip (src/components/history/HistoryWeekStrip.tsx),
on civil dates. */
module DateKeys {
  import opened Wrappers
  import opened Strings
  import opened StableSort
  import opened CivilDates

  // ---------------------------------------------------------------- keys

  /** String(n).padStart(2, '0'). */
  function Pad2(n: nat): string {
    if |Decimal(n)| < 2 then "0" + Decimal(n) else Decimal(n)
  }

  function Numeral(n: int): string {
    if n < 0 then "-" + Decimal(-n) else Decimal(n)
  }

  function FormatDateKey(d: Date): string
    requires Valid(d)
  {
    Numeral(d.year) + "-" + Pad2(d.month) + "-" + Pad2(d.day)
  }

  /** A part that is missing or is not a number makes an invalid Date. */
  function ParseDateKey(key: string): Option<Date> {
    var parts := Split(key, '-');
    if |parts| < 3 then None
    else
      var year, month, day := NumberOf(parts[0]), NumberOf(parts[1]), NumberOf(parts[2]);
      if year.None? || month.None? || day.None? then None
      else Some(NewDate(year.value, month.value, day.value))
  }

  lemma Pad2Digits(n: nat)
    requires n < 100
    ensures Pad2(n) == [Digit(n / 10), Digit(n % 10)]
    ensures NumberOf(Pad2(n)) == Some(n)
  {
    if n >= 10 { assert Decimal(n / 10) == [Digit(n / 10)]; }
    var s := Pad2(n);
    assert s[..1] == [s[0]] && s[..1][..0] == [];
    assert NumberOf(s[..1]) == Some(n / 10);
  }

  lemma KeyParts(d: Date)
    requires Valid(d) && d.year >= 0
    ensures Split(FormatDateKey(d), '-') == [Decimal(d.year), Pad2(d.month), Pad2(d.day)]
  {
    var y, m, dd := Decimal(d.year), Pad2(d.month), Pad2(d.day);
    assert d.day <= 31;
    Pad2Digits(d.month);
    Pad2Digits(d.day);
    assert FormatDateKey(d) == y + ['-'] + (m + ['-'] + dd);
    SplitFirst(y, '-', m + ['-'] + dd);
    SplitFirst(m, '-', dd);
    SplitNone(dd, '-');
  }

  lemma KeyNumbers(d: Date)
    requires Valid(d) && d.year >= 0
    ensures ParseDateKey(FormatDateKey(d)) == Some(NewDate(d.year, d.month, d.day))
  {
    hide Pad2, FormatDateKey, NewDate;
    KeyParts(d);
    NumberOfDecimal(d.year);
    assert d.day <= 31;
    Pad2Digits(d.month);
    Pad2Digits(d.day);
  }

  lemma NewDateOfValid(d: Date)
    requires Valid(d) && d.year >= 100
    ensures NewDate(d.year, d.month, d.day) == d
  {
    hide FromDayNumber;
    assert (d.month - 1) / 12 == 0 && (d.month - 1) % 12 + 1 == d.month;
    FromDayNumberOf(d);
  }

  /** Parsing undoes formatting exactly for the years from 100 on: a two-digit year is read as
      one of the 1900s, and the sign of a negative year as a separator. */
  lemma ParseUndoesFormatExactly(d: Date)
    requires Valid(d)
    ensures ParseDateKey(FormatDateKey(d)) == Some(d) <==> d.year >= 100
  {
    hide Pad2, FormatDateKey, NewDate, Leap;
    if d.year >= 0 {
      KeyNumbers(d);
      if d.year >= 100 { NewDateOfValid(d); } else { TwoDigitYear(d.year, d.month, d.day); }
    } else {
      NegativeYearKey(d);
      var parts := Split(FormatDateKey(d), '-');
      assert NumberOf(parts[0]) == Some(0);
      if ParseDateKey(FormatDateKey(d)).Some? {
        TwoDigitYear(0, NumberOf(parts[1]).value, NumberOf(parts[2]).value);
      }
    }
  }

  lemma NegativeYearKey(d: Date)
    requires Valid(d) && d.year < 0
    ensures |Split(FormatDateKey(d), '-')| > 0 && Split(FormatDateKey(d), '-')[0] == ""
  {
    var rest := Decimal(-d.year) + "-" + Pad2(d.month) + "-" + Pad2(d.day);
    assert FormatDateKey(d) == "" + ['-'] + rest;
    SplitFirst("", '-', rest);
  }

  lemma TwoDigitYear(year: nat, month: nat, day: nat)
    requires year < 100
    ensures NewDate(year, month, day).year >= 1898
  {
    hide Leap, FromDayNumber, DayNumber;
    var y := 1900 + year + (month - 1) / 12;
    var n := DayFromYear(y) + DaysBefore((month - 1) % 12 + 1, Leap(y)) + day - 1;
    YearsApart(1899, y);
    YearsApart(1898, 1899);
    if YearOf(n) < 1898 { YearsApart(YearOf(n) + 1, 1898); }
  }

  /** The part of a key after the year. */
  function MonthAndDay(d: Date): (r: string)
    requires Valid(d)
    ensures |r| > 0 && r[0] == '-'
  {
    "-" + Pad2(d.month) + "-" + Pad2(d.day)
  }

  lemma KeyIsYearAndRest(d: Date)
    requires Valid(d)
    ensures FormatDateKey(d) == Numeral(d.year) + MonthAndDay(d)
  {
    assert Numeral(d.year) + ("-" + Pad2(d.month) + "-" + Pad2(d.day)) == FormatDateKey(d);
  }

  lemma MonthAndDayOrder(a: Date, b: Date)
    requires Valid(a) && Valid(b) && a.year == b.year
    ensures LexLess(MonthAndDay(a), MonthAndDay(b)) <==> DayNumber(a) < DayNumber(b)
  {
    hide Pad2, LexLess;
    assert a.day <= 31 && b.day <= 31;
    Pad2Digits(a.month);
    Pad2Digits(b.month);
    var ma, mb := "-" + Pad2(a.month), "-" + Pad2(b.month);
    var da, db := "-" + Pad2(a.day), "-" + Pad2(b.day);
    assert MonthAndDay(a) == ma + da && MonthAndDay(b) == mb + db;
    LexConcat(ma, mb, da, db);
    DashPad2Order(a.month, b.month);
    DashPad2Order(a.day, b.day);
    DayNumberOrder(a, b);
  }

  lemma {:induction false} DigitsMonotone(m: nat, n: nat)
    requires m <= n
    ensures |Decimal(m)| <= |Decimal(n)|
  {
    if m >= 10 { DigitsMonotone(m / 10, n / 10); }
  }

  /** Keys of an earlier year y and a later year z sort by year: the later one does not begin with
      digits below those of the earlier; before year 0 the digits count the other way. */
  predicate InStep(y: int, z: int)
    requires y <= z
  {
    if y >= 0 then
      DigitsMonotone(y, z);
      !LexLess(Decimal(z)[..|Decimal(y)|], Decimal(y))
    else if z >= 0 || y == z then true
    else
      DigitsMonotone(-z, -y);
      LexLess(Decimal(-y)[..|Decimal(-z)|], Decimal(-z))
  }

  /** A numeral against one with as many digits or more, with the rest of the keys behind. */
  lemma NumeralsWithRest(m: nat, n: nat, ra: string, rb: string)
    requires m <= n && ra != [] && rb != [] && ra[0] == '-' == rb[0]
    ensures |Decimal(m)| <= |Decimal(n)|
    ensures var h := Decimal(n)[..|Decimal(m)|];
            && (LexLess(Decimal(m) + ra, Decimal(n) + rb)
                <==> LexLess(Decimal(m), h) || (Decimal(m) == h && (m < n || LexLess(ra, rb))))
            && (LexLess(Decimal(n) + rb, Decimal(m) + ra)
                <==> LexLess(h, Decimal(m)) || (m == n && LexLess(rb, ra)))
  {
    hide Decimal, LexLess;
    DigitsMonotone(m, n);
    var k := |Decimal(m)|;
    var h, t := Decimal(n)[..k], Decimal(n)[k..];
    assert Decimal(n) == h + t;
    assert Decimal(n) + rb == h + (t + rb);
    LexConcat(Decimal(m), h, ra, t + rb);
    LexConcat(h, Decimal(m), t + rb, ra);
    if m == n {
      assert h == Decimal(m) && t + rb == rb;
    } else if Decimal(m) == h {
      if t == [] { DecimalInjective(m, n); }
      assert t[0] in Decimal(n);
      assert (t + rb)[0] == t[0];
      LexFirst(ra, t + rb);
    } else {
      LexTotal(h, Decimal(m));
    }
  }

  lemma LexFirst(a: string, b: string)
    requires a != [] && b != [] && a[0] < b[0]
    ensures LexLess(a, b) && !LexLess(b, a)
  {
  }

  /** The key of an earlier date sorts before that of a later one if and only if the years are in
      step, whatever the years. */
  lemma KeyOrderExactly(a: Date, b: Date)
    requires Valid(a) && Valid(b) && DayNumber(a) < DayNumber(b)
    ensures a.year <= b.year
    ensures LexLess(FormatDateKey(a), FormatDateKey(b)) <==> InStep(a.year, b.year)
  {
    hide FormatDateKey, MonthAndDay, DayNumber;
    DayNumberOrder(a, b);
    KeyIsYearAndRest(a);
    KeyIsYearAndRest(b);
    var ra, rb := MonthAndDay(a), MonthAndDay(b);
    if a.year == b.year { MonthAndDayOrder(a, b); }
    if a.year >= 0 {
      NumeralsWithRest(a.year, b.year, ra, rb);
      LexTotal(Decimal(a.year), Decimal(b.year)[..|Decimal(a.year)|]);
    } else if b.year < 0 {
      BelowZero(a.year, b.year, ra, rb);
    } else {
      assert (Numeral(a.year) + ra)[0] == '-';
      assert Decimal(b.year)[0] in Decimal(b.year);
      assert (Numeral(b.year) + rb)[0] == Decimal(b.year)[0];
    }
  }

  lemma BelowZero(y: int, z: int, ra: string, rb: string)
    requires y <= z < 0 && ra != [] && rb != [] && ra[0] == '-' == rb[0]
    requires y == z ==> LexLess(ra, rb)
    ensures LexLess(Numeral(y) + ra, Numeral(z) + rb) <==> InStep(y, z)
  {
    hide Decimal, LexLess;
    assert Numeral(y) + ra == "-" + (Decimal(-y) + ra) && Numeral(z) + rb == "-" + (Decimal(-z) + rb);
    LexTotal("-", "-");
    LexTotal(ra, rb);
    LexConcat("-", "-", Decimal(-y) + ra, Decimal(-z) + rb);
    NumeralsWithRest(-z, -y, rb, ra);
  }

  /** So keys of years with equally many digits compare as the calendar does. */
  lemma KeyOrder(a: Date, b: Date)
    requires Valid(a) && Valid(b) && a.year >= 0 && b.year >= 0
    requires |Decimal(a.year)| == |Decimal(b.year)|
    ensures LexLess(FormatDateKey(a), FormatDateKey(b)) <==> DayNumber(a) < DayNumber(b)
  {
    hide FormatDateKey, DayNumber, LexLess;
    DayNumberOrder(a, b);
    LexTotal(FormatDateKey(a), FormatDateKey(b));
    if DayNumber(a) < DayNumber(b) {
      KeyOrderExactly(a, b);
      SameLengthInStep(a.year, b.year);
    } else if DayNumber(b) < DayNumber(a) {
      KeyOrderExactly(b, a);
      SameLengthInStep(b.year, a.year);
    }
  }

  lemma SameLengthInStep(y: nat, z: nat)
    requires y <= z && |Decimal(y)| == |Decimal(z)|
    ensures InStep(y, z)
  {
    assert Decimal(z)[..|Decimal(y)|] == Decimal(z);
    DecimalOrder(z, y);
  }

  lemma DashPad2Order(m: nat, n: nat)
    requires m < 100 && n < 100
    ensures LexLess("-" + Pad2(m), "-" + Pad2(n)) <==> m < n
    ensures "-" + Pad2(m) == "-" + Pad2(n) <==> m == n
  {
    Pad2Digits(m);
    Pad2Digits(n);
    var a, b := "-" + Pad2(m), "-" + Pad2(n);
    assert a == ['-', Digit(m / 10), Digit(m % 10)] && b == ['-', Digit(n / 10), Digit(n % 10)];
    assert a[1..] == [Digit(m / 10), Digit(m % 10)] && b[1..] == [Digit(n / 10), Digit(n % 10)];
    assert a[1..][1..] == [Digit(m % 10)] && b[1..][1..] == [Digit(n % 10)];
    assert a[1..][1..][1..] == [] && b[1..][1..][1..] == [];
  }

  predicate FourDigits(d: Date) {
    Valid(d) && 1000 <= d.year <= 9999
  }

  /** For the years 1000 to 9999 string order of the keys is calendar order. */
  lemma FourDigitKeyOrder(a: Date, b: Date)
    requires FourDigits(a) && FourDigits(b)
    ensures LexLess(FormatDateKey(a), FormatDateKey(b)) <==> DayNumber(a) < DayNumber(b)
    ensures FormatDateKey(a) == FormatDateKey(b) <==> a == b
  {
    FourDigitNumeral(a.year);
    FourDigitNumeral(b.year);
    KeyOrder(a, b);
    KeyOrder(b, a);
    LexTotal(FormatDateKey(a), FormatDateKey(b));
    DayNumberOrder(a, b);
  }

  lemma FourDigitNumeral(n: nat)
    requires 1000 <= n <= 9999
    ensures |Decimal(n)| == 4
  {
    assert |Decimal(n / 1000)| == 1;
    assert n / 100 / 10 == n / 1000 && n / 10 / 10 == n / 100;
    assert |Decimal(n / 100)| == 2;
    assert |Decimal(n / 10)| == 3;
  }

  /** Before that it need not be: every date of the years 101 to 999 sorts after all of the
      year 1000. */
  lemma ShortYearsSortWrong(a: Date, b: Date)
    requires Valid(a) && Valid(b) && 100 < a.year <= 999 && b.year == 1000
    ensures DayNumber(a) < DayNumber(b) && LexLess(FormatDateKey(b), FormatDateKey(a))
  {
    hide FormatDateKey, DayNumber;
    DayNumberOrder(a, b);
    KeyOrderExactly(a, b);
    ThreeDigits(a.year);
    ThreeDigits(100);
    DecimalOrder(100, a.year);
    assert Decimal(1000)[..3] == Decimal(100);
    LexTotal(FormatDateKey(a), FormatDateKey(b));
    if FormatDateKey(a) == FormatDateKey(b) {
      KeyParts(a);
      KeyParts(b);
    }
  }

  lemma ThreeDigits(n: nat)
    requires 100 <= n <= 999
    ensures |Decimal(n)| == 3
  {
    assert |Decimal(n / 100)| == 1;
    assert n / 10 / 10 == n / 100;
    assert |Decimal(n / 10)| == 2;
  }

  // ---------------------------------------------------------------- weeks

  function GetWeekStart(d: Date): (r: Date)
    requires Valid(d)
    ensures Valid(r)
  {
    var day := WeekDay(d);
    var diff := if day == 0 then -6 else 1 - day;
    SetDate(d, d.day + diff)
  }

  function GetWeekDays(weekStart: Date): (days: seq<Date>)
    requires Valid(weekStart)
    ensures |days| == 7
  {
    seq(7, i requires 0 <= i < 7 => SetDate(weekStart, weekStart.day + i))
  }

  lemma WeekDayNumbers(weekStart: Date)
    requires Valid(weekStart)
    ensures forall i :: 0 <= i < 7 ==>
              && Valid(GetWeekDays(weekStart)[i])
              && DayNumber(GetWeekDays(weekStart)[i]) == DayNumber(weekStart) + i
  {
    hide DayNumber, SetDate, Valid;
    var days := GetWeekDays(weekStart);
    forall i | 0 <= i < 7 ensures Valid(days[i]) && DayNumber(days[i]) == DayNumber(weekStart) + i {
      assert days[i] == SetDate(weekStart, weekStart.day + i);
    }
  }

  /** The week start is a Monday, it is its own week start, and its seven days contain the date
      exactly once, whatever months, years or leap days lie in between. */
  lemma WeekContainsDateOnce(d: Date)
    requires Valid(d)
    ensures var monday := GetWeekStart(d);
            && WeekDay(monday) == 1
            && GetWeekStart(monday) == monday
            && exists i ::
                 && 0 <= i < 7
                 && GetWeekDays(monday)[i] == d
                 && forall j :: 0 <= j < 7 && GetWeekDays(monday)[j] == d ==> j == i
  {
    hide DayNumber, SetDate, GetWeekDays;
    var monday := GetWeekStart(d);
    var days := GetWeekDays(monday);
    WeekDayNumbers(monday);
    DayNumberOrder(GetWeekStart(monday), monday);
    var i := DayNumber(d) - DayNumber(monday);
    assert 0 <= i < 7;
    DayNumberOrder(days[i], d);
    assert days[i] == d;
    assert forall j :: 0 <= j < 7 && days[j] == d ==> DayNumber(days[j]) == DayNumber(monday) + j;
  }

  /** Dates share a week start exactly when they lie in the same Monday-to-Sunday week. */
  lemma SameWeekExactly(a: Date, b: Date)
    requires Valid(a) && Valid(b)
    ensures GetWeekStart(a) == GetWeekStart(b)
            <==> DayNumber(GetWeekStart(a)) <= DayNumber(b) < DayNumber(GetWeekStart(a)) + 7
  {
    hide DayNumber, FromDayNumber;
    DayNumberOrder(GetWeekStart(a), GetWeekStart(b));
  }

  /** The largest number of changes on a visible day: none exceeds it, and it is attained
      unless no day has any. */
  method MaxChangesInWeek(weekDays: seq<Date>, totals: map<string, nat>) returns (max: nat)
    requires forall d :: d in weekDays ==> Valid(d)
    ensures forall d :: d in weekDays && FormatDateKey(d) in totals ==> totals[FormatDateKey(d)] <= max
    ensures max > 0 ==> exists d :: d in weekDays && FormatDateKey(d) in totals && totals[FormatDateKey(d)] == max
  {
    hide FormatDateKey;
    max := 0;
    var i := 0;
    while i < |weekDays|
      invariant i <= |weekDays|
      invariant forall j :: 0 <= j < i && FormatDateKey(weekDays[j]) in totals ==>
                  totals[FormatDateKey(weekDays[j])] <= max
      invariant max > 0 ==>
                  exists j :: 0 <= j < i && FormatDateKey(weekDays[j]) in totals
                           && totals[FormatDateKey(weekDays[j])] == max
    {
      var dateKey := FormatDateKey(weekDays[i]);
      if dateKey in totals && totals[dateKey] > max {
        max := totals[dateKey];
      }
      i := i + 1;
    }
  }

  // ---------------------------------------------------------------- moving to changed days

  predicate NotBefore(a: string, b: string) { a == b || LexLess(b, a) }

  lemma LexWeakOrder()
    ensures WeakOrder(LexLess)
  {
    forall a, b | LexLess(a, b) ensures !LexLess(b, a) { LexTotal(a, b); }
    forall a, b, c | LexLess(a, c) ensures LexLess(a, b) || LexLess(b, c) {
      LexTotal(a, b);
      LexTotal(b, c);
      if LexLess(b, a) { LexTransitive(b, a, c); }
    }
  }

  /** The first key in string order that is greater than start (or also equal to it). */
  ghost predicate IsNext(keys: seq<string>, start: string, orEqual: bool, r: Option<string>) {
    match r
    case None => forall k :: k in keys ==> !(LexLess(start, k) || (orEqual && k == start))
    case Some(n) =>
      && n in keys && (LexLess(start, n) || (orEqual && n == start))
      && forall k :: k in keys && (LexLess(start, k) || (orEqual && k == start)) ==> NotBefore(k, n)
  }

  /** The last key in string order that is less than start. */
  ghost predicate IsPrevious(keys: seq<string>, start: string, r: Option<string>) {
    match r
    case None => forall k :: k in keys ==> !LexLess(k, start)
    case Some(p) => p in keys && LexLess(p, start) && forall k :: k in keys && LexLess(k, start) ==> NotBefore(p, k)
  }

  method FindForward(keys: seq<string>, start: string, orEqual: bool) returns (r: Option<string>)
    ensures IsNext(keys, start, orEqual, r)
  {
    hide Sort, LexLess, WeakOrder;
    var sorted := Sort(keys, LexLess);
    LexWeakOrder();
    SortSorted(keys, LexLess);
    SameMembers(keys, sorted);
    var i := 0;
    while i < |sorted|
      invariant i <= |sorted|
      invariant forall j :: 0 <= j < i ==> !(LexLess(start, sorted[j]) || (orEqual && sorted[j] == start))
    {
      if LexLess(start, sorted[i]) || (orEqual && sorted[i] == start) {
        forall k | k in keys && (LexLess(start, k) || (orEqual && k == start)) ensures NotBefore(k, sorted[i]) {
          var j :| 0 <= j < |sorted| && sorted[j] == k;
          LexTotal(sorted[i], k);
        }
        return Some(sorted[i]);
      }
      i := i + 1;
    }
    r := None;
  }

  method FindBackward(keys: seq<string>, start: string) returns (r: Option<string>)
    ensures IsPrevious(keys, start, r)
  {
    hide Sort, LexLess, WeakOrder;
    var sorted := Sort(keys, LexLess);
    LexWeakOrder();
    SortSorted(keys, LexLess);
    SameMembers(keys, sorted);
    var i := |sorted|;
    while i > 0
      invariant 0 <= i <= |sorted|
      invariant forall j :: i <= j < |sorted| ==> !LexLess(sorted[j], start)
    {
      i := i - 1;
      if LexLess(sorted[i], start) {
        forall k | k in keys && LexLess(k, start) ensures NotBefore(sorted[i], k) {
          var j :| 0 <= j < |sorted| && sorted[j] == k;
          LexTotal(sorted[i], k);
        }
        return Some(sorted[i]);
      }
    }
    r := None;
  }

  lemma SameMembers(xs: seq<string>, ys: seq<string>)
    requires multiset(xs) == multiset(ys)
    ensures forall x :: x in xs <==> x in ys
  {
    forall x ensures x in xs <==> x in ys {
      assert x in xs <==> x in multiset(xs);
      assert x in ys <==> x in multiset(ys);
    }
  }

  /** formatDateKey of a Date that may be invalid. */
  function DateKey(d: Option<Date>): string
    requires d.Some? ==> Valid(d.value)
  {
    if d.Some? then FormatDateKey(d.value) else "NaN-NaN-NaN"
  }

  /** findDayWithChanges(date, 'forward'), and backward; None is an invalid Date. */
  method FindDayWithChanges(keys: seq<string>, startDate: Option<Date>, forward: bool) returns (r: Option<string>)
    requires startDate.Some? ==> Valid(startDate.value)
    ensures forward ==> IsNext(keys, DateKey(startDate), false, r)
    ensures !forward ==> IsPrevious(keys, DateKey(startDate), r)
  {
    if forward {
      r := FindForward(keys, DateKey(startDate), false);
    } else {
      r := FindBackward(keys, DateKey(startDate));
    }
  }

  /** On changed days, next-day and previous-day undo each other, in both orders. */
  lemma DayMovesUndoEachOther(keys: seq<string>, k: string, n: string)
    requires k in keys && n in keys
    ensures IsNext(keys, k, false, Some(n)) <==> IsPrevious(keys, n, Some(k))
  {
    forall x ensures !(LexLess(k, x) && LexLess(x, k)) && !(LexLess(n, x) && LexLess(x, n))
             ensures x == k || LexLess(x, k) || LexLess(k, x)
             ensures x == n || LexLess(x, n) || LexLess(n, x)
    {
      LexTotal(k, x);
      LexTotal(n, x);
    }
  }

  lemma ParsedIsValid(key: string)
    ensures ParseDateKey(key).Some? ==> Valid(ParseDateKey(key).value)
  {
  }

  /** From the selected key a button goes to r: through the parsed date and its key again. */
  ghost predicate Goes(keys: seq<string>, selected: string, forward: bool, r: Option<string>) {
    ParsedIsValid(selected);
    if forward then IsNext(keys, DateKey(ParseDateKey(selected)), false, r)
    else IsPrevious(keys, DateKey(ParseDateKey(selected)), r)
  }

  /** Where goToNextDay and goToPreviousDay go, from the selected key or from today; None is no
      move. */
  method GoToDay(keys: seq<string>, selected: Option<string>, today: Date, forward: bool) returns (r: Option<string>)
    requires Valid(today)
    ensures selected.Some? ==> Goes(keys, selected.value, forward, r)
    ensures selected.None? && forward ==> IsNext(keys, FormatDateKey(today), false, r)
    ensures selected.None? && !forward ==> IsPrevious(keys, FormatDateKey(today), r)
  {
    hide FormatDateKey, ParseDateKey, Valid, IsNext, IsPrevious;
    if selected.Some? { ParsedIsValid(selected.value); }
    var currentDate := if selected.Some? then ParseDateKey(selected.value) else Some(today);
    r := FindDayWithChanges(keys, currentDate, forward);
  }

  lemma PreviousUnique(keys: seq<string>, start: string, r: Option<string>, q: Option<string>)
    requires IsPrevious(keys, start, r) && IsPrevious(keys, start, q)
    ensures r == q
  {
    if r.Some? && q.Some? { LexTotal(r.value, q.value); }
  }

  lemma NextUnique(keys: seq<string>, start: string, r: Option<string>, q: Option<string>)
    requires IsNext(keys, start, false, r) && IsNext(keys, start, false, q)
    ensures r == q
  {
    if r.Some? && q.Some? { LexTotal(r.value, q.value); }
  }

  /** From a changed day of the year 100 or later, the one button and then the other lead back to
      it, whatever changed days there are. */
  lemma DayButtonsUndoEachOther(keys: seq<string>, d: Date, e: Date, forward: bool, r: Option<string>)
    requires Valid(d) && Valid(e) && d.year >= 100 && e.year >= 100
    ensures FormatDateKey(d) in keys
            && Goes(keys, FormatDateKey(d), forward, Some(FormatDateKey(e)))
            && Goes(keys, FormatDateKey(e), !forward, r)
            ==> r == Some(FormatDateKey(d))
  {
    hide FormatDateKey, ParseDateKey, LexLess;
    var k, n := FormatDateKey(d), FormatDateKey(e);
    if k in keys && Goes(keys, k, forward, Some(n)) && Goes(keys, n, !forward, r) {
      ParseUndoesFormatExactly(d);
      ParseUndoesFormatExactly(e);
      if forward {
        DayMovesUndoEachOther(keys, k, n);
        PreviousUnique(keys, n, r, Some(k));
      } else {
        DayMovesUndoEachOther(keys, n, k);
        NextUnique(keys, n, r, Some(k));
      }
    }
  }

  /** findWeekWithChanges: forward it looks from the Monday after the displayed week, backward
      before the displayed Monday. */
  method FindWeekWithChanges(keys: seq<string>, currentWeekStart: Date, forward: bool) returns (r: Option<string>)
    requires Valid(currentWeekStart)
    ensures forward ==>
              IsNext(keys, FormatDateKey(SetDate(currentWeekStart, currentWeekStart.day + 7)), true, r)
    ensures !forward ==> IsPrevious(keys, FormatDateKey(currentWeekStart), r)
  {
    hide FormatDateKey, SetDate, Valid, LexLess;
    var offset := if forward then 7 else -7;
    var targetWeekStart := SetDate(currentWeekStart, currentWeekStart.day + offset);
    if forward {
      r := FindForward(keys, FormatDateKey(targetWeekStart), true);
    } else {
      r := FindBackward(keys, FormatDateKey(currentWeekStart));
    }
  }

  ghost predicate ChangedDays(keys: seq<string>, changed: set<Date>) {
    && (forall d :: d in changed ==> FourDigits(d) && FormatDateKey(d) in keys)
    && (forall k :: k in keys ==> exists d :: d in changed && FormatDateKey(d) == k)
  }

  /** r is the key of the first changed day with a number from `first` on, or None without one. */
  ghost predicate FirstChanged(changed: set<Date>, first: int, r: Option<string>)
    requires forall d :: d in changed ==> Valid(d)
  {
    && (r == None <==> forall c :: c in changed ==> DayNumber(c) < first)
    && (r.Some? ==>
          exists d :: d in changed && FormatDateKey(d) == r.value && first <= DayNumber(d)
                   && forall c :: c in changed && first <= DayNumber(c) ==> DayNumber(d) <= DayNumber(c))
  }

  /** r is the key of the last changed day with a number below `end`, or None without one. */
  ghost predicate LastChanged(changed: set<Date>, end: int, r: Option<string>)
    requires forall d :: d in changed ==> Valid(d)
  {
    && (r == None <==> forall c :: c in changed ==> end <= DayNumber(c))
    && (r.Some? ==>
          exists d :: d in changed && FormatDateKey(d) == r.value && DayNumber(d) < end
                   && forall c :: c in changed && DayNumber(c) < end ==> DayNumber(c) <= DayNumber(d))
  }

  /** A week move forward shows a later week, and no changed day lies after the displayed week
      and before the day it goes to; with no such day anywhere it does not move. */
  lemma WeekForwardSkipsNothing(keys: seq<string>, changed: set<Date>, monday: Date, r: Option<string>)
    requires ChangedDays(keys, changed) && FourDigits(monday) && FourDigits(SetDate(monday, monday.day + 7))
    ensures IsNext(keys, FormatDateKey(SetDate(monday, monday.day + 7)), true, r)
            ==> FirstChanged(changed, DayNumber(monday) + 7, r)
  {
    hide DayNumber, SetDate, FormatDateKey, LexLess;
    var target := SetDate(monday, monday.day + 7);
    forall a, b | a in changed && b in changed + {target}
      ensures LexLess(FormatDateKey(b), FormatDateKey(a)) <==> DayNumber(b) < DayNumber(a)
      ensures FormatDateKey(a) == FormatDateKey(b) <==> a == b
    {
      FourDigitKeyOrder(b, a);
    }
    forall c | c in changed && DayNumber(c) == DayNumber(target) ensures c == target { DayNumberOrder(c, target); }
    if r.Some? && IsNext(keys, FormatDateKey(target), true, r) {
      var d :| d in changed && FormatDateKey(d) == r.value;
      forall c | c in changed && DayNumber(monday) + 7 <= DayNumber(c) ensures DayNumber(d) <= DayNumber(c) {
        assert NotBefore(FormatDateKey(c), FormatDateKey(d));
      }
    }
  }

  lemma WeekBackwardSkipsNothing(keys: seq<string>, changed: set<Date>, monday: Date, r: Option<string>)
    requires ChangedDays(keys, changed) && FourDigits(monday)
    ensures IsPrevious(keys, FormatDateKey(monday), r) ==> LastChanged(changed, DayNumber(monday), r)
  {
    hide DayNumber, FormatDateKey, LexLess;
    forall a, b | a in changed && b in changed + {monday}
      ensures LexLess(FormatDateKey(a), FormatDateKey(b)) <==> DayNumber(a) < DayNumber(b)
      ensures FormatDateKey(a) == FormatDateKey(b) <==> a == b
    {
      FourDigitKeyOrder(a, b);
    }
    if r.Some? && IsPrevious(keys, FormatDateKey(monday), r) {
      var d :| d in changed && FormatDateKey(d) == r.value;
      forall c | c in changed && DayNumber(c) < DayNumber(monday) ensures DayNumber(c) <= DayNumber(d) {
        assert NotBefore(FormatDateKey(d), FormatDateKey(c));
      }
    }
  }
}
