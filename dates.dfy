/** Ceremony dates in the long English form "March 27, 2022", read the way
    datetime.strptime(x, "%B %d, %Y") reads them in the C locale. */
module Dates {
  import opened Wrappers
  import opened Text
  import opened Digits

  datatype Date = Date(year: int, month: int, day: int)

  const MonthNames: seq<string> := [
    "January", "February", "March", "April", "May", "June",
    "July", "August", "September", "October", "November", "December"
  ]

  predicate IsLeapYear(y: int) {
    y % 4 == 0 && (y % 100 != 0 || y % 400 == 0)
  }

  function DaysInMonth(year: int, month: int): (n: int)
    requires 1 <= month <= 12
    ensures 28 <= n <= 31
  {
    if month == 2 then (if IsLeapYear(year) then 29 else 28)
    else if month == 4 || month == 6 || month == 9 || month == 11 then 30
    else 31
  }

  /** The dates Python's datetime can represent. */
  predicate ValidDate(d: Date) {
    1 <= d.year <= 9999 && 1 <= d.month <= 12 && 1 <= d.day <= DaysInMonth(d.year, d.month)
  }

  /** Whether `s` starts with the name of month `m`, ignoring case. */
  predicate StartsWithMonth(s: string, m: int)
    requires 1 <= m <= 12
  {
    var name := MonthNames[m - 1];
    |name| <= |s| && EqualsIgnoreCase(s[..|name|], name)
  }

  /** %B: the first month, from `m` on, whose name starts `s`. */
  function MatchMonth(s: string, m: int): (r: Option<int>)
    requires 1 <= m <= 13
    ensures r.Some? ==> m <= r.value <= 12 && StartsWithMonth(s, r.value)
    ensures r.None? ==> forall k :: m <= k <= 12 ==> !StartsWithMonth(s, k)
    decreases 13 - m
  {
    if m == 13 then None
    else if StartsWithMonth(s, m) then Some(m)
    else MatchMonth(s, m + 1)
  }

  /** The length of the run of whitespace that starts `s` (what `\s+` consumes). */
  function LeadingSpaces(s: string): (k: nat)
    ensures k <= |s| && AllSpace(s[..k]) && (k == |s| || !IsSpace(s[k]))
    decreases |s|
  {
    if s != [] && IsSpace(s[0]) then
      var k := 1 + LeadingSpaces(s[1..]);
      assert s[..k] == [s[0]] + s[1..][..k - 1];
      k
    else 0
  }

  /** %d followed by ",": two digits 01-31, or else one digit 1-9; yields the day
      the digits read denote and the number of characters they span. */
  function ParseDay(u: string): (r: Option<(int, nat)>)
    ensures r.Some? ==> 1 <= r.value.0 <= 31 && 1 <= r.value.1 <= 2 && r.value.1 <= |u|
    ensures r.Some? ==> AllDigits(u[..r.value.1]) && r.value.0 == Value(u[..r.value.1])
  {
    if |u| >= 2 && IsDigit(u[0]) && IsDigit(u[1]) then
      var v := DigitValue(u[0]) * 10 + DigitValue(u[1]);
      assert Value(u[..2]) == v by {
        assert u[..2][..1] == u[..1] && u[..1][..0] == [];
      }
      if 1 <= v <= 31 then Some((v, 2)) else None
    else if |u| >= 1 && '1' <= u[0] <= '9' then
      assert u[..1][..0] == [];
      Some((DigitValue(u[0]), 1))
    else None
  }

  /** "%Y" and the end of the string: exactly four digits, a year datetime accepts,
      on which the day exists in the month. */
  function ParseYear(w: string, month: int, day: int): (r: Result<Date>)
    requires 1 <= month <= 12
    ensures r.Ok? <==> |w| == 4 && AllDigits(w) && 1 <= Value(w) && 1 <= day <= DaysInMonth(Value(w), month)
    ensures r.Ok? ==> ValidDate(r.value) && AllDigits(w) && r.value == Date(Value(w), month, day)
    ensures r.Err? ==> r.error == ValueError
  {
    if |w| != 4 || !AllDigits(w) then Err(ValueError)
    else
      var year := Value(w);
      if year < 1 || day < 1 || day > DaysInMonth(year, month) then Err(ValueError)
      else Ok(Date(year, month, day))
  }

  /** What follows the day: ",", "\s+", then the year. */
  function ParseAfterDay(v: string, month: int, day: int): (r: Result<Date>)
    requires 1 <= month <= 12
    ensures r.Ok? ==> ValidDate(r.value) && r.value.month == month && r.value.day == day
    ensures r.Err? ==> r.error == ValueError
  {
    if v == [] || v[0] != ',' then Err(ValueError)
    else
      var k := LeadingSpaces(v[1..]);
      if k == 0 then Err(ValueError) else ParseYear(v[1..][k..], month, day)
  }

  /** What follows the month name: "\s+", "%d", then the rest after the day. */
  function ParseAfterMonth(t: string, month: int): (r: Result<Date>)
    requires 1 <= month <= 12
    ensures r.Ok? ==> ValidDate(r.value) && r.value.month == month
    ensures r.Err? ==> r.error == ValueError
  {
    var k := LeadingSpaces(t);
    match ParseDay(t[k..])
    case None => Err(ValueError)
    case Some((day, n)) =>
      if k == 0 then Err(ValueError) else ParseAfterDay(t[k..][n..], month, day)
  }

  /** datetime.strptime(s, "%B %d, %Y"): a month name, at least one whitespace, the
      day, a comma, at least one whitespace, exactly four digits, nothing after; the
      resulting date must exist. Any other string raises ValueError. */
  function ParseLongDate(s: string): (r: Result<Date>)
    ensures r.Ok? ==> ValidDate(r.value)
    ensures r.Err? ==> r.error == ValueError
  {
    match MatchMonth(s, 1)
    case None => Err(ValueError)
    case Some(month) => ParseAfterMonth(s[|MonthNames[month - 1]|..], month)
  }

  /** The canonical long form of a date: "March 27, 2022", "May 5, 0999". */
  function FormatLongDate(d: Date): string
    requires ValidDate(d)
  {
    MonthNames[d.month - 1] + " " + ShowNat(d.day as nat) + ", " + ShowPadded(d.year as nat, 4)
  }

  /** No month name is, ignoring case, a prefix of a string starting with another
      month's name: they differ in their first three letters. */
  lemma MonthNamesDiffer(a: int, b: int)
    requires 1 <= a <= 12 && 1 <= b <= 12 && a != b
    ensures |MonthNames[a - 1]| >= 3 && |MonthNames[b - 1]| >= 3
    ensures !(Lower(MonthNames[a - 1][0]) == Lower(MonthNames[b - 1][0])
              && Lower(MonthNames[a - 1][1]) == Lower(MonthNames[b - 1][1])
              && Lower(MonthNames[a - 1][2]) == Lower(MonthNames[b - 1][2]))
  {
  }

  /** A string that starts with a month's name, ignoring case, selects that month. */
  lemma {:induction false} MatchMonthFinds(s: string, m: int, from: int)
    requires 1 <= from <= m <= 12 && StartsWithMonth(s, m)
    ensures MatchMonth(s, from) == Some(m)
    decreases m - from
  {
    if from < m {
      var name := MonthNames[m - 1];
      MonthNamesDiffer(from, m);
      assert s[..|name|][0] == s[0] && s[..|name|][1] == s[1] && s[..|name|][2] == s[2];
      assert Lower(s[0]) == Lower(name[0]) && Lower(s[1]) == Lower(name[1]) && Lower(s[2]) == Lower(name[2]);
      assert !StartsWithMonth(s, from);
      MatchMonthFinds(s, m, from + 1);
    }
  }

  /** The text `%d` reads for `day`: one or two decimal digits that denote it. */
  predicate DayDigits(dd: string, day: int) {
    (|dd| == 1 || |dd| == 2) && AllDigits(dd) && Value(dd) == day
  }

  /** The text `,\s+%Y` reads for `year`, comma aside: a run of whitespace, then the
      year's four digits. */
  predicate YearFields(b: string, yy: string, year: int) {
    b != [] && AllSpace(b) && |yy| == 4 && AllDigits(yy) && Value(yy) == year
  }

  /** The pieces of what follows the month name as `\s+%d,\s+%Y` reads them for `d`:
      a run of whitespace, the day's digits, (the comma,) a run of whitespace and the
      year's four digits. */
  predicate AfterMonthFields(a: string, dd: string, b: string, yy: string, d: Date) {
    a != [] && AllSpace(a) && DayDigits(dd, d.day) && YearFields(b, yy, d.year)
  }

  /** `s` writes `d` in the long form: its month's name in any case, whitespace, the
      day, a comma, whitespace and the four-digit year, and nothing else. */
  ghost predicate LongForm(s: string, d: Date) {
    && 1 <= d.month <= 12
    && exists name, a, dd, b, yy ::
         && s == name + a + dd + "," + b + yy
         && EqualsIgnoreCase(name, MonthNames[d.month - 1])
         && AfterMonthFields(a, dd, b, yy, d)
  }

  /** `\s+` consumes exactly a run of whitespace that a non-whitespace character ends. */
  lemma {:induction false} LeadingSpacesOf(a: string, x: string)
    requires AllSpace(a) && x != [] && !IsSpace(x[0])
    ensures LeadingSpaces(a + x) == |a|
    decreases |a|
  {
    if a == [] {
      assert a + x == x;
    } else {
      assert (a + x)[0] == a[0] && (a + x)[1..] == a[1..] + x;
      LeadingSpacesOf(a[1..], x);
    }
  }

  lemma ValueOfTwo(dd: string)
    requires |dd| == 2 && AllDigits(dd)
    ensures Value(dd) == DigitValue(dd[0]) * 10 + DigitValue(dd[1])
  {
    assert dd[..1][..0] == [];
  }

  /** `%d` before a comma reads the day its digits denote. */
  lemma ParseDayOf(dd: string, rest: string, day: int)
    requires DayDigits(dd, day) && 1 <= day <= 31
    requires rest != [] && rest[0] == ','
    ensures ParseDay(dd + rest) == Some((day, |dd|))
  {
    var u := dd + rest;
    assert u[0] == dd[0] && IsDigit(dd[0]);
    if |dd| == 2 {
      assert u[1] == dd[1] && IsDigit(dd[1]);
      ValueOfTwo(dd);
    } else {
      assert u[1] == ',';
      assert dd[..0] == [];
    }
  }

  /** The comma, whitespace and four digits of a valid date's year read back as it. */
  lemma ParseAfterDayComplete(b: string, yy: string, d: Date)
    requires ValidDate(d) && YearFields(b, yy, d.year)
    ensures ParseAfterDay("," + b + yy, d.month, d.day) == Ok(d)
  {
    var v := "," + b + yy;
    assert v[1..] == b + yy;
    assert IsDigit(yy[0]);
    LeadingSpacesOf(b, yy);
    assert v[1..][|b|..] == yy;
  }

  /** Whatever parses after the day is a comma, whitespace and the year's digits. */
  lemma ParseAfterDaySound(v: string, month: int, day: int, d: Date)
    requires 1 <= month <= 12 && ParseAfterDay(v, month, day) == Ok(d)
    ensures exists b, yy :: v == "," + b + yy && YearFields(b, yy, d.year)
  {
    var w := v[1..];
    var k := LeadingSpaces(w);
    var b, yy := w[..k], w[k..];
    assert ParseYear(yy, month, day).Ok?;
    assert v == "," + b + yy by {
      assert v == [v[0]] + w && w == b + yy;
    }
  }

  /** Every string of the long form after the month name parses to its date. */
  lemma ParseAfterMonthComplete(a: string, dd: string, b: string, yy: string, d: Date)
    requires ValidDate(d) && AfterMonthFields(a, dd, b, yy, d)
    ensures ParseAfterMonth(a + dd + "," + b + yy, d.month) == Ok(d)
  {
    var rest := "," + b + yy;
    var u := dd + rest;
    var t := a + dd + "," + b + yy;
    assert t == a + u;
    assert u[0] == dd[0] && IsDigit(dd[0]);
    LeadingSpacesOf(a, u);
    assert t[|a|..] == u;
    ParseDayOf(dd, rest, d.day);
    assert u[|dd|..] == rest;
    ParseAfterDayComplete(b, yy, d);
  }

  /** Cutting `t` at `k` and again `n` further on, before a comma, whitespace and
      the year, loses nothing. */
  lemma Reassemble(t: string, k: nat, n: nat, b: string, yy: string)
    requires k + n <= |t| && t[k..][n..] == "," + b + yy
    ensures t == t[..k] + t[k..][..n] + "," + b + yy
  {
    var u := t[k..];
    assert t == t[..k] + u;
    assert u == u[..n] + u[n..];
  }

  /** Cutting `s` at `n` before the pieces of what follows the month name loses
      nothing. */
  lemma Prepend(s: string, n: nat, a: string, dd: string, b: string, yy: string)
    requires n <= |s| && s[n..] == a + dd + "," + b + yy
    ensures s == s[..n] + a + dd + "," + b + yy
  {
    assert s == s[..n] + s[n..];
  }

  /** Whatever parses after the month name has the long form of its date. */
  lemma ParseAfterMonthSound(t: string, month: int, d: Date)
    requires 1 <= month <= 12 && ParseAfterMonth(t, month) == Ok(d)
    ensures exists a, dd, b, yy :: t == a + dd + "," + b + yy && AfterMonthFields(a, dd, b, yy, d)
  {
    var k := LeadingSpaces(t);
    var u := t[k..];
    var p := ParseDay(u).value;
    var day, n := p.0, p.1;
    var v := u[n..];
    assert k != 0 && ParseAfterDay(v, month, day) == Ok(d);
    ParseAfterDaySound(v, month, day, d);
    var b, yy :| v == "," + b + yy && YearFields(b, yy, d.year);
    var a, dd := t[..k], u[..n];
    Reassemble(t, k, n, b, yy);
    assert AfterMonthFields(a, dd, b, yy, d);
  }

  /** Every long-form rendering of a valid date, in any case and with any whitespace,
      parses to that date. */
  lemma ParseLongForm(name: string, a: string, dd: string, b: string, yy: string, d: Date)
    requires ValidDate(d) && EqualsIgnoreCase(name, MonthNames[d.month - 1])
    requires AfterMonthFields(a, dd, b, yy, d)
    ensures ParseLongDate(name + a + dd + "," + b + yy) == Ok(d)
  {
    var t := a + dd + "," + b + yy;
    var s := name + t;
    assert name + a + dd + "," + b + yy == s;
    assert s[..|name|] == name;
    MatchMonthFinds(s, d.month, 1);
    assert s[|name|..] == t;
    ParseAfterMonthComplete(a, dd, b, yy, d);
  }

  /** Whatever parses has the long form of its date. */
  lemma ParseLongDateSound(s: string)
    requires ParseLongDate(s).Ok?
    ensures LongForm(s, ParseLongDate(s).value)
  {
    var d := ParseLongDate(s).value;
    var m := MatchMonth(s, 1).value;
    var n := |MonthNames[m - 1]|;
    var name, t := s[..n], s[n..];
    ParseAfterMonthSound(t, m, d);
    var a, dd, b, yy :| t == a + dd + "," + b + yy && AfterMonthFields(a, dd, b, yy, d);
    Prepend(s, n, a, dd, b, yy);
  }

  /** strptime(s, "%B %d, %Y") gives `d` exactly when `d` is a valid date and `s` writes
      it in the long form. */
  lemma ParseLongDateIff(s: string, d: Date)
    ensures ParseLongDate(s) == Ok(d) <==> ValidDate(d) && LongForm(s, d)
  {
    if ParseLongDate(s) == Ok(d) {
      ParseLongDateSound(s);
    }
    if ValidDate(d) && LongForm(s, d) {
      var name, a, dd, b, yy :|
        && s == name + a + dd + "," + b + yy
        && EqualsIgnoreCase(name, MonthNames[d.month - 1])
        && AfterMonthFields(a, dd, b, yy, d);
      ParseLongForm(name, a, dd, b, yy, d);
    }
  }

  /** The day as FormatLongDate writes it is what `%d` reads back. */
  lemma DayDigitsOfShowNat(day: int)
    requires 1 <= day <= 31
    ensures DayDigits(ShowNat(day as nat), day)
  {
    ValueOfShowNat(day as nat);
    if day >= 10 {
      assert |ShowNat(day as nat / 10)| == 1;
    }
  }

  /** The year as FormatLongDate writes it is what `%Y` reads back. */
  lemma YearDigitsOfShowPadded(year: int)
    requires 1 <= year <= 9999
    ensures var yy := ShowPadded(year as nat, 4); |yy| == 4 && AllDigits(yy) && Value(yy) == year
  {
    assert Pow10(4) == 10000;
    ValueOfShowPadded(year as nat, 4);
  }

  /** Reading back the canonical form of a date gives the date. */
  lemma ParseFormatLongDate(d: Date)
    requires ValidDate(d)
    ensures ParseLongDate(FormatLongDate(d)) == Ok(d)
  {
    var name := MonthNames[d.month - 1];
    var dd := ShowNat(d.day as nat);
    var yy := ShowPadded(d.year as nat, 4);
    assert FormatLongDate(d) == name + " " + dd + "," + " " + yy;
    DayDigitsOfShowNat(d.day);
    YearDigitsOfShowPadded(d.year);
    assert EqualsIgnoreCase(name, name);
    assert AllSpace(" ");
    ParseLongForm(name, " ", dd, " ", yy, d);
  }
}
