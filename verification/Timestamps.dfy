// The audit trail's fixed-width timestamps: `%Y-%m-%dT%H:%M:%S.%fZ`.
module Timestamps {
  import opened Text

  datatype Stamp = Stamp(year: nat, month: nat, day: nat, hour: nat, minute: nat, second: nat, micro: nat)

  predicate Leap(y: nat) {
    y % 4 == 0 && (y % 100 != 0 || y % 400 == 0)
  }

  function DaysInMonth(y: nat, m: nat): nat {
    if m == 2 then (if Leap(y) then 29 else 28)
    else if m in {4, 6, 9, 11} then 30 else 31
  }

  predicate Valid(s: Stamp) {
    && 1000 <= s.year <= 9999 && 1 <= s.month <= 12 && 1 <= s.day <= DaysInMonth(s.year, s.month)
    && s.hour < 24 && s.minute < 60 && s.second < 60 && s.micro < 1_000_000
  }

  // ---- rendering ----

  /** Zero-padded numbers, each followed by its separator. */
  datatype Fields = End | Field(value: nat, width: nat, sep: char, rest: Fields)

  function FieldsOf(s: Stamp): Fields {
    Field(s.year, 4, '-', Field(s.month, 2, '-', Field(s.day, 2, 'T', Field(s.hour, 2, ':',
      Field(s.minute, 2, ':', Field(s.second, 2, '.', Field(s.micro, 6, 'Z', End)))))))
  }

  function Render(f: Fields): string {
    match f
    case End => []
    case Field(n, w, sep, rest) => Digits(n, w) + [sep] + Render(rest)
  }

  /** `strftime(_TIMESTAMP_FMT)`. */
  function Format(s: Stamp): string {
    Render(FieldsOf(s))
  }

  /** `s` read against the widths and separators of `shape`; None when it does not fit. */
  function Scan(s: string, shape: Fields): Option<Fields> {
    match shape
    case End => if s == [] then Some(End) else None
    case Field(_, w, sep, rest) =>
      if |s| <= w || s[w] != sep then None
      else match DigitsValue(s[..w])
        case None => None
        case Some(n) =>
          match Scan(s[w + 1..], rest)
          case None => None
          case Some(more) => Some(Field(n, w, sep, more))
  }

  const SHAPE := FieldsOf(Stamp(0, 0, 0, 0, 0, 0, 0))

  /** `strptime(_TIMESTAMP_FMT)` on zero-padded input. */
  function Parse(s: string): Option<Stamp> {
    match Scan(s, SHAPE)
    case Some(Field(y, _, _, Field(mo, _, _, Field(d, _, _, Field(h, _, _,
           Field(mi, _, _, Field(sec, _, _, Field(us, _, _, End)))))))) =>
      if Valid(Stamp(y, mo, d, h, mi, sec, us)) then Some(Stamp(y, mo, d, h, mi, sec, us)) else None
    case _ => None
  }

  predicate WellFormed(s: string) {
    Parse(s).Some?
  }

  predicate SameShape(f: Fields, g: Fields) {
    match (f, g)
    case (End, End) => true
    case (Field(_, w, c, f'), Field(_, w', c', g')) => w == w' && c == c' && SameShape(f', g')
    case _ => false
  }

  lemma {:induction false} SameShapeAs(f: Fields, g: Fields, shape: Fields)
    requires SameShape(f, shape) && SameShape(g, shape)
    ensures SameShape(f, g)
  {
    if shape.Field? {
      SameShapeAs(f.rest, g.rest, shape.rest);
    }
  }

  predicate Fit(f: Fields) {
    f.Field? ==> f.value < Pow10(f.width) && Fit(f.rest)
  }

  predicate LexLess(f: Fields, g: Fields) {
    f.Field? && g.Field? && (f.value < g.value || (f.value == g.value && LexLess(f.rest, g.rest)))
  }

  lemma {:induction false} RenderOrder(f: Fields, g: Fields)
    requires SameShape(f, g) && Fit(f) && Fit(g)
    ensures Before(Render(f), Render(g)) <==> LexLess(f, g)
  {
    if f.Field? {
      RenderOrder(f.rest, g.rest);
      DigitsOrder(f.value, g.value, f.width);
      var a, b := Digits(f.value, f.width), Digits(g.value, g.width);
      BeforeOfConcat(a + [f.sep], b + [g.sep], Render(f.rest), Render(g.rest));
      BeforeOfConcat(a, b, [f.sep], [g.sep]);
      assert a == b ==> a + [f.sep] == b + [g.sep];
      assert a + [f.sep] == b + [g.sep] ==> a == (a + [f.sep])[..|a|] == (b + [g.sep])[..|b|] == b;
    }
  }

  lemma {:induction false} ScanOfRender(f: Fields, shape: Fields)
    requires SameShape(f, shape) && Fit(f)
    ensures Scan(Render(f), shape) == Some(f)
  {
    if f.Field? {
      var head := Digits(f.value, f.width);
      DigitsValueOfDigits(f.value, f.width);
      ScanOfRender(f.rest, shape.rest);
      var s := Render(f);
      assert s == head + [f.sep] + Render(f.rest);
      assert s[..f.width] == head && s[f.width] == f.sep && s[f.width + 1..] == Render(f.rest);
    }
  }

  lemma {:induction false} RenderOfScan(s: string, shape: Fields)
    requires Scan(s, shape).Some?
    ensures Render(Scan(s, shape).value) == s && SameShape(Scan(s, shape).value, shape)
  {
    if shape.Field? {
      var w := shape.width;
      RenderOfScan(s[w + 1..], shape.rest);
      DigitsOfDigitsValue(s[..w]);
      assert s == s[..w] + [s[w]] + s[w + 1..];
    }
  }

  lemma FieldsFit(s: Stamp)
    requires Valid(s)
    ensures Fit(FieldsOf(s)) && SameShape(FieldsOf(s), SHAPE)
  {
    assert Pow10(2) == 100;
    assert Pow10(4) == 100 * Pow10(2);
    assert Pow10(6) == 100 * Pow10(4);
    var z, f := SHAPE, FieldsOf(s);
    assert SameShape(f.rest.rest.rest.rest.rest, z.rest.rest.rest.rest.rest);
    assert SameShape(f.rest.rest.rest, z.rest.rest.rest);
    assert SameShape(f.rest, z.rest);
    assert Fit(f.rest.rest.rest.rest.rest);
    assert Fit(f.rest.rest.rest);
    assert Fit(f.rest);
  }

  /** Formatting then parsing gives the stamp back. */
  lemma ParseFormat(s: Stamp)
    requires Valid(s)
    ensures Parse(Format(s)) == Some(s)
  {
    FieldsFit(s);
    ScanOfRender(FieldsOf(s), SHAPE);
  }

  /** A parsed string is its own formatting. */
  lemma FormatParse(s: string)
    requires WellFormed(s)
    ensures Valid(Parse(s).value) && Format(Parse(s).value) == s
  {
    RenderOfScan(s, SHAPE);
    var f, z := Scan(s, SHAPE).value, SHAPE;
    var st := Parse(s).value;
    assert z.Field? && f.Field? && SameShape(f.rest, z.rest);
    var f1, z1 := f.rest, z.rest;
    assert z1.Field? && f1.Field? && SameShape(f1.rest, z1.rest);
    var f2, z2 := f1.rest, z1.rest;
    assert z2.Field? && f2.Field? && SameShape(f2.rest, z2.rest);
    var f3, z3 := f2.rest, z2.rest;
    assert z3.Field? && f3.Field? && SameShape(f3.rest, z3.rest);
    var f4, z4 := f3.rest, z3.rest;
    assert z4.Field? && f4.Field? && SameShape(f4.rest, z4.rest);
    var f5, z5 := f4.rest, z4.rest;
    assert z5.Field? && f5.Field? && SameShape(f5.rest, z5.rest);
    assert f == FieldsOf(st);
  }

  // ---- the instant a stamp names ----

  function DaysInYear(y: nat): nat {
    if Leap(y) then 366 else 365
  }

  function DaysBeforeYear(y: nat): nat {
    if y == 0 then 0 else DaysBeforeYear(y - 1) + DaysInYear(y - 1)
  }

  function DaysBeforeMonth(y: nat, m: nat): nat {
    var common := if m <= 1 then 0 else if m == 2 then 31 else if m == 3 then 59 else if m == 4 then 90
      else if m == 5 then 120 else if m == 6 then 151 else if m == 7 then 181 else if m == 8 then 212
      else if m == 9 then 243 else if m == 10 then 273 else if m == 11 then 304
      else if m == 12 then 334 else 365;
    if m > 2 && Leap(y) then common + 1 else common
  }

  /** Microseconds since the start of year 0 of the proleptic Gregorian calendar. */
  function Instant(s: Stamp): int {
    var days := DaysBeforeYear(s.year) + DaysBeforeMonth(s.year, s.month) + s.day - 1;
    (((days * 24 + s.hour) * 60 + s.minute) * 60 + s.second) * 1_000_000 + s.micro
  }

  lemma MonthsAdd(y: nat, m: nat, m': nat)
    requires 1 <= m < m' <= 13
    ensures DaysBeforeMonth(y, m) + DaysInMonth(y, m) <= DaysBeforeMonth(y, m')
    ensures m' == m + 1 ==> DaysBeforeMonth(y, m) + DaysInMonth(y, m) == DaysBeforeMonth(y, m')
  {
  }

  lemma {:induction false} YearsAdd(y: nat, y': nat)
    requires y < y'
    ensures DaysBeforeYear(y) + DaysInYear(y) <= DaysBeforeYear(y')
  {
    if y + 1 < y' {
      YearsAdd(y, y' - 1);
    }
  }

  function Days(s: Stamp): int {
    DaysBeforeYear(s.year) + DaysBeforeMonth(s.year, s.month) + s.day - 1
  }

  predicate DateLess(a: Stamp, b: Stamp) {
    a.year < b.year || (a.year == b.year && (a.month < b.month || (a.month == b.month && a.day < b.day)))
  }

  lemma DaysOrder(a: Stamp, b: Stamp)
    requires Valid(a) && Valid(b) && DateLess(a, b)
    ensures Days(a) < Days(b)
  {
    if a.year < b.year {
      YearsAdd(a.year, b.year);
      MonthsAdd(a.year, a.month, 13);
    } else if a.month < b.month {
      MonthsAdd(a.year, a.month, b.month);
    }
  }

  predicate StampLess(a: Stamp, b: Stamp) {
    DateLess(a, b) || (a.year == b.year && a.month == b.month && a.day == b.day &&
      (a.hour < b.hour || (a.hour == b.hour && (a.minute < b.minute || (a.minute == b.minute &&
        (a.second < b.second || (a.second == b.second && a.micro < b.micro)))))))
  }

  lemma InstantOrder(a: Stamp, b: Stamp)
    requires Valid(a) && Valid(b) && StampLess(a, b)
    ensures Instant(a) < Instant(b)
  {
    if DateLess(a, b) {
      DaysOrder(a, b);
    }
  }

  lemma FormatLexOrder(a: Stamp, b: Stamp)
    requires Valid(a) && Valid(b)
    ensures Before(Format(a), Format(b)) <==> StampLess(a, b)
  {
    FieldsFit(a);
    FieldsFit(b);
    var f, g := FieldsOf(a), FieldsOf(b);
    SameShapeAs(f, g, SHAPE);
    RenderOrder(f, g);
    var f2, g2 := f.rest.rest, g.rest.rest;
    var f4, g4 := f2.rest.rest, g2.rest.rest;
    assert LexLess(f4.rest.rest, g4.rest.rest) <==> a.micro < b.micro;
    assert LexLess(f4, g4) <==>
      (a.minute < b.minute ||
       (a.minute == b.minute && (a.second < b.second || (a.second == b.second && a.micro < b.micro))));
    assert LexLess(f2, g2) <==>
      (a.day < b.day || (a.day == b.day && (a.hour < b.hour || (a.hour == b.hour && LexLess(f4, g4)))));
  }

  /** String order on formatted stamps is time order. */
  lemma FormatOrder(a: Stamp, b: Stamp)
    requires Valid(a) && Valid(b)
    ensures Before(Format(a), Format(b)) <==> Instant(a) < Instant(b)
  {
    FormatLexOrder(a, b);
    if StampLess(a, b) {
      InstantOrder(a, b);
    } else if a != b {
      InstantOrder(b, a);
    }
  }

  // ---- one microsecond later ----

  /** `dt + timedelta(microseconds=1)`; None is the OverflowError past the last instant of year 9999. */
  function NextMicro(s: Stamp): Option<Stamp> {
    if s.micro < 999_999 then Some(s.(micro := s.micro + 1))
    else if s.second < 59 then Some(s.(second := s.second + 1, micro := 0))
    else if s.minute < 59 then Some(s.(minute := s.minute + 1, second := 0, micro := 0))
    else if s.hour < 23 then Some(s.(hour := s.hour + 1, minute := 0, second := 0, micro := 0))
    else if s.day < DaysInMonth(s.year, s.month) then Some(Stamp(s.year, s.month, s.day + 1, 0, 0, 0, 0))
    else if s.month < 12 then Some(Stamp(s.year, s.month + 1, 1, 0, 0, 0, 0))
    else if s.year < 9999 then Some(Stamp(s.year + 1, 1, 1, 0, 0, 0, 0))
    else None
  }

  lemma NextMicroIsNext(s: Stamp)
    requires Valid(s)
    ensures NextMicro(s).Some? ==> Valid(NextMicro(s).value) && Instant(NextMicro(s).value) == Instant(s) + 1
    ensures NextMicro(s).None? <==> s == Stamp(9999, 12, 31, 23, 59, 59, 999_999)
  {
    MonthsAdd(s.year, s.month, s.month + 1);
    if s.micro == 999_999 && s.second == 59 && s.minute == 59 && s.hour == 23 {
      var n := NextMicro(s);
      if n.Some? {
        assert Days(n.value) == Days(s) + 1;
      }
    }
  }

  /** `_monotonic_timestamp`; None when the bump overflows the calendar. */
  function Monotonic(prev: string, candidate: string): Option<string> {
    if prev == "" || Before(prev, candidate) then Some(candidate)
    else match Parse(prev)
      case None => Some(candidate)
      case Some(s) =>
        match NextMicro(s)
        case None => None
        case Some(n) => Some(Format(n))
  }

  /** Behind a well-formed predecessor a later candidate is kept as it is, and an equal or earlier one gives the stamp
      one microsecond after the predecessor. */
  lemma MonotonicAdvances(prev: string, candidate: string)
    requires WellFormed(prev)
    ensures Before(prev, candidate) ==> Monotonic(prev, candidate) == Some(candidate)
    ensures Monotonic(prev, candidate).Some? ==> Before(prev, Monotonic(prev, candidate).value)
    ensures !Before(prev, candidate) && Monotonic(prev, candidate).Some? ==>
      && WellFormed(Monotonic(prev, candidate).value)
      && Instant(Parse(Monotonic(prev, candidate).value).value) == Instant(Parse(prev).value) + 1
    ensures Monotonic(prev, candidate).None? <==>
      !Before(prev, candidate) && Parse(prev).value == Stamp(9999, 12, 31, 23, 59, 59, 999_999)
  {
    assert prev != "" by { assert Scan("", SHAPE).None?; }
    if !Before(prev, candidate) {
      FormatParse(prev);
      var s := Parse(prev).value;
      NextMicroIsNext(s);
      if NextMicro(s).Some? {
        var n := NextMicro(s).value;
        ParseFormat(n);
        FormatOrder(s, n);
      }
    }
  }

  /** Behind nothing, or behind a text that is no stamp, the candidate is kept whatever it is. */
  lemma MonotonicKeeps(prev: string, candidate: string)
    requires !WellFormed(prev)
    ensures Monotonic(prev, candidate) == Some(candidate)
  {
  }

  /** The documented rule: the later of the candidate and one microsecond after the predecessor. */
  lemma MonotonicIsLater(prev: string, candidate: string)
    requires WellFormed(prev) && WellFormed(candidate) && Monotonic(prev, candidate).Some?
    ensures var r := Monotonic(prev, candidate).value;
      var p, c := Instant(Parse(prev).value), Instant(Parse(candidate).value);
      WellFormed(r) && Instant(Parse(r).value) == if c > p + 1 then c else p + 1
  {
    MonotonicAdvances(prev, candidate);
    FormatParse(prev);
    FormatParse(candidate);
    FormatOrder(Parse(prev).value, Parse(candidate).value);
  }

  // ---- the calendar and the format, pinned down ----

  const MONTHS := [31, 28, 31, 30, 31, 30, 31, 31, 30, 31, 30, 31]

  /** The Gregorian calendar: every fourth year is a leap year, but of the full centuries only every fourth. */
  lemma LeapYears(y: nat)
    ensures Leap(y) <==> if y % 100 == 0 then y % 400 == 0 else y % 4 == 0
  {
    assert y % 400 == 0 ==> y % 4 == 0;
  }

  lemma MonthLengths(y: nat, m: nat)
    requires 1 <= m <= 12
    ensures DaysInMonth(y, m) == MONTHS[m - 1] + if m == 2 && Leap(y) then 1 else 0
  {
  }

  /** The days before a year: 365 for each year, one more for each leap year counted from year 0. */
  lemma {:induction false} DaysBeforeYearCounts(y: nat)
    requires y > 0
    ensures DaysBeforeYear(y) == 365 * y + ((y - 1) / 4 - (y - 1) / 100 + (y - 1) / 400 + 1)
  {
    if y > 1 {
      DaysBeforeYearCounts(y - 1);
      Quotients(y - 1);
    }
  }

  /** How the three quotients move from one year to the next. */
  lemma Quotients(y: nat)
    requires y > 0
    ensures y / 4 == (y - 1) / 4 + (if y % 4 == 0 then 1 else 0)
    ensures y / 100 == (y - 1) / 100 + (if y % 100 == 0 then 1 else 0)
    ensures y / 400 == (y - 1) / 400 + (if y % 400 == 0 then 1 else 0)
    ensures (y % 400 == 0 ==> y % 100 == 0) && (y % 100 == 0 ==> y % 4 == 0)
  {
  }

  /** The text of a stamp: year, month, day, T, hour, minute, second, microseconds, Z, each padded to its width. */
  lemma FormatIs(s: Stamp)
    ensures Format(s) ==
      Digits(s.year, 4) + "-" + Digits(s.month, 2) + "-" + Digits(s.day, 2) + "T" + TimeText(s)
  {
    var date := FieldsOf(s);
    var time := date.rest.rest.rest;
    TimeIs(s, time);
    Joined(Digits(s.year, 4), Digits(s.month, 2), Digits(s.day, 2), TimeText(s));
    assert Render(date.rest.rest) == Digits(s.day, 2) + ['T'] + TimeText(s);
    assert Render(date.rest) == Digits(s.month, 2) + ['-'] + Render(date.rest.rest);
  }

  function TimeText(s: Stamp): string {
    Digits(s.hour, 2) + ":" + Digits(s.minute, 2) + ":" + Digits(s.second, 2) + "." + Digits(s.micro, 6) + "Z"
  }

  lemma TimeIs(s: Stamp, time: Fields)
    requires time == FieldsOf(s).rest.rest.rest
    ensures Render(time) == TimeText(s)
  {
    assert Render(time.rest.rest.rest) == Digits(s.micro, 6) + "Z";
    assert Render(time.rest.rest) == Digits(s.second, 2) + ['.'] + (Digits(s.micro, 6) + "Z");
    assert Render(time.rest) == Digits(s.minute, 2) + [':'] + Render(time.rest.rest);
  }

  lemma Joined(y: string, m: string, d: string, rest: string)
    ensures y + ['-'] + (m + ['-'] + (d + ['T'] + rest)) == y + "-" + m + "-" + d + "T" + rest
  {
  }
}
