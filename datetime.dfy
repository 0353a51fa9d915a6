/**
 * The datetime value type of the booking application: five small integers,
 * with three-way comparisons on the date, on the time of day and on both.
 * The clock reading that produces "now" is not modelled: callers pass "now".
 */
module DateTime {
  import opened Decimal
  import opened Wrappers

  /** A datetime as create_datetime builds it: the five fields exactly as
      given, with no range validation. */
  datatype DateTime = DateTime(minute: int, hour: int, day: int, month: int, year: int)

  /** Three-way comparison of two equally long field lists, most significant
      field first: the loop that runs from the last slot of the C arrays down
      to the first and stops at the first difference. */
  function CompareFields(xs: seq<int>, ys: seq<int>): (r: int)
    requires |xs| == |ys|
    ensures r == -1 || r == 0 || r == 1
    ensures r == 0 <==> xs == ys
    decreases |xs|
  {
    if xs == [] then 0
    else if xs[0] > ys[0] then 1
    else if xs[0] < ys[0] then -1
    else CompareFields(xs[1..], ys[1..])
  }

  /** The date part, most significant first. */
  function DateKey(d: DateTime): seq<int> {
    [d.year, d.month, d.day]
  }

  /** The time part, most significant first. */
  function TimeKey(d: DateTime): seq<int> {
    [d.hour, d.minute]
  }

  /** Date and time together, most significant first. */
  function FullKey(d: DateTime): seq<int> {
    [d.year, d.month, d.day, d.hour, d.minute]
  }

  /** Lexicographic "strictly before" on (year, month, day). */
  predicate DateBefore(a: DateTime, b: DateTime) {
    a.year < b.year
    || (a.year == b.year && a.month < b.month)
    || (a.year == b.year && a.month == b.month && a.day < b.day)
  }

  /** Lexicographic "strictly before" on (hour, minute). */
  predicate TimeBefore(a: DateTime, b: DateTime) {
    a.hour < b.hour || (a.hour == b.hour && a.minute < b.minute)
  }

  /** Lexicographic "strictly before" on (year, month, day, hour, minute). */
  predicate Before(a: DateTime, b: DateTime) {
    DateBefore(a, b) || (DateKey(a) == DateKey(b) && TimeBefore(a, b))
  }

  function CompareDate(a: DateTime, b: DateTime): (r: int)
    ensures r == -1 <==> DateBefore(a, b)
    ensures r == 1 <==> DateBefore(b, a)
    ensures r == 0 <==> (a.year == b.year && a.month == b.month && a.day == b.day)
  {
    CompareFieldsUnfold(DateKey(a), DateKey(b));
    CompareFieldsUnfold(DateKey(a)[1..], DateKey(b)[1..]);
    CompareFieldsUnfold(DateKey(a)[2..], DateKey(b)[2..]);
    CompareFields(DateKey(a), DateKey(b))
  }

  function CompareTime(a: DateTime, b: DateTime): (r: int)
    ensures r == -1 <==> TimeBefore(a, b)
    ensures r == 1 <==> TimeBefore(b, a)
    ensures r == 0 <==> (a.hour == b.hour && a.minute == b.minute)
  {
    CompareFieldsUnfold(TimeKey(a), TimeKey(b));
    CompareFieldsUnfold(TimeKey(a)[1..], TimeKey(b)[1..]);
    CompareFields(TimeKey(a), TimeKey(b))
  }

  function CompareDateTime(a: DateTime, b: DateTime): (r: int)
    ensures r == -1 <==> Before(a, b)
    ensures r == 1 <==> Before(b, a)
    ensures r == 0 <==> a == b
  {
    var byDate := CompareDate(a, b);
    if byDate == 0 then CompareTime(a, b) else byDate
  }

  /** One step of the comparison loop. */
  lemma CompareFieldsUnfold(xs: seq<int>, ys: seq<int>)
    requires |xs| == |ys| && xs != []
    ensures CompareFields(xs, ys)
         == if xs[0] > ys[0] then 1 else if xs[0] < ys[0] then -1
            else CompareFields(xs[1..], ys[1..])
    ensures |xs| == 1 ==> xs[1..] == ys[1..] == []
  {
  }

  /** Comparing a concatenation compares the prefixes first and the suffixes
      only on a tie. */
  lemma {:induction false} CompareFieldsConcat(xs: seq<int>, ys: seq<int>, us: seq<int>, vs: seq<int>)
    requires |xs| == |ys| && |us| == |vs|
    ensures CompareFields(xs + us, ys + vs)
         == if CompareFields(xs, ys) != 0 then CompareFields(xs, ys) else CompareFields(us, vs)
    decreases |xs|
  {
    if xs != [] {
      assert (xs + us)[1..] == xs[1..] + us;
      assert (ys + vs)[1..] == ys[1..] + vs;
      CompareFieldsConcat(xs[1..], ys[1..], us, vs);
    } else {
      assert xs + us == us;
      assert ys + vs == vs;
    }
  }

  lemma {:induction false} CompareFieldsAntisymmetric(xs: seq<int>, ys: seq<int>)
    requires |xs| == |ys|
    ensures CompareFields(xs, ys) == -CompareFields(ys, xs)
    decreases |xs|
  {
    if xs != [] && xs[0] == ys[0] {
      CompareFieldsAntisymmetric(xs[1..], ys[1..]);
    }
  }

  lemma {:induction false} CompareFieldsTransitive(xs: seq<int>, ys: seq<int>, zs: seq<int>)
    requires |xs| == |ys| == |zs|
    requires CompareFields(xs, ys) <= 0 && CompareFields(ys, zs) <= 0
    ensures CompareFields(xs, zs) <= 0
    decreases |xs|
  {
    if xs != [] && xs[0] == ys[0] == zs[0] {
      CompareFieldsTransitive(xs[1..], ys[1..], zs[1..]);
    }
  }

  /** compare_datetime is the lexicographic order on all five fields. */
  lemma CompareDateTimeIsLexicographic(a: DateTime, b: DateTime)
    ensures CompareDateTime(a, b) == CompareFields(FullKey(a), FullKey(b))
  {
    assert FullKey(a) == DateKey(a) + TimeKey(a);
    assert FullKey(b) == DateKey(b) + TimeKey(b);
    CompareFieldsConcat(DateKey(a), DateKey(b), TimeKey(a), TimeKey(b));
  }

  lemma CompareDateTimeAntisymmetric(a: DateTime, b: DateTime)
    ensures CompareDateTime(a, b) == -CompareDateTime(b, a)
  {
    CompareDateTimeIsLexicographic(a, b);
    CompareDateTimeIsLexicographic(b, a);
    CompareFieldsAntisymmetric(FullKey(a), FullKey(b));
  }

  lemma CompareDateTimeTransitive(a: DateTime, b: DateTime, c: DateTime)
    requires CompareDateTime(a, b) <= 0 && CompareDateTime(b, c) <= 0
    ensures CompareDateTime(a, c) <= 0
  {
    CompareDateTimeIsLexicographic(a, b);
    CompareDateTimeIsLexicographic(b, c);
    CompareDateTimeIsLexicographic(a, c);
    CompareFieldsTransitive(FullKey(a), FullKey(b), FullKey(c));
  }

  // ----- Clock readings -----

  /** The broken-down local time the C library fills in: minute 0..59, hour
      0..23, day of the month, month 0..11 and years since 1900. */
  datatype LocalTime = LocalTime(tmMin: int, tmHour: int, tmMday: int, tmMon: int, tmYear: int)

  predicate ValidLocalTime(t: LocalTime) {
    0 <= t.tmMin <= 59 && 0 <= t.tmHour <= 23 && 1 <= t.tmMday <= 31 && 0 <= t.tmMon <= 11
  }

  /** Lexicographic "strictly before" on (year, month, day, hour, minute) of
      the broken-down time. */
  predicate LocalBefore(a: LocalTime, b: LocalTime) {
    a.tmYear < b.tmYear
    || (a.tmYear == b.tmYear && a.tmMon < b.tmMon)
    || (a.tmYear == b.tmYear && a.tmMon == b.tmMon && a.tmMday < b.tmMday)
    || (a.tmYear == b.tmYear && a.tmMon == b.tmMon && a.tmMday == b.tmMday && a.tmHour < b.tmHour)
    || (a.tmYear == b.tmYear && a.tmMon == b.tmMon && a.tmMday == b.tmMday && a.tmHour == b.tmHour
        && a.tmMin < b.tmMin)
  }

  /** get_datetime: one is added to the minute, the hour and the month and
      1900 to the year, so a reading has minute 1..60 and hour 1..24. */
  function ClockReading(t: LocalTime): (d: DateTime)
    requires ValidLocalTime(t)
    ensures 1 <= d.minute <= 60 && 1 <= d.hour <= 24 && 1 <= d.day <= 31 && 1 <= d.month <= 12
  {
    DateTime(t.tmMin + 1, t.tmHour + 1, t.tmMday, t.tmMon + 1, t.tmYear + 1900)
  }

  /** The offsets keep the order of the instants read: compare_datetime on
      two readings answers as their local times compare. */
  lemma ClockReadingKeepsOrder(a: LocalTime, b: LocalTime)
    requires ValidLocalTime(a) && ValidLocalTime(b)
    ensures CompareDateTime(ClockReading(a), ClockReading(b)) == -1 <==> LocalBefore(a, b)
    ensures CompareDateTime(ClockReading(a), ClockReading(b)) == 0 <==> a == b
  {
  }

  // ----- Text layout -----

  /** The text "a:b c/d/e" with each number written as "%d" writes it. */
  function Layout(a: int, b: int, c: int, d: int, e: int): string {
    IntToStr(a) + (":" + (IntToStr(b) + (" " + (IntToStr(c) + ("/" + (IntToStr(d) + ("/" + IntToStr(e))))))))
  }

  /** print_datetime: "minute:hour day/month/year". */
  function FormatDateTime(d: DateTime): string {
    Layout(d.minute, d.hour, d.day, d.month, d.year)
  }

  /** The layout the loaders expect, hour first: "hour:minute day/month/year". */
  function FormatDateTimeHourFirst(d: DateTime): string {
    Layout(d.hour, d.minute, d.day, d.month, d.year)
  }

  predicate IsSpace(c: char) {
    c == ' ' || c == '\t' || c == '\n' || c == '\U{000B}' || c == '\U{000C}' || c == '\r'
  }

  /** A white-space directive of a scanf format: skip any run of white space. */
  function SkipSpaces(s: string): (rest: string)
    ensures |rest| <= |s|
    ensures rest == [] || !IsSpace(rest[0])
  {
    if s != [] && IsSpace(s[0]) then SkipSpaces(s[1..]) else s
  }

  /** The longest run of at most `width` leading digits of s. */
  function DigitRun(s: string, width: nat): (k: nat)
    ensures k <= width && k <= |s| && AllDigits(s[..k])
    ensures k < width && k < |s| ==> !IsDigit(s[k])
  {
    if width == 0 || s == [] || !IsDigit(s[0]) then 0
    else
      var k := 1 + DigitRun(s[1..], width - 1);
      assert s[..k] == [s[0]] + s[1..][..k - 1];
      k
  }

  /** One directive of a scanf format string: a "%<width>d" conversion, a
      literal character, or white space. */
  datatype Directive = Num(width: nat) | Lit(c: char) | Space

  /** The numbers sscanf converts from s under the format, in order; it stops
      at the first directive that does not match, so the length of the result
      is sscanf's return value. Conversions read unsigned digits only. */
  function Scan(s: string, format: seq<Directive>): (values: seq<nat>)
    ensures |values| <= NumCount(format)
    decreases |format|
  {
    if format == [] then []
    else match format[0]
      case Num(w) =>
        var t := SkipSpaces(s);
        var k := DigitRun(t, w);
        if k == 0 then [] else [DigitsValue(t[..k])] + Scan(t[k..], format[1..])
      case Lit(c) =>
        if s != [] && s[0] == c then Scan(s[1..], format[1..]) else []
      case Space =>
        Scan(SkipSpaces(s), format[1..])
  }

  function NumCount(format: seq<Directive>): nat {
    if format == [] then 0 else (if format[0].Num? then 1 else 0) + NumCount(format[1..])
  }

  /** "%2d:%2d %2d/%2d/%4d", the layout of every datetime in the data files. */
  const DateTimeFormat: seq<Directive> :=
    [Num(2), Lit(':'), Num(2), Space, Num(2), Lit('/'), Num(2), Lit('/'), Num(4)]

  /** How load_courses and load_user turn a line into a datetime:
      sscanf(line, "%2d:%2d %2d/%2d/%4d", &hh, &mm, &dd, &mo, &yyyy) must
      convert all five numbers, then create_datetime(mm, hh, dd, mo, yyyy)
      makes the FIRST number the hour. */
  function LoadDateTime(s: string): (r: Option<DateTime>)
    ensures r.Some? <==> |Scan(s, DateTimeFormat)| == 5
  {
    var f := Scan(s, DateTimeFormat);
    if |f| == 5 then Some(DateTime(f[1], f[0], f[2], f[3], f[4])) else None
  }

  /** The text a format describes, filled with the given numbers. */
  function Render(values: seq<nat>, format: seq<Directive>): string
    requires |values| == NumCount(format)
    decreases |format|
  {
    if format == [] then []
    else match format[0]
      case Num(_) => NatToStr(values[0]) + Render(values[1..], format[1..])
      case Lit(c) => [c] + Render(values, format[1..])
      case Space => " " + Render(values, format[1..])
  }

  /** Formats the scanner reads back unambiguously: literals are neither
      digits nor white space, no conversion follows another directly and no
      white-space directive follows another. */
  predicate Unambiguous(format: seq<Directive>) {
    forall i :: 0 <= i < |format| ==>
      (format[i].Lit? ==> !IsDigit(format[i].c) && !IsSpace(format[i].c))
      && (format[i].Num? && i + 1 < |format| ==> !format[i + 1].Num?)
      && (format[i].Space? && i + 1 < |format| ==> !format[i + 1].Space?)
  }

  /** Every number is short enough for its conversion's width. */
  predicate Fits(values: seq<nat>, format: seq<Directive>)
    requires |values| == NumCount(format)
    decreases |format|
  {
    format != [] ==>
      match format[0]
      case Num(w) => |NatToStr(values[0])| <= w && Fits(values[1..], format[1..])
      case _ => Fits(values, format[1..])
  }

  lemma RenderStart(values: seq<nat>, format: seq<Directive>)
    requires |values| == NumCount(format) && format != [] && !format[0].Num?
    ensures Render(values, format) != []
    ensures format[0].Lit? ==> Render(values, format)[0] == format[0].c
    ensures format[0].Space? ==> Render(values, format)[0] == ' '
  {
  }

  lemma UnambiguousTail(format: seq<Directive>)
    requires format != [] && Unambiguous(format)
    ensures Unambiguous(format[1..])
  {
    var rest := format[1..];
    forall i | 0 <= i < |rest| ensures
      (rest[i].Lit? ==> !IsDigit(rest[i].c) && !IsSpace(rest[i].c))
      && (rest[i].Num? && i + 1 < |rest| ==> !rest[i + 1].Num?)
      && (rest[i].Space? && i + 1 < |rest| ==> !rest[i + 1].Space?)
    {
      assert rest[i] == format[i + 1];
    }
  }

  /** The text after a conversion does not start with a digit. */
  lemma AfterNumNoDigit(values: seq<nat>, format: seq<Directive>)
    requires format != [] && format[0].Num? && Unambiguous(format)
    requires |values| == NumCount(format)
    ensures var tail := Render(values[1..], format[1..]);
            tail == [] || !IsDigit(tail[0])
  {
    var rest := format[1..];
    if rest != [] {
      assert rest[0] == format[1];
      RenderStart(values[1..], rest);
    }
  }

  /** The text after a white-space directive does not start with white space. */
  lemma AfterSpaceNoSpace(values: seq<nat>, format: seq<Directive>)
    requires format != [] && format[0].Space? && Unambiguous(format)
    requires |values| == NumCount(format)
    ensures var tail := Render(values, format[1..]);
            tail == [] || !IsSpace(tail[0])
  {
    var rest := format[1..];
    if rest != [] {
      assert rest[0] == format[1];
      if rest[0].Num? {
        var tail := Render(values, rest);
        assert tail == NatToStr(values[0]) + Render(values[1..], rest[1..]);
        assert IsDigit(tail[0]);
      } else {
        RenderStart(values, rest);
      }
    }
  }

  lemma SkipSpacesNoop(s: string)
    requires s == [] || !IsSpace(s[0])
    ensures SkipSpaces(s) == s
  {
  }

  lemma ScanRenderNum(values: seq<nat>, format: seq<Directive>)
    requires format != [] && format[0].Num? && Unambiguous(format)
    requires |values| == NumCount(format) && Fits(values, format)
    requires Scan(Render(values[1..], format[1..]), format[1..]) == values[1..]
    ensures Scan(Render(values, format), format) == values
  {
    var tail := Render(values[1..], format[1..]);
    var digits := NatToStr(values[0]);
    AfterNumNoDigit(values, format);
    var t := digits + tail;
    assert Render(values, format) == t;
    SkipSpacesNoop(t);
    DigitRunExact(digits, tail, format[0].width);
    assert t[..|digits|] == digits && t[|digits|..] == tail;
    DigitsValueOfNatToStr(values[0]);
    assert values == [values[0]] + values[1..];
  }

  lemma ScanRenderSpace(values: seq<nat>, format: seq<Directive>)
    requires format != [] && format[0].Space? && Unambiguous(format)
    requires |values| == NumCount(format)
    requires Scan(Render(values, format[1..]), format[1..]) == values
    ensures Scan(Render(values, format), format) == values
  {
    var tail := Render(values, format[1..]);
    AfterSpaceNoSpace(values, format);
    SkipSpacesNoop(tail);
    assert Render(values, format) == " " + tail;
    assert (" " + tail)[1..] == tail;
  }

  lemma ScanRenderLit(values: seq<nat>, format: seq<Directive>)
    requires format != [] && format[0].Lit?
    requires |values| == NumCount(format)
    requires Scan(Render(values, format[1..]), format[1..]) == values
    ensures Scan(Render(values, format), format) == values
  {
    var tail := Render(values, format[1..]);
    assert Render(values, format) == [format[0].c] + tail;
    assert ([format[0].c] + tail)[1..] == tail;
  }

  /** Scanning rendered text gives back the numbers it was rendered from. */
  lemma {:induction false} ScanRender(values: seq<nat>, format: seq<Directive>)
    requires |values| == NumCount(format)
    requires Unambiguous(format) && Fits(values, format)
    ensures Scan(Render(values, format), format) == values
    decreases |format|
  {
    if format != [] {
      UnambiguousTail(format);
      match format[0]
      case Num(w) =>
        ScanRender(values[1..], format[1..]);
        ScanRenderNum(values, format);
      case Lit(c) =>
        ScanRender(values, format[1..]);
        ScanRenderLit(values, format);
      case Space =>
        ScanRender(values, format[1..]);
        ScanRenderSpace(values, format);
    }
  }

  lemma {:induction false} DigitRunExact(s: string, rest: string, width: nat)
    requires AllDigits(s) && |s| <= width
    requires rest == [] || !IsDigit(rest[0])
    ensures DigitRun(s + rest, width) == |s|
    decreases |s|
  {
    if s != [] {
      assert (s + rest)[1..] == s[1..] + rest;
      DigitRunExact(s[1..], rest, width - 1);
    } else {
      assert s + rest == rest;
    }
  }

  /** The fields a round trip through text can carry: non-negative, two digits
      (four for the year), as the scanner's field widths allow. */
  predicate Printable(d: DateTime) {
    0 <= d.minute < 100 && 0 <= d.hour < 100 && 0 <= d.day < 100
    && 0 <= d.month < 100 && 0 <= d.year < 10000
  }

  lemma DateTimeFormatUnambiguous()
    ensures Unambiguous(DateTimeFormat)
  {
    var f := DateTimeFormat;
    forall i | 0 <= i < |f| ensures
      (f[i].Lit? ==> !IsDigit(f[i].c) && !IsSpace(f[i].c))
      && (f[i].Num? && i + 1 < |f| ==> !f[i + 1].Num?)
      && (f[i].Space? && i + 1 < |f| ==> !f[i + 1].Space?)
    {
      if i == 0 {} else if i == 1 {} else if i == 2 {} else if i == 3 {}
      else if i == 4 {} else if i == 5 {} else if i == 6 {} else if i == 7 {} else {}
    }
  }

  /** Text laid out as "a:b c/d/e" is the datetime format rendered with
      a, b, c, d, e. */
  lemma LayoutIsRendered(a: nat, b: nat, c: nat, d: nat, e: nat)
    ensures Render([a, b, c, d, e], DateTimeFormat) == Layout(a, b, c, d, e)
  {
    var f8: seq<Directive> := [Num(4)];
    var f7 := [Lit('/')] + f8;
    var f6 := [Num(2)] + f7;
    var f5 := [Lit('/')] + f6;
    var f4 := [Num(2)] + f5;
    var f3 := [Space] + f4;
    var f2 := [Num(2)] + f3;
    var f1 := [Lit(':')] + f2;
    var f0 := [Num(2)] + f1;
    assert f0 == DateTimeFormat;
    var t8 := NatToStr(e);
    assert Render([e], f8) == t8 by { assert [e][1..] == [] && f8[1..] == []; }
    var t7 := "/" + t8;
    assert Render([e], f7) == t7 by { assert f7[1..] == f8; }
    var t6 := NatToStr(d) + t7;
    assert Render([d, e], f6) == t6 by { assert f6[1..] == f7 && [d, e][1..] == [e]; }
    var t5 := "/" + t6;
    assert Render([d, e], f5) == t5 by { assert f5[1..] == f6; }
    var t4 := NatToStr(c) + t5;
    assert Render([c, d, e], f4) == t4 by { assert f4[1..] == f5 && [c, d, e][1..] == [d, e]; }
    var t3 := " " + t4;
    assert Render([c, d, e], f3) == t3 by { assert f3[1..] == f4; }
    var t2 := NatToStr(b) + t3;
    assert Render([b, c, d, e], f2) == t2 by {
      assert f2[1..] == f3 && [b, c, d, e][1..] == [c, d, e];
    }
    var t1 := ":" + t2;
    assert Render([b, c, d, e], f1) == t1 by { assert f1[1..] == f2; }
    assert Render([a, b, c, d, e], f0) == NatToStr(a) + t1 == Layout(a, b, c, d, e) by {
      assert f0[1..] == f1 && [a, b, c, d, e][1..] == [b, c, d, e];
    }
  }

  /** Two-digit fields and a four-digit year fit the datetime format. */
  lemma LayoutFits(a: nat, b: nat, c: nat, d: nat, e: nat)
    requires a < 100 && b < 100 && c < 100 && d < 100 && e < 10000
    ensures Fits([a, b, c, d, e], DateTimeFormat)
  {
    var f8: seq<Directive> := [Num(4)];
    var f7 := [Lit('/')] + f8;
    var f6 := [Num(2)] + f7;
    var f5 := [Lit('/')] + f6;
    var f4 := [Num(2)] + f5;
    var f3 := [Space] + f4;
    var f2 := [Num(2)] + f3;
    var f1 := [Lit(':')] + f2;
    var f0 := [Num(2)] + f1;
    assert f0 == DateTimeFormat;
    assert Fits([e], f8) by { assert [e][1..] == [] && f8[1..] == []; }
    assert Fits([e], f7) by { assert f7[1..] == f8; }
    assert Fits([d, e], f6) by { assert f6[1..] == f7 && [d, e][1..] == [e]; }
    assert Fits([d, e], f5) by { assert f5[1..] == f6; }
    assert Fits([c, d, e], f4) by { assert f4[1..] == f5 && [c, d, e][1..] == [d, e]; }
    assert Fits([c, d, e], f3) by { assert f3[1..] == f4; }
    assert Fits([b, c, d, e], f2) by { assert f2[1..] == f3 && [b, c, d, e][1..] == [c, d, e]; }
    assert Fits([b, c, d, e], f1) by { assert f1[1..] == f2; }
    assert f0[1..] == f1 && [a, b, c, d, e][1..] == [b, c, d, e];
  }

  /** The loader's scanner reads "a:b c/d/e" back as a, b, c, d, e. */
  lemma ScanLayout(a: nat, b: nat, c: nat, d: nat, e: nat)
    requires a < 100 && b < 100 && c < 100 && d < 100 && e < 10000
    ensures Scan(Layout(a, b, c, d, e), DateTimeFormat) == [a, b, c, d, e]
  {
    LayoutIsRendered(a, b, c, d, e);
    LayoutFits(a, b, c, d, e);
    DateTimeFormatUnambiguous();
    ScanRender([a, b, c, d, e], DateTimeFormat);
  }

  /** Printing a datetime and loading it back exchanges hour and minute:
      print_datetime writes the minute first, the loaders read the first
      number as the hour. */
  lemma PrintThenLoadSwapsHourAndMinute(d: DateTime)
    requires Printable(d)
    ensures LoadDateTime(FormatDateTime(d)) == Some(d.(hour := d.minute, minute := d.hour))
  {
    ScanLayout(d.minute, d.hour, d.day, d.month, d.year);
  }

  /** A concrete datetime that does not survive the round trip. */
  lemma PrintThenLoadCounterexample()
    ensures LoadDateTime(FormatDateTime(DateTime(30, 10, 15, 6, 2025)))
         == Some(DateTime(10, 30, 15, 6, 2025))
  {
    PrintThenLoadSwapsHourAndMinute(DateTime(30, 10, 15, 6, 2025));
  }

  /** With the hour written first the round trip is exact. */
  lemma PrintHourFirstThenLoad(d: DateTime)
    requires Printable(d)
    ensures LoadDateTime(FormatDateTimeHourFirst(d)) == Some(d)
  {
    ScanLayout(d.hour, d.minute, d.day, d.month, d.year);
  }
}
