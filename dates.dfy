/**
 * The date normaliser `parse_date` of hr_gsheet2db_dag.py and
 * hr_merge2gsheet_20241022.py, with the part of `datetime.strptime` it relies
 * on: the directives `%Y`, `%m`, `%d` over ASCII digits, literal separators,
 * and the calendar check `datetime.date` makes.
 */
module Dates {
  import opened Common
  import opened Text

  /** The Gregorian leap-year rule. */
  predicate IsLeapYear(y: int)
  {
    y % 4 == 0 && (y % 100 != 0 || y % 400 == 0)
  }

  function DaysInMonth(y: int, m: int): (n: int)
    requires 1 <= m <= 12
    ensures 28 <= n <= 31
    ensures n == 29 <==> m == 2 && IsLeapYear(y)
  {
    if m == 2 then (if IsLeapYear(y) then 29 else 28)
    else if m == 4 || m == 6 || m == 9 || m == 11 then 30
    else 31
  }

  /** The dates `datetime.date` accepts (its year range is 1..9999). */
  predicate ValidDate(d: Date)
  {
    1 <= d.year <= 9999 && 1 <= d.month <= 12 && 1 <= d.day <= DaysInMonth(d.year, d.month)
  }

  /** The three `strptime` directives the formats use. */
  datatype Directive = Year | Month | DayOfMonth

  /** The order in which a format names year, month and day. */
  datatype Order = YMD | MDY | DMY

  /** A format such as `'%m/%d/%Y'`: three directives joined by one literal separator. */
  datatype Format = Format(order: Order, sep: char)

  function Directives(o: Order): seq<Directive>
  {
    match o
    case YMD => [Year, Month, DayOfMonth]
    case MDY => [Month, DayOfMonth, Year]
    case DMY => [DayOfMonth, Month, Year]
  }

  /** The formats `parse_date` tries, in the order it tries them. */
  const DateFormats: seq<Format> := [
    Format(YMD, '-'),  // '%Y-%m-%d'
    Format(MDY, '/'),  // '%m/%d/%Y'
    Format(DMY, '-'),  // '%d-%m-%Y'
    Format(YMD, '/'),  // '%Y/%m/%d'
    Format(DMY, '/'),  // '%d/%m/%Y'
    Format(MDY, '-'),  // '%m-%d-%Y'
    Format(YMD, '.'),  // '%Y.%m.%d'
    Format(DMY, '.')   // '%d.%m.%Y'
  ]

  /** `'%Y-%m-%d'`, the format of every date `parse_date` returns. */
  const IsoFormat: Format := Format(YMD, '-')

  /** `'%Y/%m/%d'`, the only format hr_merge2gsheet_20250213.py accepts. */
  const SlashFormat: Format := Format(YMD, '/')

  predicate IsSeparator(c: char)
  {
    c == '-' || c == '/' || c == '.'
  }

  /** The length of the run of ASCII digits that starts `s`. */
  function DigitRun(s: string): (n: nat)
    ensures n <= |s| && AllDigits(s[..n])
    ensures n < |s| ==> !IsDigit(s[n])
  {
    if s != [] && IsDigit(s[0]) then 1 + DigitRun(s[1..]) else 0
  }

  lemma DigitRunOf(p: string, rest: string)
    requires AllDigits(p)
    requires rest == [] || !IsDigit(rest[0])
    ensures DigitRun(p + rest) == |p|
  {
    var s := p + rest;
    assert forall i :: 0 <= i < |p| ==> s[i] == p[i];
    assert rest != [] ==> s[|p|] == rest[0];
  }

  /**
   * The digit strings a directive matches: `%Y` exactly four digits; `%m`
   * one or two digits worth 1 to 12; `%d` one or two digits worth 1 to 31.
   */
  predicate Accepts(k: Directive, p: string)
    requires AllDigits(p)
  {
    match k
    case Year => |p| == 4
    case Month => 1 <= |p| <= 2 && 1 <= DigitsValue(p) <= 12
    case DayOfMonth => 1 <= |p| <= 2 && 1 <= DigitsValue(p) <= 31
  }

  /** Reads one directive from the front of `s`: its number and what follows it. */
  function ReadDirective(k: Directive, s: string): Option<(nat, string)>
  {
    var n := DigitRun(s);
    if Accepts(k, s[..n]) then Some((DigitsValue(s[..n]), s[n..])) else None
  }

  /** Reads the literal separator `sep` from the front of `s`. */
  function ReadSeparator(sep: char, s: string): Option<string>
  {
    if s != [] && s[0] == sep then Some(s[1..]) else None
  }

  /**
   * The pattern-matching half of `strptime`: the numbers of the directives
   * `ds`, read one after the other with `sep` between them, when the whole of
   * `s` matches ("unconverted data remains" is a failure too).
   */
  function ReadFields(ds: seq<Directive>, sep: char, s: string): Option<seq<nat>>
    requires ds != []
  {
    match ReadDirective(ds[0], s)
    case None => None
    case Some((v, rest)) =>
      if |ds| == 1 then (if rest == [] then Some([v]) else None)
      else match ReadSeparator(sep, rest)
        case None => None
        case Some(t) =>
          match ReadFields(ds[1..], sep, t)
          case None => None
          case Some(vs) => Some([v] + vs)
  }

  function Assemble(o: Order, a: int, b: int, c: int): Date
  {
    match o
    case YMD => Date(a, b, c)
    case MDY => Date(c, a, b)
    case DMY => Date(c, b, a)
  }

  /**
   * `datetime.strptime(s, f)`: the date when the whole of `s` matches the
   * format and names a real day, None where Python raises ValueError.
   */
  function Strptime(f: Format, s: string): (r: Option<Date>)
    ensures r.Some? ==> ValidDate(r.value)
  {
    match ReadFields(Directives(f.order), f.sep, s)
    case Some(vs) =>
      if |vs| == 3 && ValidDate(Assemble(f.order, vs[0], vs[1], vs[2]))
      then Some(Assemble(f.order, vs[0], vs[1], vs[2])) else None
    case None => None
  }

  /** A directive in front of a group of digits reads exactly that group. */
  lemma ReadDirectiveGroup(k: Directive, p: string, rest: string)
    requires AllDigits(p)
    requires rest == [] || !IsDigit(rest[0])
    ensures ReadDirective(k, p + rest) == if Accepts(k, p) then Some((DigitsValue(p), rest)) else None
  {
    DigitRunOf(p, rest);
    assert (p + rest)[..|p|] == p && (p + rest)[|p|..] == rest;
  }

  /** Reading the last directive: the group must be all that is left. */
  lemma ReadFieldsLast(k: Directive, sep: char, p: string)
    requires AllDigits(p)
    ensures ReadFields([k], sep, p) == if Accepts(k, p) then Some([DigitsValue(p)]) else None
  {
    ReadDirectiveGroup(k, p, []);
    assert p + [] == p;
  }

  /** Reading a directive that is followed by a separator and more directives. */
  lemma ReadFieldsStep(ds: seq<Directive>, sep: char, p: string, c: char, t: string)
    requires |ds| >= 2 && AllDigits(p) && !IsDigit(c)
    ensures ReadFields(ds, sep, p + [c] + t) ==
      if Accepts(ds[0], p) && c == sep then
        match ReadFields(ds[1..], sep, t)
        case None => None
        case Some(vs) => Some([DigitsValue(p)] + vs)
      else None
  {
    assert p + [c] + t == p + ([c] + t);
    ReadDirectiveGroup(ds[0], p, [c] + t);
    assert ([c] + t)[1..] == t;
  }

  /** The pattern half of `strptime` on three digit groups joined by a non-digit `c`. */
  lemma MatchGroups(ds: seq<Directive>, sep: char, p1: string, p2: string, p3: string, c: char)
    requires |ds| == 3
    requires AllDigits(p1) && AllDigits(p2) && AllDigits(p3) && !IsDigit(c)
    ensures ReadFields(ds, sep, p1 + [c] + p2 + [c] + p3) ==
              if c == sep && Accepts(ds[0], p1) && Accepts(ds[1], p2) && Accepts(ds[2], p3)
              then Some([DigitsValue(p1), DigitsValue(p2), DigitsValue(p3)]) else None
  {
    var tail := ReadFields(ds[1..], sep, p2 + [c] + p3);
    assert tail == if c == sep && Accepts(ds[1], p2) && Accepts(ds[2], p3)
                   then Some([DigitsValue(p2), DigitsValue(p3)]) else None by {
      ReadFieldsStep(ds[1..], sep, p2, c, p3);
      assert ds[1..][1..] == [ds[2]];
      ReadFieldsLast(ds[2], sep, p3);
      assert [DigitsValue(p2)] + [DigitsValue(p3)] == [DigitsValue(p2), DigitsValue(p3)];
    }
    assert p1 + [c] + p2 + [c] + p3 == p1 + [c] + (p2 + [c] + p3);
    ReadFieldsStep(ds, sep, p1, c, p2 + [c] + p3);
    assert [DigitsValue(p1)] + [DigitsValue(p2), DigitsValue(p3)] == [DigitsValue(p1), DigitsValue(p2), DigitsValue(p3)];
  }

  /**
   * How `strptime` reads three digit groups joined by a non-digit `c`: it
   * succeeds exactly when `c` is the format's separator, each group suits its
   * directive and the result is a real day.
   */
  lemma StrptimeGroups(f: Format, p1: string, p2: string, p3: string, c: char)
    requires AllDigits(p1) && AllDigits(p2) && AllDigits(p3) && !IsDigit(c)
    ensures var ds := Directives(f.order);
            var d := Assemble(f.order, DigitsValue(p1), DigitsValue(p2), DigitsValue(p3));
            Strptime(f, p1 + [c] + p2 + [c] + p3) ==
              if c == f.sep && Accepts(ds[0], p1) && Accepts(ds[1], p2) && Accepts(ds[2], p3) && ValidDate(d)
              then Some(d) else None
  {
    MatchGroups(Directives(f.order), f.sep, p1, p2, p3, c);
  }

  function Power10(w: nat): (p: nat)
    ensures p >= 1
  {
    if w == 0 then 1 else 10 * Power10(w - 1)
  }

  /** The last `w` decimal digits of `n`, zero-padded on the left, as strftime writes numbers. */
  function PadDigits(n: nat, w: nat): (r: string)
    requires n < Power10(w)
    ensures |r| == w && AllDigits(r) && DigitsValue(r) == n
  {
    if w == 0 then []
    else
      var r := PadDigits(n / 10, w - 1) + [DigitChar(n % 10)];
      assert r[..w - 1] == PadDigits(n / 10, w - 1);
      r
  }

  function DirectiveText(k: Directive, d: Date): string
    requires ValidDate(d)
  {
    match k
    case Year => PadDigits(d.year, 4)
    case Month => PadDigits(d.month, 2)
    case DayOfMonth => PadDigits(d.day, 2)
  }

  /** `d.strftime(f)`: the date written in the format, every number zero-padded. */
  function Render(f: Format, d: Date): string
    requires ValidDate(d)
  {
    var ds := Directives(f.order);
    DirectiveText(ds[0], d) + [f.sep] + DirectiveText(ds[1], d) + [f.sep] + DirectiveText(ds[2], d)
  }

  /**
   * `d.strftime('%Y-%m-%d')`: the calendar-date extended format of
   * ISO 8601:2004 section 5.2.1.1, ten characters `YYYY-MM-DD`.
   */
  function IsoDate(d: Date): (r: string)
    requires ValidDate(d)
    ensures IsIsoShaped(r)
  {
    Render(IsoFormat, d)
  }

  predicate IsIsoShaped(s: string)
  {
    |s| == 10 && s[4] == '-' && s[7] == '-' &&
    forall i :: 0 <= i < 10 && i != 4 && i != 7 ==> IsDigit(s[i])
  }

  /** The same day with month and day exchanged, as a day-first/month-first mix-up reads it. */
  function Swap(d: Date): Date
  {
    Date(d.year, d.day, d.month)
  }

  /** The number a directive writes for `d`. */
  function Component(k: Directive, d: Date): int
  {
    match k
    case Year => d.year
    case Month => d.month
    case DayOfMonth => d.day
  }

  /**
   * Which directive accepts which written number: the four year digits only
   * `%Y`; a written month both `%m` and `%d`; a written day `%d`, and `%m`
   * too when it is at most 12.
   */
  lemma AcceptsText(k: Directive, t: Directive, d: Date)
    requires ValidDate(d)
    ensures DigitsValue(DirectiveText(t, d)) == Component(t, d)
    ensures Accepts(k, DirectiveText(t, d)) <==>
      ((k == Year) == (t == Year) && (k == Month && t == DayOfMonth ==> d.day <= 12))
  {
  }

  /** `strptime` reads a date written with its own format back as the same date. */
  lemma StrptimeRender(f: Format, d: Date)
    requires ValidDate(d) && IsSeparator(f.sep)
    ensures Strptime(f, Render(f, d)) == Some(d)
  {
    var ds := Directives(f.order);
    var p1, p2, p3 := DirectiveText(ds[0], d), DirectiveText(ds[1], d), DirectiveText(ds[2], d);
    AcceptsText(ds[0], ds[0], d);
    AcceptsText(ds[1], ds[1], d);
    AcceptsText(ds[2], ds[2], d);
    AssembleComponents(f.order, d);
    StrptimeGroups(f, p1, p2, p3, f.sep);
  }

  /** Putting back together the numbers a format writes gives the date. */
  lemma AssembleComponents(o: Order, d: Date)
    ensures var ds := Directives(o);
      Assemble(o, Component(ds[0], d), Component(ds[1], d), Component(ds[2], d)) == d
  {
  }

  /** A format with another separator never reads a rendered date. */
  lemma StrptimeOtherSeparator(g: Format, f: Format, d: Date)
    requires ValidDate(d) && IsSeparator(f.sep) && g.sep != f.sep
    ensures Strptime(g, Render(f, d)) == None
  {
    var ds := Directives(f.order);
    MatchGroups(Directives(g.order), g.sep, DirectiveText(ds[0], d), DirectiveText(ds[1], d), DirectiveText(ds[2], d), f.sep);
  }

  /** Year-first and year-last formats never read each other's output. */
  lemma StrptimeYearClash(g: Format, f: Format, d: Date)
    requires ValidDate(d) && IsSeparator(f.sep)
    requires (g.order == YMD) != (f.order == YMD)
    ensures Strptime(g, Render(f, d)) == None
  {
    var ds := Directives(f.order);
    var gs := Directives(g.order);
    var p1, p2, p3 := DirectiveText(ds[0], d), DirectiveText(ds[1], d), DirectiveText(ds[2], d);
    AcceptsText(gs[0], ds[0], d);
    assert !Accepts(gs[0], p1);
    MatchGroups(Directives(g.order), g.sep, p1, p2, p3, f.sep);
  }

  /**
   * Month-first and day-first formats read each other's output as the
   * swapped date when the written day is at most 12, and fail otherwise.
   */
  lemma StrptimeCrossed(g: Format, f: Format, d: Date)
    requires ValidDate(d) && IsSeparator(f.sep) && g.sep == f.sep
    requires g.order != YMD && f.order != YMD && g.order != f.order
    ensures Strptime(g, Render(f, d)) == if d.day <= 12 then Some(Swap(d)) else None
  {
    var ds := Directives(f.order);
    var gs := Directives(g.order);
    var p1, p2, p3 := DirectiveText(ds[0], d), DirectiveText(ds[1], d), DirectiveText(ds[2], d);
    AcceptsText(gs[0], ds[0], d);
    AcceptsText(gs[1], ds[1], d);
    AcceptsText(gs[2], ds[2], d);
    AssembleCrossed(g.order, f.order, d);
    StrptimeGroups(g, p1, p2, p3, f.sep);
  }

  /** A day-first format puts a month-first date's numbers together as the swapped date, and the other way round. */
  lemma AssembleCrossed(o: Order, w: Order, d: Date)
    requires o != YMD && w != YMD && o != w
    ensures var ds := Directives(w);
      Assemble(o, Component(ds[0], d), Component(ds[1], d), Component(ds[2], d)) == Swap(d)
  {
  }

  function Reread(g: Format, f: Format, d: Date): Option<Date>
  {
    if g.sep != f.sep then None
    else if g.order == f.order then Some(d)
    else if g.order == YMD || f.order == YMD then None
    else if d.day <= 12 then Some(Swap(d))
    else None
  }

  /**
   * Reading a rendered date back with any format of the list: the same
   * format gives the date back; a format with another separator, or one that
   * disagrees on where the year is, fails; month-first and day-first read
   * each other's output as the swapped date exactly when the day is at most 12.
   */
  lemma StrptimeRendered(g: Format, f: Format, d: Date)
    requires ValidDate(d) && IsSeparator(f.sep)
    ensures Strptime(g, Render(f, d)) == Reread(g, f, d)
  {
    if g.sep != f.sep {
      StrptimeOtherSeparator(g, f, d);
    } else if g.order == f.order {
      assert g == f;
      StrptimeRender(f, d);
    } else if g.order == YMD || f.order == YMD {
      StrptimeYearClash(g, f, d);
    } else {
      StrptimeCrossed(g, f, d);
    }
  }

  /** What `strptime` makes of `s` under each format of `fs`, in order. */
  function Attempts(fs: seq<Format>, s: string): (r: seq<Option<Date>>)
    ensures |r| == |fs| && forall j :: 0 <= j < |fs| ==> r[j] == Strptime(fs[j], s)
  {
    seq(|fs|, j requires 0 <= j < |fs| => Strptime(fs[j], s))
  }

  /**
   * The loop of `parse_date`: the first attempt that succeeded, with its
   * position; every attempt before it failed. None when all of them failed.
   */
  function FirstSuccess(attempts: seq<Option<Date>>): (r: Option<(nat, Date)>)
    ensures r.Some? ==> r.value.0 < |attempts| && attempts[r.value.0] == Some(r.value.1) &&
                        forall j :: 0 <= j < r.value.0 ==> attempts[j].None?
    ensures r.None? <==> forall j :: 0 <= j < |attempts| ==> attempts[j].None?
  {
    if attempts == [] then None
    else if attempts[0].Some? then Some((0, attempts[0].value))
    else match FirstSuccess(attempts[1..])
      case None => None
      case Some((i, d)) => Some((i + 1, d))
  }

  /** An attempt that succeeded after every earlier one failed is the one `FirstSuccess` picks. */
  lemma FirstSuccessIs(attempts: seq<Option<Date>>, i: nat, d: Date)
    requires i < |attempts| && attempts[i] == Some(d)
    requires forall j :: 0 <= j < i ==> attempts[j].None?
    ensures FirstSuccess(attempts) == Some((i, d))
  {
    var r := FirstSuccess(attempts);
    assert r.Some?;
    assert r.value.0 >= i;
  }

  /**
   * The loop of `parse_date` on an already stripped string: the first format
   * that accepts it decides the day, written as `YYYY-MM-DD`; `'NA'` when no
   * format does.
   */
  function ReadFirst(t: string): (r: string)
    ensures r == "NA" || IsIsoShaped(r)
  {
    match FirstSuccess(Attempts(DateFormats, t))
    case Some((_, d)) => IsoDate(d)
    case None => "NA"
  }

  /**
   * `parse_date`: `'NA'` for `''` and `'-'`; otherwise the stripped string
   * read with the first format that accepts it, written as `YYYY-MM-DD`; and
   * `'NA'` again when no format does.
   */
  function ParseDate(s: string): (r: string)
    ensures r == "NA" || IsIsoShaped(r)
  {
    if s == "" || s == "-" then "NA" else ReadFirst(Strip(s))
  }

  /** The first format that accepts the stripped input decides the date. */
  lemma ParseDateFirstFormatWins(s: string, i: nat, d: Date)
    requires s != "" && s != "-"
    requires i < |DateFormats| && Strptime(DateFormats[i], Strip(s)) == Some(d)
    requires forall j :: 0 <= j < i ==> Strptime(DateFormats[j], Strip(s)).None?
    ensures ParseDate(s) == IsoDate(d)
  {
    FirstSuccessIs(Attempts(DateFormats, Strip(s)), i, d);
  }

  /** `'NA'` comes out exactly for `''`, `'-'` and strings no format accepts. */
  lemma ParseDateAbsent(s: string)
    ensures ParseDate(s) == "NA" <==>
      s == "" || s == "-" || forall j :: 0 <= j < |DateFormats| ==> Strptime(DateFormats[j], Strip(s)).None?
  {
  }

  /** A rendered date is ten characters that start and end with a digit. */
  lemma RenderedShape(f: Format, d: Date)
    requires ValidDate(d)
    ensures var s := Render(f, d); |s| == 10 && IsDigit(s[0]) && IsDigit(s[9])
  {
    var ds := Directives(f.order);
    var p1, p3 := DirectiveText(ds[0], d), DirectiveText(ds[2], d);
    var s := Render(f, d);
    assert s[0] == p1[0];
    assert s[9] == p3[|p3| - 1];
  }

  /** A rendered date is its own strip and is neither `''` nor `'-'`. */
  lemma ParseDateOfRendered(f: Format, d: Date)
    requires ValidDate(d)
    ensures ParseDate(Render(f, d)) == ReadFirst(Render(f, d))
  {
    var s := Render(f, d);
    RenderedShape(f, d);
    StripOfTrimmed(s);
  }

  /** Which format of the list first reads a date written in format `i`, and as which day. */
  function Rereader(i: nat, d: Date): (nat, Date)
  {
    if (i == 4 || i == 5) && d.day <= 12 then (i - 3, Swap(d)) else (i, d)
  }

  lemma FirstRereader(i: nat, d: Date)
    requires i < |DateFormats| && ValidDate(d)
    ensures FirstSuccess(Attempts(DateFormats, Render(DateFormats[i], d))) == Some(Rereader(i, d))
  {
    var f := DateFormats[i];
    var attempts := Attempts(DateFormats, Render(f, d));
    var (k, e) := Rereader(i, d);
    StrptimeRendered(DateFormats[k], f, d);
    RereadAt(i, d);
    forall j | 0 <= j < k ensures attempts[j].None? {
      StrptimeRendered(DateFormats[j], f, d);
      RereadEarlier(i, j, d);
    }
    FirstSuccessIs(attempts, k, e);
  }

  /** The format `Rereader` names reads a date written in format `i` as the day it names. */
  lemma RereadAt(i: nat, d: Date)
    requires i < |DateFormats|
    ensures var (k, e) := Rereader(i, d);
      k < |DateFormats| && Reread(DateFormats[k], DateFormats[i], d) == Some(e)
  {
  }

  /** No format before the one `Rereader` names reads a date written in format `i`. */
  lemma RereadEarlier(i: nat, j: nat, d: Date)
    requires i < |DateFormats| && j < Rereader(i, d).0
    ensures Reread(DateFormats[j], DateFormats[i], d) == None
  {
  }

  /**
   * Every candidate format is understood: a real day written in format `i`
   * comes out as that day, except that a day-first `'%d/%m/%Y'` or
   * month-first `'%m-%d-%Y'` date whose day is at most 12 is read by the
   * earlier format of the opposite convention, with day and month exchanged.
   */
  lemma ParseDateRendered(i: nat, d: Date)
    requires i < |DateFormats| && ValidDate(d)
    ensures ParseDate(Render(DateFormats[i], d)) ==
      IsoDate(if (i == 4 || i == 5) && d.day <= 12 then Swap(d) else d)
  {
    ParseDateOfRendered(DateFormats[i], d);
    FirstRereader(i, d);
  }

  /** `'NA'` itself is no date: `parse_date` leaves it as it is. */
  lemma ParseDateNA()
    ensures ParseDate("NA") == "NA"
  {
    StripOfTrimmed("NA");
    var attempts := Attempts(DateFormats, "NA");
    forall j | 0 <= j < |DateFormats| ensures attempts[j].None? {
      assert DigitRun("NA") == 0;
    }
  }

  /** `parse_date` is idempotent: its outputs, `'NA'` included, read back as themselves. */
  lemma ParseDateIdempotent(s: string)
    ensures ParseDate(ParseDate(s)) == ParseDate(s)
  {
    if s == "" || s == "-" || FirstSuccess(Attempts(DateFormats, Strip(s))).None? {
      ParseDateNA();
    } else {
      var d := FirstSuccess(Attempts(DateFormats, Strip(s))).value.1;
      assert ParseDate(s) == Render(DateFormats[0], d);
      ParseDateRendered(0, d);
    }
  }

  /** A fixed-width group of digits is the zero-padded rendering of the number it denotes. */
  lemma {:induction false} PadDigitsOfDigits(p: string)
    requires AllDigits(p)
    ensures DigitsValue(p) < Power10(|p|) && PadDigits(DigitsValue(p), |p|) == p
  {
    if p != [] {
      var init, last := p[..|p| - 1], p[|p| - 1];
      PadDigitsOfDigits(init);
      var v := DigitsValue(p);
      assert v / 10 == DigitsValue(init) && v % 10 == last as int - '0' as int;
      assert p == init + [last];
    }
  }

  /** The written form of a day, given the digit groups of its year, month and day. */
  lemma RenderOfGroups(f: Format, y: string, m: string, dd: string, d: Date, s: string)
    requires AllDigits(y) && AllDigits(m) && AllDigits(dd) && |y| == 4 && |m| == 2 && |dd| == 2
    requires d == Date(DigitsValue(y), DigitsValue(m), DigitsValue(dd)) && ValidDate(d)
    requires s == match f.order
                  case YMD => y + [f.sep] + m + [f.sep] + dd
                  case MDY => m + [f.sep] + dd + [f.sep] + y
                  case DMY => dd + [f.sep] + m + [f.sep] + y
    ensures s == Render(f, d)
  {
    PadDigitsOfDigits(y);
    PadDigitsOfDigits(m);
    PadDigitsOfDigits(dd);
  }

  /**
   * Month-first is tried before day-first: any `a/b/YYYY` naming a valid
   * day with month `a` (`'01/02/2024'`, also `'01/13/2024'`) is month `a`,
   * day `b`, even where day-first would also have read it.
   */
  lemma ParseDateMonthFirst(a: string, b: string, y: string)
    requires AllDigits(a) && AllDigits(b) && AllDigits(y) && |a| == 2 && |b| == 2 && |y| == 4
    requires ValidDate(Date(DigitsValue(y), DigitsValue(a), DigitsValue(b)))
    ensures ParseDate(a + "/" + b + "/" + y) == y + "-" + a + "-" + b
  {
    var d := Date(DigitsValue(y), DigitsValue(a), DigitsValue(b));
    RenderOfGroups(DateFormats[1], y, a, b, d, a + "/" + b + "/" + y);
    RenderOfGroups(IsoFormat, y, a, b, d, y + "-" + a + "-" + b);
    ParseDateRendered(1, d);
  }

  /**
   * A first number above 12 cannot be a month: `a/b/YYYY` with `a` above 12
   * (`'13/02/2024'`) is read day-first, as day `a` of month `b`.
   */
  lemma ParseDateDayFirst(a: string, b: string, y: string)
    requires AllDigits(a) && AllDigits(b) && AllDigits(y) && |a| == 2 && |b| == 2 && |y| == 4
    requires DigitsValue(a) > 12 && ValidDate(Date(DigitsValue(y), DigitsValue(b), DigitsValue(a)))
    ensures ParseDate(a + "/" + b + "/" + y) == y + "-" + b + "-" + a
  {
    var d := Date(DigitsValue(y), DigitsValue(b), DigitsValue(a));
    RenderOfGroups(DateFormats[4], y, b, a, d, a + "/" + b + "/" + y);
    RenderOfGroups(IsoFormat, y, b, a, d, y + "-" + b + "-" + a);
    ParseDateRendered(4, d);
  }

  /**
   * Shapes that fit a format but name no real day give `'NA'`:
   * `YYYY-mm-dd` with a month above 12 or a day past the month's end
   * (`'2024-13-01'`, `'2023-02-30'`).
   */
  lemma ParseDateNoSuchDay(y: string, m: string, dd: string)
    requires AllDigits(y) && AllDigits(m) && AllDigits(dd) && |y| == 4 && dd != []
    requires !ValidDate(Date(DigitsValue(y), DigitsValue(m), DigitsValue(dd)))
    ensures ParseDate(y + "-" + m + "-" + dd) == "NA"
  {
    var s := y + ['-'] + m + ['-'] + dd;
    assert s[0] == y[0] && s[|s| - 1] == dd[|dd| - 1];
    assert !IsSpace(s[0]) && !IsSpace(s[|s| - 1]);
    StripOfTrimmed(s);
    ReadFirstNoSuchDay(y, m, dd);
    assert |s| > 1;
    assert ParseDate(s) == ReadFirst(s);
  }

  /** No format reads `YYYY-mm-dd` when its numbers name no real day. */
  lemma ReadFirstNoSuchDay(y: string, m: string, dd: string)
    requires AllDigits(y) && AllDigits(m) && AllDigits(dd) && |y| == 4
    requires !ValidDate(Date(DigitsValue(y), DigitsValue(m), DigitsValue(dd)))
    ensures ReadFirst(y + ['-'] + m + ['-'] + dd) == "NA"
  {
    var attempts := Attempts(DateFormats, y + ['-'] + m + ['-'] + dd);
    forall j | 0 <= j < |DateFormats| ensures attempts[j].None? {
      StrptimeGroups(DateFormats[j], y, m, dd, '-');
    }
  }

  /**
   * Line 139: a date column is re-read from `parse_date`'s output with
   * `'%Y-%m-%d'`; None (SQL NULL) when that output is `'NA'`, the day
   * otherwise, and None here too where `strptime` would raise.
   */
  function DateColumn(cell: string): Option<Value>
  {
    var p := ParseDate(cell);
    if p == "NA" then Some(Null)
    else match Strptime(IsoFormat, p)
      case Some(d) => Some(Day(d))
      case None => None
  }

  /**
   * The re-read at line 139 never fails: a date column is NULL exactly when
   * `parse_date` gave `'NA'`, and otherwise holds the day `parse_date` wrote.
   */
  lemma DateColumnAgrees(cell: string)
    ensures DateColumn(cell).Some?
    ensures DateColumn(cell).value == Null <==> ParseDate(cell) == "NA"
    ensures ParseDate(cell) != "NA" ==>
      DateColumn(cell).value.Day? && ValidDate(DateColumn(cell).value.d) &&
      IsoDate(DateColumn(cell).value.d) == ParseDate(cell)
  {
    var p := ParseDate(cell);
    if p != "NA" {
      var d := FirstSuccess(Attempts(DateFormats, Strip(cell))).value.1;
      StrptimeRender(IsoFormat, d);
    }
  }
}
