/**
 * What the date rule does with the common slash-separated layouts: `MM/DD/YYYY` is read
 * month first whenever it names a real date, `DD/MM/YYYY` is read day first when the
 * day cannot be a month, and a slash-separated date that does not exist in the
 * calendar is left as it was written.
 */
module DateLayouts {
  import opened Options
  import opened Text
  import opened Dates
  import opened Normalize

  /** The text `a/b/c`. */
  function Slashed(a: string, b: string, c: string): string {
    a + "/" + b + "/" + c
  }

  lemma SlashedLayout(a: string, b: string, c: string)
    requires |a| == 2 && |b| == 2 && |c| == 4
    ensures var s := Slashed(a, b, c);
            && |s| == 10 && s[..2] == a && s[0..2] == a && s[2] == '/' && s[3..5] == b
            && s[5] == '/' && s[6..10] == c && s[6..] == c
  {
  }

  // -------------------------------------------------------------- matching steps

  lemma StrptimeMissing(s: string, fmt: Format)
    requires Match(fmt, s, 0).None?
    ensures Strptime(s, fmt).None?
  {
  }

  lemma StrptimeRejects(s: string, fmt: Format, caps: seq<Capture>)
    requires Match(fmt, s, 0) == Some((caps, |s|)) && !ValidDateTime(Build(caps))
    ensures Strptime(s, fmt).None?
  {
  }

  /** A literal found at `i` after which the rest cannot match. */
  lemma LiteralDeadEnd(fmt: Format, s: string, i: nat)
    requires fmt != [] && fmt[0].Lit? && i < |s| && s[i] == fmt[0].c
    requires Match(fmt[1..], s, i + 1).None?
    ensures Match(fmt, s, i).None?
  {
    assert Ends(fmt[0], s, i) == [i + 1];
    MatchNone(fmt, s, i);
  }

  /** A digit is never the slash a format expects. */
  lemma DigitNotSlash(fmt: Format, s: string, i: nat)
    requires fmt != [] && fmt[0] == Lit('/') && i < |s| && IsDigit(s[i])
    ensures Match(fmt, s, i).None?
  {
    LiteralMissing(fmt, s, i);
  }

  // ------------------------------------------------------------ single formats

  /** `%m/%d/%Y` reads `MM/DD/YYYY` as that month and day, and the `datetime`
      constructor then accepts it exactly when the date exists. */
  lemma MonthFirstReads(fmt: Format, y: int, m: int, d: int)
    requires |fmt| == 5 && fmt[0] == Month && fmt[1] == Lit('/') && fmt[2] == Day
    requires fmt[3] == Lit('/') && fmt[4] == Year
    requires 1 <= y <= 9999 && 1 <= m <= 12 && 1 <= d <= 31
    ensures Strptime(Slashed(Pad2(m), Pad2(d), Pad4(y)), fmt)
            == if ValidDate(y, m, d) then Some(DateTime(y, m, d, 0, 0, 0, 0)) else None
  {
    var s := Slashed(Pad2(m), Pad2(d), Pad4(y));
    SlashedLayout(Pad2(m), Pad2(d), Pad4(y));
    MonthEnds(s, 0, m);
    DayEnds(s, 3, d);
    YearEnds(s, 6);
    MatchThree(fmt, s, 2, 5);
    var caps := [Capture(Month, Pad2(m)), Capture(Day, Pad2(d)), Capture(Year, Pad4(y))];
    assert caps[0] in caps && caps[1] in caps && caps[2] in caps;
    BuildDate(caps, Pad4(y), Pad2(m), Pad2(d));
    Pad4Value(y);
    Pad2Value(m);
    Pad2Value(d);
    if ValidDate(y, m, d) {
      StrptimeOf(s, fmt, caps, DateTime(y, m, d, 0, 0, 0, 0));
    } else {
      StrptimeRejects(s, fmt, caps);
    }
  }

  /** `%d/%m/%Y` reads `DD/MM/YYYY` of a real date as that date. */
  lemma DayFirstReads(fmt: Format, y: int, m: int, d: int)
    requires |fmt| == 5 && fmt[0] == Day && fmt[1] == Lit('/') && fmt[2] == Month
    requires fmt[3] == Lit('/') && fmt[4] == Year
    requires ValidDate(y, m, d)
    ensures Strptime(Slashed(Pad2(d), Pad2(m), Pad4(y)), fmt) == Some(DateTime(y, m, d, 0, 0, 0, 0))
  {
    var s := Slashed(Pad2(d), Pad2(m), Pad4(y));
    SlashedLayout(Pad2(d), Pad2(m), Pad4(y));
    DayEnds(s, 0, d);
    MonthEnds(s, 3, m);
    YearEnds(s, 6);
    MatchThree(fmt, s, 2, 5);
    var caps := [Capture(Day, Pad2(d)), Capture(Month, Pad2(m)), Capture(Year, Pad4(y))];
    assert caps[0] in caps && caps[1] in caps && caps[2] in caps;
    BuildDate(caps, Pad4(y), Pad2(m), Pad2(d));
    Pad4Value(y);
    Pad2Value(m);
    Pad2Value(d);
    StrptimeOf(s, fmt, caps, DateTime(y, m, d, 0, 0, 0, 0));
  }

  /** `%m/...` cannot read a first number from 13 to 31: `%m` takes its first digit
      alone, and the slash is not there. */
  lemma MonthFirstRefuses(fmt: Format, a: int, b: string, c: string)
    requires |fmt| >= 2 && fmt[0] == Month && fmt[1] == Lit('/')
    requires 13 <= a <= 31 && |b| == 2 && |c| == 4
    ensures Strptime(Slashed(Pad2(a), b, c), fmt).None?
  {
    var s := Slashed(Pad2(a), b, c);
    SlashedLayout(Pad2(a), b, c);
    MonthReadsOneDigitOf(s, 0, a);
    assert fmt[1..][0] == Lit('/');
    DigitNotSlash(fmt[1..], s, 1);
    MatchNone(fmt, s, 0);
    StrptimeMissing(s, fmt);
  }

  /** `%d/%m/%Y` cannot read `MM/DD/YYYY` when the second number is from 13 to 31. */
  lemma DayFirstRefuses(fmt: Format, a: int, n: int, c: string)
    requires |fmt| == 5 && fmt[0] == Day && fmt[1] == Lit('/') && fmt[2] == Month
    requires fmt[3] == Lit('/') && fmt[4] == Year
    requires 1 <= a <= 12 && 13 <= n <= 31 && |c| == 4
    ensures Strptime(Slashed(Pad2(a), Pad2(n), c), fmt).None?
  {
    var s := Slashed(Pad2(a), Pad2(n), c);
    SlashedLayout(Pad2(a), Pad2(n), c);
    assert IsDigit(Pad2(a)[1]) && IsDigit(Pad2(n)[1]);
    assert IsDigit(s[1]) && IsDigit(s[4]);
    var month := fmt[2..];
    assert month[0] == Month && month[1] == Lit('/');
    MonthReadsOneDigitOf(s, 3, n);
    OneDigitDeadEnd(month, s, 3);
    DayOneOrTwo(s, 0);
    TwoDigitsDeadEnd(fmt, s, 0);
    StrptimeMissing(s, fmt);
  }

  /** A directive that can only stop after one character, followed by `/`, finds no
      slash where a digit is. */
  lemma OneDigitDeadEnd(fmt: Format, s: string, i: nat)
    requires |fmt| >= 2 && fmt[1] == Lit('/') && i + 1 < |s|
    requires Ends(fmt[0], s, i) == [i + 1] && IsDigit(s[i + 1])
    ensures Match(fmt, s, i).None?
  {
    var rest := fmt[1..];
    assert rest[0] == Lit('/');
    DigitNotSlash(rest, s, i + 1);
    MatchNone(fmt, s, i);
  }

  /** Every place directive `d` begun at `i` may stop is one or two characters on. */
  predicate OneOrTwo(d: Directive, s: string, i: nat)
    requires i <= |s|
  {
    forall k :: 0 <= k < |Ends(d, s, i)| ==> i + 1 <= Ends(d, s, i)[k] <= i + 2
  }

  /** A one- or two-digit directive followed by `/` cannot get past two digits and a
      slash when what comes after that slash cannot match. */
  lemma TwoDigitsDeadEnd(fmt: Format, s: string, i: nat)
    requires |fmt| >= 2 && fmt[1] == Lit('/') && i + 2 < |s|
    requires OneOrTwo(fmt[0], s, i) && IsDigit(s[i + 1]) && s[i + 2] == '/'
    requires Match(fmt[2..], s, i + 3).None?
    ensures Match(fmt, s, i).None?
  {
    var ends := Ends(fmt[0], s, i);
    var rest := fmt[1..];
    assert rest[0] == Lit('/') && rest[1..] == fmt[2..];
    forall k | 0 <= k < |ends|
      ensures Match(rest, s, ends[k]).None?
    {
      if ends[k] == i + 1 {
        DigitNotSlash(rest, s, i + 1);
      } else {
        LiteralDeadEnd(rest, s, i + 2);
      }
    }
    MatchNone(fmt, s, i);
  }

  /** `%Y` and a blank find no blank after four digits that end the text. */
  lemma YearBlankDeadEnd(fmt: Format, s: string, i: nat)
    requires |fmt| >= 2 && fmt[0] == Year && fmt[1] == Blank
    requires i + 4 == |s| && AllDigits(s[i..])
    ensures Match(fmt, s, i).None?
  {
    assert s[i..i + 4] == s[i..];
    YearEnds(s, i);
    var rest := fmt[1..];
    assert rest[0] == Blank;
    assert Ends(Blank, s, |s|) == [];
    MatchNone(rest, s, |s|);
    MatchNone(fmt, s, i);
  }

  lemma MonthOneOrTwo(s: string, i: nat)
    requires i <= |s|
    ensures OneOrTwo(Month, s, i)
  {
    NarrowEnds(Month, s, i);
  }

  lemma DayOneOrTwo(s: string, i: nat)
    requires i <= |s|
    ensures OneOrTwo(Day, s, i)
  {
    NarrowEnds(Day, s, i);
  }

  /** A date alone does not satisfy `%m/%d/%Y %H:%M:%S`: nothing is left for the blank. */
  lemma DateTimeNeedsTime(fmt: Format, a: string, b: string, c: string)
    requires |fmt| >= 6 && fmt[0] == Month && fmt[1] == Lit('/') && fmt[2] == Day
    requires fmt[3] == Lit('/') && fmt[4] == Year && fmt[5] == Blank
    requires |a| == 2 && |b| == 2 && |c| == 4 && AllDigits(a) && AllDigits(b) && AllDigits(c)
    ensures Strptime(Slashed(a, b, c), fmt).None?
  {
    var s := Slashed(a, b, c);
    SlashedLayout(a, b, c);
    assert IsDigit(s[1]) && IsDigit(s[4]);
    var year, day := fmt[4..], fmt[2..];
    assert year[0] == Year && year[1] == Blank;
    YearBlankDeadEnd(year, s, 6);
    assert day[0] == Day && day[1] == Lit('/') && day[2..] == year;
    DayOneOrTwo(s, 3);
    TwoDigitsDeadEnd(day, s, 3);
    MonthOneOrTwo(s, 0);
    TwoDigitsDeadEnd(fmt, s, 0);
    StrptimeMissing(s, fmt);
  }

  /** Formats that begin with `%Y` cannot read a slash-separated date that begins with
      two digits. */
  lemma YearFirstRefuses(fmt: Format, a: string, b: string, c: string)
    requires fmt != [] && fmt[0] == Year
    requires |a| == 2 && |b| == 2 && |c| == 4
    ensures Strptime(Slashed(a, b, c), fmt).None?
  {
    var s := Slashed(a, b, c);
    SlashedLayout(a, b, c);
    YearMissing(fmt, s, 0, 2);
    StrptimeMissing(s, fmt);
  }

  // -------------------------------------------------------------- the date rule

  /** What the date rule's format list looks like where slash-separated dates are
      concerned: `%m/%d/%Y` second, `%d/%m/%Y` third, `%m/%d/%Y %H:%M:%S` sixth, and every
      other format beginning with `%Y`. */
  predicate SlashLayouts(fmts: seq<Format>) {
    && |fmts| == 8
    && |fmts[1]| == 5 && fmts[1][0] == Month && fmts[1][1] == Lit('/') && fmts[1][2] == Day
    && fmts[1][3] == Lit('/') && fmts[1][4] == Year
    && |fmts[2]| == 5 && fmts[2][0] == Day && fmts[2][1] == Lit('/') && fmts[2][2] == Month
    && fmts[2][3] == Lit('/') && fmts[2][4] == Year
    && |fmts[5]| >= 6 && fmts[5][0] == Month && fmts[5][1] == Lit('/') && fmts[5][2] == Day
    && fmts[5][3] == Lit('/') && fmts[5][4] == Year && fmts[5][5] == Blank
    && fmts[0] != [] && fmts[0][0] == Year && fmts[3] != [] && fmts[3][0] == Year
    && fmts[4] != [] && fmts[4][0] == Year && fmts[6] != [] && fmts[6][0] == Year
    && fmts[7] != [] && fmts[7][0] == Year
  }

  lemma DateFormatsLayouts()
    ensures SlashLayouts(DateFormats)
  {
  }

  /** Under such a format list, `MM/DD/YYYY` of a real date is read month first. */
  lemma MonthFirstParses(fmts: seq<Format>, y: int, m: int, d: int)
    requires SlashLayouts(fmts) && ValidDate(y, m, d)
    ensures FirstParse(Slashed(Pad2(m), Pad2(d), Pad4(y)), fmts) == Some(DateTime(y, m, d, 0, 0, 0, 0))
  {
    var s := Slashed(Pad2(m), Pad2(d), Pad4(y));
    YearFirstRefuses(fmts[0], Pad2(m), Pad2(d), Pad4(y));
    MonthFirstReads(fmts[1], y, m, d);
    FirstParseAt(s, fmts, 1);
  }

  /** Under such a format list, `DD/MM/YYYY` of a real date whose day is 13 or more is
      read day first. */
  lemma DayFirstParses(fmts: seq<Format>, y: int, m: int, d: int)
    requires SlashLayouts(fmts) && ValidDate(y, m, d) && d >= 13
    ensures FirstParse(Slashed(Pad2(d), Pad2(m), Pad4(y)), fmts) == Some(DateTime(y, m, d, 0, 0, 0, 0))
  {
    var s := Slashed(Pad2(d), Pad2(m), Pad4(y));
    YearFirstRefuses(fmts[0], Pad2(d), Pad2(m), Pad4(y));
    MonthFirstRefuses(fmts[1], d, Pad2(m), Pad4(y));
    DayFirstReads(fmts[2], y, m, d);
    ThirdParses(s, fmts, DateTime(y, m, d, 0, 0, 0, 0));
  }

  /** The first two formats fail and the third reads `t`. */
  lemma ThirdParses(s: string, fmts: seq<Format>, t: DateTime)
    requires |fmts| >= 3 && Strptime(s, fmts[0]).None? && Strptime(s, fmts[1]).None?
    requires Strptime(s, fmts[2]) == Some(t)
    ensures FirstParse(s, fmts) == Some(t)
  {
    var rest := fmts[1..];
    var last := rest[1..];
    assert rest[0] == fmts[1] && last[0] == fmts[2];
    assert FirstParse(s, last) == Some(t);
    assert FirstParse(s, rest) == FirstParse(s, last);
  }

  /** Under such a format list, `MM/DD/YYYY` naming a day its month does not have is read
      by no format. */
  lemma MissingDayParsesNot(fmts: seq<Format>, y: int, m: int, d: int)
    requires SlashLayouts(fmts)
    requires 1 <= y <= 9999 && 1 <= m <= 12 && 13 <= d <= 31 && d > DaysInMonth(y, m)
    ensures FirstParse(Slashed(Pad2(m), Pad2(d), Pad4(y)), fmts).None?
  {
    var s := Slashed(Pad2(m), Pad2(d), Pad4(y));
    forall k | 0 <= k < |fmts|
      ensures Strptime(s, fmts[k]).None?
    {
      if k == 1 {
        MonthFirstReads(fmts[1], y, m, d);
      } else if k == 2 {
        DayFirstRefuses(fmts[2], m, d, Pad4(y));
      } else if k == 5 {
        DateTimeNeedsTime(fmts[5], Pad2(m), Pad2(d), Pad4(y));
      } else {
        YearFirstRefuses(fmts[k], Pad2(m), Pad2(d), Pad4(y));
      }
    }
    FirstParseFirst(s, fmts);
  }

  /** `MM/DD/YYYY` of a real date becomes `YYYY-MM-DD`; when both numbers could be a
      month, the month-first reading wins. */
  lemma MonthFirstNormalized(y: int, m: int, d: int)
    requires ValidDate(y, m, d)
    ensures NormalizeDate(Slashed(Pad2(m), Pad2(d), Pad4(y))) == IsoDate(y, m, d)
  {
    DateFormatsLayouts();
    MonthFirstParses(DateFormats, y, m, d);
  }

  /** `DD/MM/YYYY` of a real date whose day is 13 or more becomes `YYYY-MM-DD`. */
  lemma DayFirstNormalized(y: int, m: int, d: int)
    requires ValidDate(y, m, d) && d >= 13
    ensures NormalizeDate(Slashed(Pad2(d), Pad2(m), Pad4(y))) == IsoDate(y, m, d)
  {
    DateFormatsLayouts();
    DayFirstParses(DateFormats, y, m, d);
  }

  /** `MM/DD/YYYY` naming a day the month does not have, such as `02/30/2024`, is kept
      as written: no format reads it. */
  lemma MissingDayKept(y: int, m: int, d: int)
    requires 1 <= y <= 9999 && 1 <= m <= 12 && 13 <= d <= 31 && d > DaysInMonth(y, m)
    ensures NormalizeDate(Slashed(Pad2(m), Pad2(d), Pad4(y))) == Slashed(Pad2(m), Pad2(d), Pad4(y))
  {
    DateFormatsLayouts();
    MissingDayParsesNot(DateFormats, y, m, d);
  }
}
