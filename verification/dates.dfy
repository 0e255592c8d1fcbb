/**
 * `datetime.strptime` for the eight date formats the normaliser tries, and
 * `strftime('%Y-%m-%d')`.
 *
 * Parsing follows the way Python's `_strptime` works: each `%` directive becomes a
 * regular-expression group whose alternatives are tried in a fixed order, a run of
 * whitespace in the format becomes `\s+`, literal characters match without regard to
 * case, the expression is matched from the start of the input (the first match in
 * backtracking order wins, and it need not reach the end), input left over after that
 * match is an error, and finally the `datetime` constructor rejects impossible dates.
 */
module Dates {
  import opened Options
  import opened Text

  datatype DateTime = DateTime(year: int, month: int, day: int, hour: int, minute: int, second: int, micro: int)

  /** The directives the formats use: `%Y`, `%m`, `%d`, `%H`, `%M`, `%S`, `%f`, a run of
      whitespace, and a literal character. */
  datatype Directive = Year | Month | Day | Hour | Minute | Second | Fraction | Blank | Lit(c: char)

  /** A format string, as the sequence of its directives. */
  type Format = seq<Directive>

  /** The formats `_normalize_date` tries, in order, each written as the directives its
      format string stands for: `%Y-%m-%d`, `%m/%d/%Y`, `%d/%m/%Y`, `%Y/%m/%d`,
      `%Y-%m-%d %H:%M:%S`, `%m/%d/%Y %H:%M:%S`, `%Y-%m-%dT%H:%M:%S` and
      `%Y-%m-%dT%H:%M:%S.%f`. The blank becomes `Blank`, which like `\s+` accepts any
      run of whitespace. */
  const DateFormats: seq<Format> := [
    [Year, Lit('-'), Month, Lit('-'), Day],
    [Month, Lit('/'), Day, Lit('/'), Year],
    [Day, Lit('/'), Month, Lit('/'), Year],
    [Year, Lit('/'), Month, Lit('/'), Day],
    [Year, Lit('-'), Month, Lit('-'), Day, Blank, Hour, Lit(':'), Minute, Lit(':'), Second],
    [Month, Lit('/'), Day, Lit('/'), Year, Blank, Hour, Lit(':'), Minute, Lit(':'), Second],
    [Year, Lit('-'), Month, Lit('-'), Day, Lit('T'), Hour, Lit(':'), Minute, Lit(':'), Second],
    [Year, Lit('-'), Month, Lit('-'), Day, Lit('T'), Hour, Lit(':'), Minute, Lit(':'), Second, Lit('.'), Fraction]
  ]

  /** `%Y-%m-%d`, the format of normalised dates. */
  const IsoFormat: Format := [Year, Lit('-'), Month, Lit('-'), Day]

  // ------------------------------------------------------------------ calendar

  predicate IsLeapYear(y: int) {
    y % 4 == 0 && (y % 100 != 0 || y % 400 == 0)
  }

  function DaysInMonth(y: int, m: int): int
    requires 1 <= m <= 12
  {
    if m == 2 then (if IsLeapYear(y) then 29 else 28)
    else if m == 4 || m == 6 || m == 9 || m == 11 then 30
    else 31
  }

  predicate ValidDate(y: int, m: int, d: int) {
    1 <= y <= 9999 && 1 <= m <= 12 && 1 <= d <= DaysInMonth(y, m)
  }

  /** What the `datetime` constructor accepts. */
  predicate ValidDateTime(t: DateTime) {
    && ValidDate(t.year, t.month, t.day)
    && 0 <= t.hour <= 23 && 0 <= t.minute <= 59 && 0 <= t.second <= 59
    && 0 <= t.micro <= 999999
  }

  /** `a < b` on `datetime` values. */
  predicate Before(a: DateTime, b: DateTime) {
    if a.year != b.year then a.year < b.year
    else if a.month != b.month then a.month < b.month
    else if a.day != b.day then a.day < b.day
    else if a.hour != b.hour then a.hour < b.hour
    else if a.minute != b.minute then a.minute < b.minute
    else if a.second != b.second then a.second < b.second
    else a.micro < b.micro
  }

  // --------------------------------------------------------- directive matching

  /** One character position of a regular-expression alternative: a character range. */
  datatype Class = Range(lo: char, hi: char)

  function One(c: char): Class { Range(c, c) }
  const AnyDigit: Class := Range('0', '9')

  /** The alternatives of each fixed-width directive, in the order `_strptime` lists
      them: `%m` is `1[0-2]|0[1-9]|[1-9]`, `%d` is `3[01]|[12]\d|0[1-9]|[1-9]| [1-9]`,
      `%H` is `2[0-3]|[0-1]\d|\d`, `%M` is `[0-5]\d|\d`, `%S` is `6[0-1]|[0-5]\d|\d`
      and `%Y` is `\d\d\d\d`. */
  function Alternatives(d: Directive): seq<seq<Class>> {
    match d
    case Year => [[AnyDigit, AnyDigit, AnyDigit, AnyDigit]]
    case Month => [[One('1'), Range('0', '2')], [One('0'), Range('1', '9')], [Range('1', '9')]]
    case Day => [[One('3'), Range('0', '1')], [Range('1', '2'), AnyDigit], [One('0'), Range('1', '9')],
                 [Range('1', '9')], [One(' '), Range('1', '9')]]
    case Hour => [[One('2'), Range('0', '3')], [Range('0', '1'), AnyDigit], [AnyDigit]]
    case Minute => [[Range('0', '5'), AnyDigit], [AnyDigit]]
    case Second => [[One('6'), Range('0', '1')], [Range('0', '5'), AnyDigit], [AnyDigit]]
    case _ => []
  }

  predicate ClassesMatch(p: seq<Class>, s: string, i: nat) {
    i + |p| <= |s| && forall k :: 0 <= k < |p| ==> p[k].lo <= s[i + k] <= p[k].hi
  }

  /** The end positions of the alternatives that match at `i`, in preference order. */
  function AltEnds(alts: seq<seq<Class>>, s: string, i: nat): (r: seq<nat>)
    ensures forall k :: 0 <= k < |r| ==> i <= r[k] <= |s|
  {
    if alts == [] then []
    else (if ClassesMatch(alts[0], s, i) then [i + |alts[0]|] else []) + AltEnds(alts[1..], s, i)
  }

  /** A greedy repetition of `n` to 1 characters: longest first. */
  function Greedy(i: nat, n: nat): (r: seq<nat>)
    ensures |r| == n
    ensures forall k :: 0 <= k < n ==> r[k] == i + n - k
  {
    seq(n, k requires 0 <= k < n => i + n - k)
  }

  /** The end positions, in the order the regular expression tries them, at which
      directive `d` can stop when it starts at `i`. */
  function Ends(d: Directive, s: string, i: nat): (r: seq<nat>)
    requires i <= |s|
    ensures forall k :: 0 <= k < |r| ==> i < r[k] <= |s|
  {
    match d
    case Blank => Greedy(i, RunLength(s, i, IsSpace))
    case Fraction =>
      var n := RunLength(s, i, IsDigit);
      Greedy(i, if n < 6 then n else 6)
    case Lit(c) => if i < |s| && LowerChar(s[i]) == LowerChar(c) then [i + 1] else []
    case _ =>
      var r := AltEnds(Alternatives(d), s, i);
      assert forall k :: 0 <= k < |r| ==> i < r[k] by {
        AltEndsPositive(Alternatives(d), s, i);
      }
      r
  }

  lemma AltEndsPositive(alts: seq<seq<Class>>, s: string, i: nat)
    requires forall k :: 0 <= k < |alts| ==> |alts[k]| > 0
    ensures forall k :: 0 <= k < |AltEnds(alts, s, i)| ==> i < AltEnds(alts, s, i)[k]
  {
  }

  /** The text a numeric directive's group matched. */
  datatype Capture = Capture(d: Directive, text: string)

  /** The capture a directive contributes: numeric directives are groups, literals and
      blanks are not. */
  function Own(d: Directive, text: string): seq<Capture> {
    if d.Lit? || d.Blank? then [] else [Capture(d, text)]
  }

  /** `re.match`: the first way, in backtracking order, of matching `fmt` from
      position `i`; the end of that match need not be the end of `s`. */
  function Match(fmt: seq<Directive>, s: string, i: nat): (r: Option<(seq<Capture>, nat)>)
    requires i <= |s|
    ensures r.Some? ==> i <= r.value.1 <= |s|
    decreases |fmt|, 1, 0
  {
    if fmt == [] then Some(([], i))
    else TryEnds(fmt, s, i, Ends(fmt[0], s, i))
  }

  /** Backtracking over the places where the first directive may stop. */
  function TryEnds(fmt: seq<Directive>, s: string, i: nat, ends: seq<nat>): (r: Option<(seq<Capture>, nat)>)
    requires fmt != [] && i <= |s|
    requires forall k :: 0 <= k < |ends| ==> i <= ends[k] <= |s|
    ensures r.Some? ==> i <= r.value.1 <= |s|
    decreases |fmt|, 0, |ends|
  {
    if ends == [] then None
    else
      match Match(fmt[1..], s, ends[0])
      case Some((caps, e)) =>
        Some((Own(fmt[0], s[i..ends[0]]) + caps, e))
      case None => TryEnds(fmt, s, i, ends[1..])
  }

  // ------------------------------------------------------------- building dates

  /** The text of the first group of directive `d`, which is what `found_dict[d]` holds
      in the formats here, where no directive repeats. */
  function CaptureOf(caps: seq<Capture>, d: Directive): (r: Option<string>)
    ensures r.None? <==> forall k :: 0 <= k < |caps| ==> caps[k].d != d
    ensures r.Some? ==> exists k :: 0 <= k < |caps| && caps[k] == Capture(d, r.value)
                                   && forall k' :: 0 <= k' < k ==> caps[k'].d != d
  {
    if caps == [] then None
    else if caps[0].d == d then Some(caps[0].text)
    else
      var r := CaptureOf(caps[1..], d);
      if r.Some? then
        var k :| 0 <= k < |caps[1..]| && caps[1..][k] == Capture(d, r.value)
                 && forall k' :: 0 <= k' < k ==> caps[1..][k'].d != d;
        assert caps[k + 1] == Capture(d, r.value);
        r
      else
        assert forall k :: 1 <= k < |caps| ==> caps[k] == caps[1..][k - 1];
        r
  }

  /** The digits of `t`, dropping the blank `%d` may begin with (`int(' 5')` is 5). */
  function DigitsOf(t: string): (r: string)
    ensures AllDigits(r)
  {
    if t == [] then []
    else (if IsDigit(t[0]) then [t[0]] else []) + DigitsOf(t[1..])
  }

  function NumberOf(caps: seq<Capture>, d: Directive, default: int): int {
    match CaptureOf(caps, d)
    case None => default
    case Some(t) => NatOf(DigitsOf(t))
  }

  /** `%f` is right-padded with zeros to six digits before it is read. */
  function MicroOf(caps: seq<Capture>): int {
    match CaptureOf(caps, Fraction)
    case None => 0
    case Some(t) =>
      var ds := DigitsOf(t);
      var padded := ds + seq(if |ds| < 6 then 6 - |ds| else 0, _ => '0');
      NatOf(padded)
  }

  function Build(caps: seq<Capture>): DateTime {
    DateTime(
      NumberOf(caps, Year, 1900), NumberOf(caps, Month, 1), NumberOf(caps, Day, 1),
      NumberOf(caps, Hour, 0), NumberOf(caps, Minute, 0), NumberOf(caps, Second, 0),
      MicroOf(caps))
  }

  /** `datetime.strptime(s, fmt)`, `None` standing for the `ValueError`: the match must
      reach the end of `s` and name a real date and time. */
  function Strptime(s: string, fmt: Format): (r: Option<DateTime>)
    ensures r.Some? ==> ValidDateTime(r.value)
  {
    match Match(fmt, s, 0)
    case None => None
    case Some((caps, e)) =>
      if e != |s| then None
      else
        var t := Build(caps);
        if ValidDateTime(t) then Some(t) else None
  }

  /** The loop of `_normalize_date`: the result of the first of `fmts` that parses `s`.
      `FirstParseFirst` states which one that is. */
  function FirstParse(s: string, fmts: seq<Format>): (r: Option<DateTime>)
    ensures r.Some? ==> ValidDateTime(r.value)
    decreases |fmts|
  {
    if fmts == [] then None
    else if Strptime(s, fmts[0]).Some? then Strptime(s, fmts[0])
    else FirstParse(s, fmts[1..])
  }

  /** `FirstParse` finds nothing exactly when no format parses `s`, and otherwise gives
      what the first format that parses `s` gives. */
  lemma {:induction false} FirstParseFirst(s: string, fmts: seq<Format>)
    ensures FirstParse(s, fmts).None? <==> forall k :: 0 <= k < |fmts| ==> Strptime(s, fmts[k]).None?
    ensures FirstParse(s, fmts).Some? ==>
              exists k :: 0 <= k < |fmts| && Strptime(s, fmts[k]) == FirstParse(s, fmts)
                          && forall k' :: 0 <= k' < k ==> Strptime(s, fmts[k']).None?
    decreases |fmts|
  {
    if fmts != [] && Strptime(s, fmts[0]).None? {
      FirstParseFirst(s, fmts[1..]);
      var r := FirstParse(s, fmts[1..]);
      if r.Some? {
        var k :| 0 <= k < |fmts[1..]| && Strptime(s, fmts[1..][k]) == r
                 && forall k' :: 0 <= k' < k ==> Strptime(s, fmts[1..][k']).None?;
        assert Strptime(s, fmts[k + 1]) == r;
      } else {
        assert forall k :: 1 <= k < |fmts| ==> fmts[k] == fmts[1..][k - 1];
      }
    }
  }

  /** Once a format parses `s`, it decides when every earlier one fails. */
  lemma {:induction false} FirstParseAt(s: string, fmts: seq<Format>, k: int)
    requires 0 <= k < |fmts| && Strptime(s, fmts[k]).Some?
    requires forall k' :: 0 <= k' < k ==> Strptime(s, fmts[k']).None?
    ensures FirstParse(s, fmts) == Strptime(s, fmts[k])
    decreases k
  {
    if k > 0 {
      var rest := fmts[1..];
      assert Strptime(s, fmts[0]).None?;
      assert rest[k - 1] == fmts[k];
      forall k' | 0 <= k' < k - 1
        ensures Strptime(s, rest[k']).None?
      {
        assert rest[k'] == fmts[k' + 1];
      }
      FirstParseAt(s, rest, k - 1);
    }
  }

  // ------------------------------------------------------------------- output

  function Pad2(n: int): (r: string)
    requires 0 <= n <= 99
    ensures |r| == 2 && AllDigits(r)
  {
    [DigitChar(n / 10), DigitChar(n % 10)]
  }

  function Pad4(n: int): (r: string)
    requires 0 <= n <= 9999
    ensures |r| == 4 && AllDigits(r)
  {
    [DigitChar(n / 10 / 10 / 10), DigitChar(n / 10 / 10 % 10), DigitChar(n / 10 % 10), DigitChar(n % 10)]
  }

  /** `strftime('%Y-%m-%d')`. */
  function IsoDate(y: int, m: int, d: int): (r: string)
    requires 0 <= y <= 9999 && 0 <= m <= 99 && 0 <= d <= 99
    ensures |r| == 10 && IsDigit(r[0]) && IsDigit(r[9])
  {
    Pad4(y) + "-" + Pad2(m) + "-" + Pad2(d)
  }

  // ------------------------------------------------------------------- lemmas

  lemma NatOfSnoc(s: string, c: char)
    requires AllDigits(s) && IsDigit(c)
    ensures AllDigits(s + [c]) && NatOf(s + [c]) == NatOf(s) * 10 + DigitValue(c)
  {
    assert (s + [c])[..|s|] == s;
  }

  lemma Pad2Value(n: int)
    requires 0 <= n <= 99
    ensures NatOf(Pad2(n)) == n
  {
    var a, b := DigitChar(n / 10), DigitChar(n % 10);
    NatOfSnoc([], a);
    assert [] + [a] == [a];
    NatOfSnoc([a], b);
    assert Pad2(n) == [a] + [b];
  }

  lemma Pad4Value(n: int)
    requires 0 <= n <= 9999
    ensures NatOf(Pad4(n)) == n
  {
    var a, b, c, d := DigitChar(n / 10 / 10 / 10), DigitChar(n / 10 / 10 % 10), DigitChar(n / 10 % 10), DigitChar(n % 10);
    NatOfSnoc([], a);
    assert [] + [a] == [a];
    NatOfSnoc([a], b);
    assert NatOf([a] + [b]) == n / 10 / 10;
    NatOfSnoc([a, b], c);
    assert NatOf([a, b] + [c]) == n / 10;
    NatOfSnoc([a, b, c], d);
    assert [a] + [b] == [a, b] && [a, b] + [c] == [a, b, c] && [a, b, c] + [d] == Pad4(n);
  }

  lemma {:induction false} DigitsOfDigits(t: string)
    requires AllDigits(t)
    ensures DigitsOf(t) == t
  {
    if t != [] {
      DigitsOfDigits(t[1..]);
    }
  }

  /** The first alternative that matches decides the first end position. */
  lemma AltEndsFirst(alts: seq<seq<Class>>, s: string, i: nat)
    requires alts != [] && ClassesMatch(alts[0], s, i)
    ensures |AltEnds(alts, s, i)| > 0 && AltEnds(alts, s, i)[0] == i + |alts[0]|
  {
    assert AltEnds(alts, s, i) == [i + |alts[0]|] + AltEnds(alts[1..], s, i);
  }

  lemma AltEndsSkip(alts: seq<seq<Class>>, s: string, i: nat)
    requires alts != [] && !ClassesMatch(alts[0], s, i)
    ensures AltEnds(alts, s, i) == AltEnds(alts[1..], s, i)
  {
    assert AltEnds(alts, s, i) == [] + AltEnds(alts[1..], s, i);
  }

  /** Four digits at `i` are one `%Y`. */
  lemma YearEnds(s: string, i: nat)
    requires i + 4 <= |s| && AllDigits(s[i..i + 4])
    ensures Ends(Year, s, i) == [i + 4]
  {
    var p := Alternatives(Year)[0];
    forall k | 0 <= k < 4
      ensures p[k].lo <= s[i + k] <= p[k].hi
    {
      assert s[i..i + 4][k] == s[i + k];
    }
    AltEndsFirst(Alternatives(Year), s, i);
    assert Alternatives(Year)[1..] == [];
    assert AltEnds(Alternatives(Year), s, i) == [i + 4] + AltEnds([], s, i);
  }

  /** A zero-padded month at `i` is read with both of its digits. */
  lemma MonthEnds(s: string, i: nat, m: int)
    requires i + 2 <= |s| && 1 <= m <= 12 && s[i..i + 2] == Pad2(m)
    ensures |Ends(Month, s, i)| > 0 && Ends(Month, s, i)[0] == i + 2
  {
    PaddedDigits(s, i, m);
    var alts := Alternatives(Month);
    ClassesMatchTwo(alts[0], s, i);
    ClassesMatchTwo(alts[1], s, i);
    if m >= 10 {
      AltEndsAt(alts, s, i, 0);
    } else {
      AltEndsAt(alts, s, i, 1);
    }
  }

  /** The two characters of a zero-padded number. */
  lemma PaddedDigits(s: string, i: nat, n: int)
    requires i + 2 <= |s| && 0 <= n <= 99 && s[i..i + 2] == Pad2(n)
    ensures s[i] == DigitChar(n / 10) && s[i + 1] == DigitChar(n % 10)
  {
    assert s[i] == s[i..i + 2][0] && s[i + 1] == s[i..i + 2][1];
  }

  /** The first alternative that matches decides where the directive prefers to stop. */
  lemma {:induction false} AltEndsAt(alts: seq<seq<Class>>, s: string, i: nat, j: nat)
    requires j < |alts| && ClassesMatch(alts[j], s, i)
    requires forall k :: 0 <= k < j ==> !ClassesMatch(alts[k], s, i)
    ensures |AltEnds(alts, s, i)| > 0 && AltEnds(alts, s, i)[0] == i + |alts[j]|
    decreases j
  {
    if j == 0 {
      AltEndsFirst(alts, s, i);
    } else {
      AltEndsSkip(alts, s, i);
      AltEndsAt(alts[1..], s, i, j - 1);
    }
  }

  /** A two-character alternative matches when each character is in its range. */
  lemma ClassesMatchTwo(p: seq<Class>, s: string, i: nat)
    requires |p| == 2 && i + 2 <= |s|
    ensures ClassesMatch(p, s, i) <==> p[0].lo <= s[i] <= p[0].hi && p[1].lo <= s[i + 1] <= p[1].hi
  {
  }

  /** A zero-padded day at `i` is read with both of its digits. */
  lemma DayEnds(s: string, i: nat, d: int)
    requires i + 2 <= |s| && 1 <= d <= 31 && s[i..i + 2] == Pad2(d)
    ensures |Ends(Day, s, i)| > 0 && Ends(Day, s, i)[0] == i + 2
  {
    PaddedDigits(s, i, d);
    var alts := Alternatives(Day);
    ClassesMatchTwo(alts[0], s, i);
    ClassesMatchTwo(alts[1], s, i);
    ClassesMatchTwo(alts[2], s, i);
    if d >= 30 {
      AltEndsAt(alts, s, i, 0);
    } else if d >= 10 {
      AltEndsAt(alts, s, i, 1);
    } else {
      AltEndsAt(alts, s, i, 2);
    }
  }

  /** When the first directive's preferred end leads to a match of the rest, that is
      the match. */
  lemma MatchFirstEnd(fmt: Format, s: string, i: nat, e: nat, caps: seq<Capture>, stop: nat)
    requires fmt != [] && i <= |s|
    requires |Ends(fmt[0], s, i)| > 0 && Ends(fmt[0], s, i)[0] == e
    requires Match(fmt[1..], s, e) == Some((caps, stop))
    ensures Match(fmt, s, i) == Some((Own(fmt[0], s[i..e]) + caps, stop))
  {
  }

  lemma {:induction false} TryEndsNone(fmt: Format, s: string, i: nat, ends: seq<nat>)
    requires fmt != [] && i <= |s|
    requires forall k :: 0 <= k < |ends| ==> i <= ends[k] <= |s|
    requires forall k :: 0 <= k < |ends| ==> Match(fmt[1..], s, ends[k]).None?
    ensures TryEnds(fmt, s, i, ends).None?
    decreases |ends|
  {
    if ends != [] {
      TryEndsNone(fmt, s, i, ends[1..]);
    }
  }

  /** A match fails when every place the first directive may stop leads nowhere. */
  lemma MatchNone(fmt: Format, s: string, i: nat)
    requires fmt != [] && i <= |s|
    requires forall k :: 0 <= k < |Ends(fmt[0], s, i)| ==> Match(fmt[1..], s, Ends(fmt[0], s, i)[k]).None?
    ensures Match(fmt, s, i).None?
  {
    TryEndsNone(fmt, s, i, Ends(fmt[0], s, i));
  }

  /** A literal that is not at `i` stops the match there. */
  lemma LiteralMissing(fmt: Format, s: string, i: nat)
    requires fmt != [] && fmt[0].Lit? && i <= |s|
    requires i == |s| || LowerChar(s[i]) != LowerChar(fmt[0].c)
    ensures Match(fmt, s, i).None?
  {
    MatchNone(fmt, s, i);
  }

  /** `%Y` needs four digits. */
  lemma YearMissing(fmt: Format, s: string, i: nat, k: nat)
    requires fmt != [] && fmt[0] == Year && i <= |s|
    requires k < 4 && i + k < |s| && !IsDigit(s[i + k])
    ensures Match(fmt, s, i).None?
  {
    var alts: seq<seq<Class>> := Alternatives(Year);
    var p: seq<Class> := alts[0];
    assert !(p[k].lo <= s[i + k] <= p[k].hi);
    AltEndsSkip(alts, s, i);
    assert alts[1..] == [];
    MatchNone(fmt, s, i);
  }

  lemma {:induction false} AltEndsAtMost(alts: seq<seq<Class>>, s: string, i: nat, w: nat)
    requires forall k :: 0 <= k < |alts| ==> |alts[k]| <= w
    ensures forall k :: 0 <= k < |AltEnds(alts, s, i)| ==> AltEnds(alts, s, i)[k] <= i + w
    decreases |alts|
  {
    if alts != [] {
      AltEndsAtMost(alts[1..], s, i, w);
    }
  }

  /** Month, day, hour, minute and second read one or two characters. */
  lemma NarrowEnds(d: Directive, s: string, i: nat)
    requires d == Month || d == Day || d == Hour || d == Minute || d == Second
    requires i <= |s|
    ensures forall k :: 0 <= k < |Ends(d, s, i)| ==> i + 1 <= Ends(d, s, i)[k] <= i + 2
  {
    AltEndsAtMost(Alternatives(d), s, i, 2);
  }

  /** A two-digit number from 13 to 31 is read by `%m` as its first digit only. */
  lemma MonthReadsOneDigitOf(s: string, i: nat, n: int)
    requires i + 2 <= |s| && 13 <= n <= 31 && s[i..i + 2] == Pad2(n)
    ensures Ends(Month, s, i) == [i + 1]
  {
    PaddedDigits(s, i, n);
    var alts := Alternatives(Month);
    ClassesMatchTwo(alts[0], s, i);
    ClassesMatchTwo(alts[1], s, i);
    assert n / 10 != 1 || n % 10 >= 3;
    OnlyLastMatches(alts, s, i);
  }

  /** Three alternatives of which only the last matches. */
  lemma OnlyLastMatches(alts: seq<seq<Class>>, s: string, i: nat)
    requires |alts| == 3 && !ClassesMatch(alts[0], s, i) && !ClassesMatch(alts[1], s, i)
    requires ClassesMatch(alts[2], s, i)
    ensures AltEnds(alts, s, i) == [i + |alts[2]|]
  {
    AltEndsSkip(alts, s, i);
    AltEndsSkip(alts[1..], s, i);
    assert alts[1..][1..] == alts[2..];
    assert alts[2..][1..] == [];
    assert AltEnds(alts[2..], s, i) == [i + |alts[2]|] + AltEnds([], s, i);
  }

  /** A numeric directive that stops first at `e`, followed by a match of the rest. */
  lemma MatchField(fmt: Format, s: string, i: nat, e: nat, caps: seq<Capture>, stop: nat)
    requires fmt != [] && !fmt[0].Lit? && !fmt[0].Blank? && i <= |s|
    requires |Ends(fmt[0], s, i)| > 0 && Ends(fmt[0], s, i)[0] == e
    requires Match(fmt[1..], s, e) == Some((caps, stop))
    ensures Match(fmt, s, i) == Some(([Capture(fmt[0], s[i..e])] + caps, stop))
  {
    MatchFirstEnd(fmt, s, i, e, caps, stop);
  }

  /** A literal found at `i`, followed by a match of the rest. */
  lemma MatchLiteral(fmt: Format, s: string, i: nat, caps: seq<Capture>, stop: nat)
    requires fmt != [] && fmt[0].Lit? && i < |s| && s[i] == fmt[0].c
    requires Match(fmt[1..], s, i + 1) == Some((caps, stop))
    ensures Match(fmt, s, i) == Some((caps, stop))
  {
    assert Ends(fmt[0], s, i) == [i + 1];
    MatchFirstEnd(fmt, s, i, i + 1, caps, stop);
    assert [] + caps == caps;
  }

  /** A numeric directive that first stops at the end of `s`, with nothing after it. */
  lemma MatchLast(fmt: Format, s: string, i: nat)
    requires |fmt| == 1 && !fmt[0].Lit? && !fmt[0].Blank? && i <= |s|
    requires |Ends(fmt[0], s, i)| > 0 && Ends(fmt[0], s, i)[0] == |s|
    ensures Match(fmt, s, i) == Some(([Capture(fmt[0], s[i..])], |s|))
  {
    assert fmt[1..] == [];
    MatchField(fmt, s, i, |s|, [], |s|);
    assert s[i..|s|] == s[i..];
    assert [Capture(fmt[0], s[i..|s|])] + [] == [Capture(fmt[0], s[i..])];
  }

  /** The first place the regular expression tries to end directive `d` begun at `i`
      is `j`. */
  predicate StopsFirst(d: Directive, s: string, i: nat, j: nat)
    requires i <= |s|
  {
    |Ends(d, s, i)| > 0 && Ends(d, s, i)[0] == j
  }

  /** A numeric directive that first stops at `j`, where the separator that follows it
      in the format is found, then a match of the rest after the separator. */
  lemma MatchFieldSep(fmt: Format, s: string, i: nat, j: nat, caps: seq<Capture>, stop: nat)
    requires |fmt| >= 2 && !fmt[0].Lit? && !fmt[0].Blank? && fmt[1].Lit?
    requires i <= j < |s| && s[j] == fmt[1].c && StopsFirst(fmt[0], s, i, j)
    requires Match(fmt[2..], s, j + 1) == Some((caps, stop))
    ensures Match(fmt, s, i) == Some(([Capture(fmt[0], s[i..j])] + caps, stop))
  {
    assert fmt[1..][1..] == fmt[2..];
    MatchLiteral(fmt[1..], s, j, caps, stop);
    MatchField(fmt, s, i, j, caps, stop);
  }

  /** The last two numeric directives of a format `d1 c d2`. */
  lemma MatchPair(fmt: Format, s: string, i: nat, j: nat)
    requires |fmt| == 3 && !fmt[0].Lit? && !fmt[0].Blank? && fmt[1].Lit? && !fmt[2].Lit? && !fmt[2].Blank?
    requires i <= j < |s| && s[j] == fmt[1].c
    requires StopsFirst(fmt[0], s, i, j) && StopsFirst(fmt[2], s, j + 1, |s|)
    ensures Match(fmt, s, i) == Some(([Capture(fmt[0], s[i..j]), Capture(fmt[2], s[j + 1..])], |s|))
  {
    var last := fmt[2..];
    assert last[0] == fmt[2];
    MatchLast(last, s, j + 1);
    var c0, c2 := Capture(fmt[0], s[i..j]), Capture(fmt[2], s[j + 1..]);
    MatchFieldSep(fmt, s, i, j, [c2], |s|);
    assert [c0] + [c2] == [c0, c2];
  }

  /** Three numeric directives separated by one literal character match `s` field by
      field when each stops first where the next separator (or the end) is. */
  lemma MatchThree(fmt: Format, s: string, i1: nat, i2: nat)
    requires |fmt| == 5 && fmt[1].Lit? && fmt[3] == fmt[1]
    requires !fmt[0].Lit? && !fmt[0].Blank? && !fmt[2].Lit? && !fmt[2].Blank? && !fmt[4].Lit? && !fmt[4].Blank?
    requires i1 < i2 < |s| && s[i1] == fmt[1].c && s[i2] == fmt[1].c
    requires StopsFirst(fmt[0], s, 0, i1) && StopsFirst(fmt[2], s, i1 + 1, i2)
    requires StopsFirst(fmt[4], s, i2 + 1, |s|)
    ensures Match(fmt, s, 0)
            == Some(([Capture(fmt[0], s[..i1]), Capture(fmt[2], s[i1 + 1..i2]), Capture(fmt[4], s[i2 + 1..])], |s|))
  {
    var tail := fmt[2..];
    assert tail[0] == fmt[2] && tail[1] == fmt[3] && tail[2] == fmt[4];
    MatchPair(tail, s, i1 + 1, i2);
    var c2, c4 := Capture(fmt[2], s[i1 + 1..i2]), Capture(fmt[4], s[i2 + 1..]);
    MatchFieldSep(fmt, s, 0, i1, [c2, c4], |s|);
    assert s[0..i1] == s[..i1];
    var c0 := Capture(fmt[0], s[..i1]);
    assert [c0] + [c2, c4] == [c0, c2, c4];
  }

  /** The text of a directive every capture of which holds that text. */
  lemma CaptureOfOnly(caps: seq<Capture>, dir: Directive, text: string)
    requires Capture(dir, text) in caps
    requires forall k :: 0 <= k < |caps| && caps[k].d == dir ==> caps[k].text == text
    ensures CaptureOf(caps, dir) == Some(text)
  {
  }

  /** Captures naming a year, a month and a day, in any order, build that date at
      midnight. */
  lemma BuildDate(caps: seq<Capture>, ty: string, tm: string, td: string)
    requires AllDigits(ty) && AllDigits(tm) && AllDigits(td)
    requires Capture(Year, ty) in caps && Capture(Month, tm) in caps && Capture(Day, td) in caps
    requires forall k :: 0 <= k < |caps| ==>
               caps[k] == Capture(Year, ty) || caps[k] == Capture(Month, tm) || caps[k] == Capture(Day, td)
    ensures Build(caps) == DateTime(NatOf(ty), NatOf(tm), NatOf(td), 0, 0, 0, 0)
  {
    CaptureOfOnly(caps, Year, ty);
    CaptureOfOnly(caps, Month, tm);
    CaptureOfOnly(caps, Day, td);
    NumberOfDigits(caps, Year, 1900, ty);
    NumberOfDigits(caps, Month, 1, tm);
    NumberOfDigits(caps, Day, 1, td);
    forall k | 0 <= k < |caps|
      ensures caps[k].d in {Year, Month, Day}
    {
    }
    NoCaptureOf(caps, Hour);
    NoCaptureOf(caps, Minute);
    NoCaptureOf(caps, Second);
    NoCaptureOf(caps, Fraction);
  }

  lemma NoCaptureOf(caps: seq<Capture>, dir: Directive)
    requires dir !in {Year, Month, Day}
    requires forall k :: 0 <= k < |caps| ==> caps[k].d in {Year, Month, Day}
    ensures CaptureOf(caps, dir) == None
  {
  }

  lemma NumberOfDigits(caps: seq<Capture>, dir: Directive, default: int, t: string)
    requires CaptureOf(caps, dir) == Some(t) && AllDigits(t)
    ensures NumberOf(caps, dir, default) == NatOf(t)
  {
    DigitsOfDigits(t);
  }

  /** The captures of a date in the ISO layout, year first. */
  function IsoCaptures(y: int, m: int, d: int): seq<Capture>
    requires 0 <= y <= 9999 && 0 <= m <= 99 && 0 <= d <= 99
  {
    [Capture(Year, Pad4(y)), Capture(Month, Pad2(m)), Capture(Day, Pad2(d))]
  }

  lemma IsoMatch(fmt: Format, y: int, m: int, d: int)
    requires |fmt| == 5 && fmt[0] == Year && fmt[1] == Lit('-') && fmt[2] == Month
    requires fmt[3] == Lit('-') && fmt[4] == Day
    requires ValidDate(y, m, d)
    ensures Match(fmt, IsoDate(y, m, d), 0) == Some((IsoCaptures(y, m, d), 10))
  {
    var s := IsoDate(y, m, d);
    IsoLayout(y, m, d);
    YearEnds(s, 0);
    MonthEnds(s, 5, m);
    DayEnds(s, 8, d);
    assert StopsFirst(fmt[0], s, 0, 4) && StopsFirst(fmt[2], s, 5, 7) && StopsFirst(fmt[4], s, 8, 10);
    MatchThree(fmt, s, 4, 7);
  }

  lemma IsoLayout(y: int, m: int, d: int)
    requires 0 <= y <= 9999 && 0 <= m <= 99 && 0 <= d <= 99
    ensures var s := IsoDate(y, m, d);
            && s[0..4] == Pad4(y) && s[..4] == Pad4(y) && s[4] == '-' && s[5..7] == Pad2(m)
            && s[7] == '-' && s[8..10] == Pad2(d) && s[8..] == Pad2(d)
  {
  }

  lemma IsoBuild(y: int, m: int, d: int)
    requires ValidDate(y, m, d)
    ensures Build(IsoCaptures(y, m, d)) == DateTime(y, m, d, 0, 0, 0, 0)
  {
    var caps := IsoCaptures(y, m, d);
    assert caps[0] in caps && caps[1] in caps && caps[2] in caps;
    BuildDate(caps, Pad4(y), Pad2(m), Pad2(d));
    Pad4Value(y);
    Pad2Value(m);
    Pad2Value(d);
  }

  /** `strptime(strftime(t, '%Y-%m-%d'), '%Y-%m-%d')` gives back the date of `t`, at
      midnight. */
  lemma IsoRoundTrip(y: int, m: int, d: int)
    requires ValidDate(y, m, d)
    ensures Strptime(IsoDate(y, m, d), IsoFormat) == Some(DateTime(y, m, d, 0, 0, 0, 0))
  {
    IsoParse(IsoFormat, y, m, d);
  }

  lemma IsoParse(fmt: Format, y: int, m: int, d: int)
    requires |fmt| == 5 && fmt[0] == Year && fmt[1] == Lit('-') && fmt[2] == Month
    requires fmt[3] == Lit('-') && fmt[4] == Day
    requires ValidDate(y, m, d)
    ensures Strptime(IsoDate(y, m, d), fmt) == Some(DateTime(y, m, d, 0, 0, 0, 0))
  {
    IsoMatch(fmt, y, m, d);
    IsoBuild(y, m, d);
    StrptimeOf(IsoDate(y, m, d), fmt, IsoCaptures(y, m, d), DateTime(y, m, d, 0, 0, 0, 0));
  }

  /** A match that reaches the end of `s` and builds a real date is what `strptime`
      gives. */
  lemma StrptimeOf(s: string, fmt: Format, caps: seq<Capture>, t: DateTime)
    requires Match(fmt, s, 0) == Some((caps, |s|)) && Build(caps) == t && ValidDateTime(t)
    ensures Strptime(s, fmt) == Some(t)
  {
  }
}
