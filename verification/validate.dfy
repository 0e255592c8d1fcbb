/**
 * `validate_parsed_data`: the report on a parsed record. Required fields that are
 * missing or empty make the record invalid; every registry field that holds text is
 * listed as found; the weight and the shipping date, when present, may raise one
 * warning each. The clock reading `datetime.now()` is a parameter.
 */
module Validate {
  import opened Options
  import opened Text
  import opened OrderedDict
  import opened Registry
  import opened Dates
  import opened PyFloat
  import opened Normalize
  import opened Parser
  import JsonValue

  datatype Warning = WeightNotPositive | WeightTooHigh | WeightNotNumber | DateInPast | DateInvalid
  {
    predicate AboutWeight() {
      WeightNotPositive? || WeightTooHigh? || WeightNotNumber?
    }
  }

  /** The text the report carries for each warning: the weight warnings speak of the
      package weight, the date warnings of the shipping date. */
  function Message(w: Warning): (r: string)
    ensures w.AboutWeight() <==> "Package weight " <= r
    ensures !w.AboutWeight() <==> "Shipping date " <= r
  {
    var m := match w
      case WeightNotPositive => "Package weight should be greater than 0"
      case WeightTooHigh => "Package weight seems unusually high"
      case WeightNotNumber => "Package weight is not a valid number"
      case DateInPast => "Shipping date is in the past"
      case DateInvalid => "Shipping date format is invalid";
    assert m[0] == if w.AboutWeight() then 'P' else 'S';
    m
  }

  /** Each warning has its own text, so a report's messages tell the warnings apart. */
  lemma MessagesDistinct(w: Warning, w': Warning)
    requires w != w'
    ensures Message(w) != Message(w')
  {
  }

  /** `is_valid`, `missing_required`, `found_fields` (as fields rather than their
      names) and `warnings`. */
  datatype Report = Report(isValid: bool, missingRequired: seq<Field>, foundFields: seq<Field>, warnings: seq<Warning>)

  /** Weights above this many units are reported as unusually high. */
  const WeightLimit: nat := 1000

  /** `field in data and data[field]`: the field is present and its text is not empty. */
  predicate Truthy(data: Dict<string>, f: Field) {
    match Get(data, Name(f))
    case None => false
    case Some(t) => t != ""
  }

  /** The elements of `fs` that `p` holds for, in the order of `fs`. */
  function Filter(fs: seq<Field>, p: Field -> bool): (r: seq<Field>)
    ensures forall f :: f in r <==> f in fs && p(f)
    decreases |fs|
  {
    if fs == [] then []
    else
      var rest := Filter(fs[1..], p);
      assert forall f :: f in fs <==> f == fs[0] || f in fs[1..];
      if p(fs[0]) then [fs[0]] + rest else rest
  }

  /** Filtering keeps registry order. */
  lemma {:induction false} FilterOrdered(fs: seq<Field>, p: Field -> bool)
    requires InRegistryOrder(fs)
    ensures InRegistryOrder(Filter(fs, p))
    decreases |fs|
  {
    if fs != [] {
      var rest := Filter(fs[1..], p);
      assert InRegistryOrder(fs[1..]);
      FilterOrdered(fs[1..], p);
      if p(fs[0]) {
        var r := [fs[0]] + rest;
        forall i, j | 0 <= i < j < |r|
          ensures Rank(r[i]) < Rank(r[j])
        {
          assert r[j] == rest[j - 1] && r[j] in fs[1..];
          if i > 0 {
            assert r[i] == rest[i - 1];
          } else {
            var k :| 0 <= k < |fs[1..]| && fs[1..][k] == r[j];
            assert fs[k + 1] == r[j];
          }
        }
      }
    }
  }

  lemma RequiredOrdered()
    ensures InRegistryOrder(Required)
  {
    var rs := Required;
    assert rs == [ShipperName, RecipientName, PackageWeight, ShippingDate];
    assert Rank(rs[0]) == 0 && Rank(rs[1]) == 2 && Rank(rs[2]) == 4 && Rank(rs[3]) == 7;
  }

  /** The weight's text, when the record has one. */
  function WeightText(data: Dict<string>): Option<string> {
    Get(data, Name(PackageWeight))
  }

  /** The shipping date's text, when the record has one. */
  function DateText(data: Dict<string>): Option<string> {
    Get(data, Name(ShippingDate))
  }

  /** The weight is present and `float()` refuses it. */
  predicate WeightUnreadable(data: Dict<string>) {
    WeightText(data).Some? && ParseFloat(WeightText(data).value).None?
  }

  /** The weight is present and reads as a number `<= 0`. */
  predicate WeightAtMostZero(data: Dict<string>) {
    WeightText(data).Some? && ParseFloat(WeightText(data).value).Some?
    && AtMostZero(ParseFloat(WeightText(data).value).value)
  }

  /** The weight is present and reads as a number above the limit. */
  predicate WeightAboveLimit(data: Dict<string>) {
    WeightText(data).Some? && ParseFloat(WeightText(data).value).Some?
    && !AtMostZero(ParseFloat(WeightText(data).value).value)
    && Exceeds(ParseFloat(WeightText(data).value).value, WeightLimit)
  }

  /** The shipping date is present and `%Y-%m-%d` does not read it. */
  predicate DateUnreadable(data: Dict<string>) {
    DateText(data).Some? && ReadIsoDate(DateText(data).value).None?
  }

  /** The shipping date is present and reads as a moment before `now`. */
  predicate DateBefore(data: Dict<string>, now: DateTime) {
    DateText(data).Some? && ReadIsoDate(DateText(data).value).Some?
    && Before(ReadIsoDate(DateText(data).value).value, now)
  }

  /** The weight check: `float()` of the text, then `<= 0`, then `> 1000`. */
  function WeightWarnings(data: Dict<string>): (r: seq<Warning>)
    ensures |r| <= 1 && forall i :: 0 <= i < |r| ==> r[i].AboutWeight()
    ensures WeightNotNumber in r <==> WeightUnreadable(data)
    ensures WeightNotPositive in r <==>
              WeightAtMostZero(data)
    ensures WeightTooHigh in r <==>
              WeightAboveLimit(data)
  {
    match WeightText(data)
    case None => []
    case Some(t) =>
      match ParseFloat(t)
      case None => [WeightNotNumber]
      case Some(x) =>
        if AtMostZero(x) then [WeightNotPositive]
        else if Exceeds(x, WeightLimit) then [WeightTooHigh]
        else []
  }

  /** `datetime.strptime(t, '%Y-%m-%d')`. */
  function ReadIsoDate(t: string): Option<DateTime> {
    Strptime(t, IsoFormat)
  }

  /** The date check: `strptime(text, '%Y-%m-%d')`, then a comparison with the clock. */
  function DateWarnings(data: Dict<string>, now: DateTime): (r: seq<Warning>)
    ensures |r| <= 1 && forall i :: 0 <= i < |r| ==> !r[i].AboutWeight()
    ensures DateInvalid in r <==> DateUnreadable(data)
    ensures DateInPast in r <==>
              DateBefore(data, now)
  {
    match DateText(data)
    case None => []
    case Some(t) =>
      match ReadIsoDate(t)
      case None => [DateInvalid]
      case Some(d) => if Before(d, now) then [DateInPast] else []
  }

  /** The required-fields loop: each required field that is absent or empty. */
  function Missing(data: Dict<string>): (r: seq<Field>)
    ensures forall f :: f in r <==> f in Required && !Truthy(data, f)
    ensures InRegistryOrder(r)
  {
    RequiredOrdered();
    FilterOrdered(Required, f => !Truthy(data, f));
    Filter(Required, f => !Truthy(data, f))
  }

  /** The found-fields loop over the registry: each field that holds text. */
  function Found(data: Dict<string>): (r: seq<Field>)
    ensures forall f :: f in r <==> Truthy(data, f)
    ensures InRegistryOrder(r)
  {
    RegistryOrdered();
    FilterOrdered(Fields, f => Truthy(data, f));
    EveryFieldListed();
    Filter(Fields, f => Truthy(data, f))
  }

  lemma EveryFieldListed()
    ensures forall f :: f in Fields
  {
    forall f
      ensures f in Fields
    {
      FieldListed(f);
    }
  }

  /** The weight warnings, then the date warnings. */
  function Warnings(data: Dict<string>, now: DateTime): (r: seq<Warning>)
    ensures WeightNotNumber in r <==> WeightUnreadable(data)
    ensures WeightNotPositive in r <==>
              WeightAtMostZero(data)
    ensures WeightTooHigh in r <==>
              WeightAboveLimit(data)
    ensures DateInvalid in r <==> DateUnreadable(data)
    ensures DateInPast in r <==>
              DateBefore(data, now)
    ensures forall i, j :: 0 <= i < j < |r| ==> r[i].AboutWeight() && !r[j].AboutWeight()
  {
    var ws, ds := WeightWarnings(data), DateWarnings(data, now);
    Concat(ws, ds);
    ws + ds
  }

  lemma Concat(ws: seq<Warning>, ds: seq<Warning>)
    requires forall i :: 0 <= i < |ws| ==> ws[i].AboutWeight()
    requires forall i :: 0 <= i < |ds| ==> !ds[i].AboutWeight()
    requires |ws| <= 1 && |ds| <= 1
    ensures forall w :: w in ws + ds <==> w in ws || w in ds
    ensures forall i, j :: 0 <= i < j < |ws + ds| ==> (ws + ds)[i].AboutWeight() && !(ws + ds)[j].AboutWeight()
  {
  }

  /** `validate_parsed_data(data)` with `datetime.now()` read as `now`. */
  function ValidateParsedData(data: Dict<string>, now: DateTime): (r: Report)
    ensures r.isValid <==> r.missingRequired == []
    ensures forall f :: f in r.missingRequired <==> f in Required && !Truthy(data, f)
    ensures InRegistryOrder(r.missingRequired)
    ensures forall f :: f in r.foundFields <==> Truthy(data, f)
    ensures InRegistryOrder(r.foundFields)
    ensures r.warnings == Warnings(data, now)
  {
    var missing := Missing(data);
    Report(missing == [], missing, Found(data), Warnings(data, now))
  }

  // ------------------------------------------------------------------ lemmas

  /** What the weight rule keeps, a number of the form `\d+\.?\d*`, is a float that is
      finite and not negative. */
  lemma NumberShapeReads(t: string)
    requires NumberShape(t)
    ensures ParseFloat(t).Some? && ParseFloat(t).value.Finite? && !ParseFloat(t).value.neg
  {
    match IndexOf(t, IsPoint)
    case None =>
      PlainWhole(t);
    case Some(d) =>
      var a, f := t[..d], t[d + 1..];
      assert t == a + "." + f;
      assert AllDigits(f) by {
        forall k | 0 <= k < |f|
          ensures IsDigit(f[k])
        {
          assert t[d + 1 + k] == f[k];
        }
      }
      assert t[0] == a[0];
      PlainDecimal(a, f);
  }

  /** So a normalised weight that came from text with a digit never draws the "not a
      valid number" warning. */
  lemma NormalizedWeightReads(s: string)
    requires HasDigit(s)
    ensures var x := ParseFloat(NormalizeWeight(s)); x.Some? && x.value.Finite? && !x.value.neg
  {
    var r := NormalizeWeight(s);
    var i :| FirstNumberAt(s, r, i);
    NumberShapeReads(r);
  }

  lemma NormalizedWeightIsNumber(data: Dict<string>, s: string)
    requires WeightText(data) == Some(NormalizeWeight(s)) && HasDigit(s)
    ensures WeightNotNumber !in WeightWarnings(data)
  {
    NormalizedWeightReads(s);
  }

  /** A whole-number weight warns when it is 0 or above 1000, and only then. */
  lemma WholeWeight(data: Dict<string>, a: string)
    requires WeightText(data) == Some(a) && AllDigits(a) && |a| > 0
    ensures WeightWarnings(data) ==
              if NatOf(a) == 0 then [WeightNotPositive]
              else if NatOf(a) > WeightLimit then [WeightTooHigh]
              else []
  {
    PlainWhole(a);
  }

  /** `nan` is neither `<= 0` nor `> 1000`, so a NaN weight draws no warning at all. */
  lemma NanWeightSilent(data: Dict<string>, t: string)
    requires WeightText(data) == Some(t) && IsNan(t)
    ensures WeightWarnings(data) == []
  {
    NanReads(t);
  }

  /** An unsigned infinity is unusually high. */
  lemma InfiniteWeightHigh(data: Dict<string>, t: string)
    requires WeightText(data) == Some(t) && IsInfinity(t)
    ensures WeightWarnings(data) == [WeightTooHigh]
  {
    InfinityReads(t);
  }

  /** The check compares the date's midnight with the full clock reading, so a shipment
      dated today is reported as in the past at any moment after midnight. */
  lemma TodayIsPast(data: Dict<string>, now: DateTime)
    requires ValidDateTime(now)
    requires DateText(data) == Some(IsoDate(now.year, now.month, now.day))
    requires now.hour > 0 || now.minute > 0 || now.second > 0 || now.micro > 0
    ensures DateWarnings(data, now) == [DateInPast]
  {
    IsoRoundTrip(now.year, now.month, now.day);
    var midnight := DateTime(now.year, now.month, now.day, 0, 0, 0, 0);
    assert ReadIsoDate(DateText(data).value) == Some(midnight);
    assert Before(midnight, now);
    assert DateInPast in DateWarnings(data, now);
  }

  /** A date the date rule rewrote reads back under `%Y-%m-%d`: it is never reported as
      malformed, and it is reported as past exactly when its midnight is before `now`. */
  lemma NormalizedDateAccepted(data: Dict<string>, s: string, now: DateTime)
    requires ReadDate(s).Some?
    requires DateText(data) == Some(NormalizeDate(s))
    ensures DateInvalid !in DateWarnings(data, now)
    ensures var t := ReadDate(s).value;
            DateInPast in DateWarnings(data, now) <==> Before(DateTime(t.year, t.month, t.day, 0, 0, 0, 0), now)
  {
    DateReadsBack(s);
  }

  /** On the parser's output (fields in registry order, as `ParseJsonData` ensures), a
      field counts as present exactly when the parser stored non-empty text for it. */
  lemma ParsedTruthy(fields: seq<(Field, string)>, f: Field)
    requires InRegistryOrder(Firsts(fields))
    ensures Truthy(Entries(fields), f) <==> FieldText(fields, f).Some? && FieldText(fields, f).value != ""
  {
    EntriesLookup(fields, f);
    TruthyOf(Entries(fields), f, FieldText(fields, f));
  }

  lemma TruthyOf(d: Dict<string>, f: Field, v: Option<string>)
    requires Get(d, Name(f)) == v
    ensures Truthy(d, f) <==> v.Some? && v.value != ""
  {
  }

  /** Validating what the parser produced (fields in registry order, as `ParseJsonData`
      ensures): a required field is missing exactly when the parser's output holds no
      text, or empty text, for it. */
  lemma ParsedMissing(fields: seq<(Field, string)>, now: DateTime, f: Field)
    requires InRegistryOrder(Firsts(fields))
    ensures f in ValidateParsedData(Entries(fields), now).missingRequired <==>
              f in Required && (FieldText(fields, f).None? || FieldText(fields, f) == Some(""))
  {
    EntriesLookup(fields, f);
    MissingOf(Entries(fields), now, f, FieldText(fields, f));
  }

  lemma MissingOf(d: Dict<string>, now: DateTime, f: Field, v: Option<string>)
    requires Get(d, Name(f)) == v
    ensures f in ValidateParsedData(d, now).missingRequired <==> f in Required && (v.None? || v == Some(""))
  {
    TruthyOf(d, f, v);
  }
}
