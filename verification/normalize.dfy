/**
 * Per-field clean-up of a resolved value: `None` becomes the empty string, anything else
 * is converted with `str()` and stripped, and then the weight is cut down to its first
 * number, the shipping date is rewritten as `YYYY-MM-DD` when one of the known formats
 * reads it, and the two addresses are split into trimmed, non-empty lines.
 */
module Normalize {
  import opened Options
  import opened Text
  import opened JsonValue
  import opened Registry
  import opened Dates

  // ------------------------------------------------------------------- weight

  /** The strings `\d+\.?\d*` matches in full: a digit first, then only digits and at
      most one decimal point. */
  predicate NumberShape(t: string) {
    && |t| > 0 && IsDigit(t[0])
    && (forall k :: 0 <= k < |t| ==> IsDigit(t[k]) || t[k] == '.')
    && (forall a, b :: 0 <= a < b < |t| && t[a] == '.' ==> t[b] != '.')
  }

  /** The index of the first digit of `s`. */
  function FirstDigit(s: string): (r: Option<nat>)
    ensures r.None? <==> !HasDigit(s)
    ensures r.Some? ==> r.value < |s| && IsDigit(s[r.value])
                        && forall k :: 0 <= k < r.value ==> !IsDigit(s[k])
  {
    if s == [] then None
    else if IsDigit(s[0]) then Some(0)
    else
      match FirstDigit(s[1..])
      case None =>
        assert forall k :: 1 <= k < |s| ==> s[k] == s[1..][k - 1];
        None
      case Some(i) =>
        assert s[i + 1] == s[1..][i];
        Some(i + 1)
  }

  /** The greedy match of `\d+\.?\d*` at the start of `s`: the longest prefix of number
      shape. */
  function LeadingNumber(s: string): (r: string)
    requires |s| > 0 && IsDigit(s[0])
    ensures NumberShape(r) && r <= s
    ensures forall k :: |r| < k <= |s| ==> !NumberShape(s[..k])
  {
    var n := RunLength(s, 0, IsDigit);
    if n < |s| && s[n] == '.' then
      var m := RunLength(s, n + 1, IsDigit);
      var r := s[..n + 1 + m];
      forall k | |r| < k <= |s|
        ensures !NumberShape(s[..k])
      {
        var t := s[..k];
        if n + 1 + m < |s| && t[n + 1 + m] == '.' {
          assert t[n] == '.';
        } else {
          assert !IsDigit(t[n + 1 + m]);
        }
      }
      r
    else
      var r := s[..n];
      forall k | |r| < k <= |s|
        ensures !NumberShape(s[..k])
      {
        assert s[..k][n] == s[n];
      }
      r
  }

  /** `s[i..i + |r|]` is what `re.search(r'(\d+\.?\d*)', s)` finds: the leftmost match,
      taken as long as it goes. */
  predicate FirstNumberAt(s: string, r: string, i: int) {
    && 0 <= i && i + |r| <= |s| && r == s[i..i + |r|]
    && (forall k :: 0 <= k < i ==> !IsDigit(s[k]))
    && NumberShape(r)
    && (forall k :: i + |r| < k <= |s| ==> !NumberShape(s[i..k]))
  }

  /** The weight rule: the first number in the text, or the text itself when it holds no
      digit at all. */
  function NormalizeWeight(s: string): (r: string)
    ensures !HasDigit(s) ==> r == s
    ensures HasDigit(s) ==> exists i :: FirstNumberAt(s, r, i)
  {
    match FirstDigit(s)
    case None => s
    case Some(i) =>
      var r := LeadingNumber(s[i..]);
      assert r == s[i..i + |r|];
      assert forall k :: i + |r| < k <= |s| ==> s[i..k] == s[i..][..k - i];
      assert FirstNumberAt(s, r, i);
      r
  }

  /** A number is its own first number. */
  lemma LeadingNumberOfNumber(t: string)
    requires NumberShape(t)
    ensures LeadingNumber(t) == t
  {
  }

  lemma WeightIdempotent(s: string)
    ensures NormalizeWeight(NormalizeWeight(s)) == NormalizeWeight(s)
  {
    if HasDigit(s) {
      var r := NormalizeWeight(s);
      var i :| FirstNumberAt(s, r, i);
      assert FirstDigit(r) == Some(0);
      LeadingNumberOfNumber(r);
      assert r[0..] == r;
    }
  }

  // --------------------------------------------------------------------- date

  /** The date the date rule reads from `s`: what the first of the known formats that
      accepts `s` gives. */
  function ReadDate(s: string): Option<DateTime> {
    FirstParse(s, DateFormats)
  }

  /** The date rule: the first of the known formats that reads `s` decides the date,
      which is written back as `YYYY-MM-DD`; text no format reads is left as it is. */
  function NormalizeDate(s: string): (r: string)
    ensures ReadDate(s).None? ==> r == s
    ensures ReadDate(s).Some? ==> |r| == 10 && IsDigit(r[0]) && IsDigit(r[9])
  {
    match ReadDate(s)
    case None => s
    case Some(t) => IsoDate(t.year, t.month, t.day)
  }

  /** A rewritten date reads back, with `%Y-%m-%d`, as the date that was read from the
      input, at midnight. */
  lemma DateReadsBack(s: string)
    requires ReadDate(s).Some?
    ensures var t := ReadDate(s).value;
            Strptime(NormalizeDate(s), IsoFormat) == Some(DateTime(t.year, t.month, t.day, 0, 0, 0, 0))
  {
    var t := ReadDate(s).value;
    IsoRoundTrip(t.year, t.month, t.day);
  }

  lemma DateIdempotent(s: string)
    ensures NormalizeDate(NormalizeDate(s)) == NormalizeDate(s)
  {
    if ReadDate(s).Some? {
      var t := ReadDate(s).value;
      var r := NormalizeDate(s);
      DateReadsBack(s);
      assert DateFormats[0] == IsoFormat;
      FirstParseAt(r, DateFormats, 0);
    }
  }

  // ------------------------------------------------------------------ address

  /** The stripped lines that are not blank, in order. */
  function KeptLines(lines: seq<string>): (r: seq<string>)
    ensures forall k :: 0 <= k < |r| ==> r[k] != [] && Trimmed(r[k])
    decreases |lines|
  {
    if lines == [] then []
    else
      var rest := KeptLines(lines[1..]);
      var head := Strip(lines[0]);
      if head == [] then rest
      else
        KeptCons(head, rest);
        [head] + rest
  }

  lemma KeptCons(head: string, rest: seq<string>)
    requires head != [] && Trimmed(head)
    requires forall k :: 0 <= k < |rest| ==> rest[k] != [] && Trimmed(rest[k])
    ensures var r := [head] + rest; forall k :: 0 <= k < |r| ==> r[k] != [] && Trimmed(r[k])
  {
    var r := [head] + rest;
    assert forall k :: 1 <= k < |r| ==> r[k] == rest[k - 1];
  }

  /** Every character of a kept line comes from one of the lines. */
  lemma {:induction false} KeptChars(lines: seq<string>, k: int, c: char)
    requires 0 <= k < |KeptLines(lines)| && c in KeptLines(lines)[k]
    ensures exists j :: 0 <= j < |lines| && c in lines[j]
    decreases |lines|
  {
    var rest := KeptLines(lines[1..]);
    var head := Strip(lines[0]);
    if head != [] && k == 0 {
      StripSubset(lines[0], c);
    } else {
      var k' := if head == [] then k else k - 1;
      assert KeptLines(lines)[k] == rest[k'];
      KeptChars(lines[1..], k', c);
      var j :| 0 <= j < |lines[1..]| && c in lines[1..][j];
      assert lines[j + 1] == lines[1..][j];
    }
  }

  /** The address rule: `|` and `;` become line breaks, and the address is rebuilt from
      its stripped, non-blank lines. */
  function NormalizeAddress(s: string): (r: string)
    ensures '|' !in r && ';' !in r
    ensures Trimmed(r)
    ensures forall c :: c in r && c != '\n' ==> c in s
  {
    var lines := Split(AddressLines(s), '\n');
    var kept := KeptLines(lines);
    forall c | c in Join(kept, '\n')
      ensures c != '|' && c != ';' && (c != '\n' ==> c in s)
    {
      JoinChars(kept, '\n', c);
      if c != '\n' {
        var k :| 0 <= k < |kept| && c in kept[k];
        KeptChars(lines, k, c);
        var j :| 0 <= j < |lines| && c in lines[j];
        SplitPieceChars(AddressLines(s), '\n', j, c);
        AddressLinesChars(s, c);
      }
    }
    JoinTrimmed(kept, '\n');
    Join(kept, '\n')
  }

  /** `s` with both separators turned into line breaks. */
  function AddressLines(s: string): (r: string)
    ensures '|' !in r && ';' !in r
    ensures |r| == |s|
  {
    ReplaceChar(ReplaceChar(s, '|', '\n'), ';', '\n')
  }

  /** Apart from the new line breaks, the replacement only keeps characters of `s`. */
  lemma AddressLinesChars(s: string, c: char)
    requires c in AddressLines(s) && c != '\n'
    ensures c in s
  {
    var r := AddressLines(s);
    var m := ReplaceChar(s, '|', '\n');
    var i :| 0 <= i < |r| && r[i] == c;
    assert m[i] == c;
    assert s[i] == c;
  }

  /** Every character of a piece of `Split(s, sep)` is a character of `s`. */
  lemma SplitPieceChars(s: string, sep: char, j: int, c: char)
    requires 0 <= j < |Split(s, sep)| && c in Split(s, sep)[j]
    ensures c in s
  {
    var parts := Split(s, sep);
    JoinPieceChars(parts, sep, j, c);
  }

  lemma {:induction false} JoinPieceChars(parts: seq<string>, sep: char, j: int, c: char)
    requires 0 <= j < |parts| && c in parts[j]
    ensures c in Join(parts, sep)
    decreases |parts|
  {
    if |parts| > 1 && j > 0 {
      JoinPieceChars(parts[1..], sep, j - 1, c);
    }
  }

  /** A join of non-empty trimmed pieces is trimmed. */
  lemma JoinTrimmed(parts: seq<string>, sep: char)
    requires forall k :: 0 <= k < |parts| ==> parts[k] != [] && Trimmed(parts[k])
    ensures Trimmed(Join(parts, sep))
  {
    if |parts| > 0 {
      JoinEnds(parts, sep);
      var j := Join(parts, sep);
      var last := parts[|parts| - 1];
      assert j[0] == parts[0][0];
      assert j[|j| - 1] == j[|j| - |last|..][|last| - 1] == last[|last| - 1];
    }
  }

  /** Lines that are already stripped and non-blank are kept as they are. */
  lemma {:induction false} KeptLinesOfKept(lines: seq<string>)
    requires forall k :: 0 <= k < |lines| ==> lines[k] != [] && Trimmed(lines[k])
    ensures KeptLines(lines) == lines
    decreases |lines|
  {
    if lines != [] {
      KeptLinesOfKept(lines[1..]);
      StripTrimmed(lines[0]);
      assert [lines[0]] + lines[1..] == lines;
    }
  }

  /** Reading a normalised address back gives its own lines, each non-empty, stripped
      and free of separators. */
  lemma AddressLinesBack(s: string)
    requires NormalizeAddress(s) != []
    ensures Split(NormalizeAddress(s), '\n') == KeptLines(Split(AddressLines(s), '\n'))
  {
    var lines := Split(AddressLines(s), '\n');
    var kept := KeptLines(lines);
    forall k | 0 <= k < |kept|
      ensures '\n' !in kept[k]
    {
      if '\n' in kept[k] {
        KeptChars(lines, k, '\n');
      }
    }
    SplitJoin(kept, '\n');
  }

  lemma AddressIdempotent(s: string)
    ensures NormalizeAddress(NormalizeAddress(s)) == NormalizeAddress(s)
  {
    var r := NormalizeAddress(s);
    CleanAddressLines(r);
    if r == [] {
      AddressEmpty(r);
    } else {
      AddressLinesBack(s);
      var kept := KeptLines(Split(AddressLines(s), '\n'));
      KeptLinesOfKept(kept);
      assert NormalizeAddress(r) == Join(KeptLines(kept), '\n');
    }
  }

  /** Text without separators has the same lines before and after the replacement. */
  lemma CleanAddressLines(r: string)
    requires '|' !in r && ';' !in r
    ensures AddressLines(r) == r
  {
    assert forall k :: 0 <= k < |r| ==> r[k] != '|' && r[k] != ';';
  }

  /** Joining two or more pieces puts a separator in the result. */
  lemma JoinHasSeparator(parts: seq<string>, sep: char)
    requires |parts| >= 2
    ensures sep in Join(parts, sep)
  {
    assert Join(parts, sep)[|parts[0]|] == sep;
  }

  /** A trimmed address on one line with no `|` or `;` is kept exactly as it is. */
  lemma OneLineAddressKept(t: string)
    requires Trimmed(t) && '\n' !in t && '|' !in t && ';' !in t
    ensures NormalizeAddress(t) == t
  {
    CleanAddressLines(t);
    var lines := Split(t, '\n');
    if |lines| >= 2 {
      JoinHasSeparator(lines, '\n');
      assert false;
    }
    assert lines == [t];
    StripTrimmed(t);
    assert KeptLines(lines) == (if t == [] then [] else [t]);
  }

  // -------------------------------------------------------------------- value

  predicate IsAddress(f: Field) {
    f == ShipperAddress || f == RecipientAddress
  }

  /** The field-specific step, applied to text that is already stripped. */
  function FieldRule(f: Field, t: string): (r: string)
    requires Trimmed(t)
    ensures Trimmed(r)
  {
    match f
    case PackageWeight => WeightTrimmed(t); NormalizeWeight(t)
    case ShippingDate => DateTrimmed(t); NormalizeDate(t)
    case ShipperAddress => NormalizeAddress(t)
    case RecipientAddress => NormalizeAddress(t)
    case _ => t
  }

  lemma WeightTrimmed(t: string)
    requires Trimmed(t)
    ensures Trimmed(NormalizeWeight(t))
  {
    if HasDigit(t) {
      var r := NormalizeWeight(t);
      var i :| FirstNumberAt(t, r, i);
      assert IsDigit(r[0]);
      assert IsDigit(r[|r| - 1]) || r[|r| - 1] == '.';
    }
  }

  lemma DateTrimmed(t: string)
    requires Trimmed(t)
    ensures Trimmed(NormalizeDate(t))
  {
    if ReadDate(t).Some? {
      DigitEndsTrimmed(NormalizeDate(t));
    }
  }

  lemma DigitEndsTrimmed(r: string)
    requires |r| > 0 && IsDigit(r[0]) && IsDigit(r[|r| - 1])
    ensures Trimmed(r)
  {
  }

  /** `_normalize_value`: the text stored for field `f` when its resolved value is `v`.
      It never begins or ends with whitespace. */
  function NormalizeValue(f: Field, v: Json): (r: string)
    ensures v == JNull ==> r == ""
    ensures Trimmed(r)
    ensures v != JNull && !IsAddress(f) && f != PackageWeight && f != ShippingDate ==> r == Strip(Str(v))
  {
    if v == JNull then "" else FieldRule(f, Strip(Str(v)))
  }

  /** A nested value under an address field, such as `["12 Main St\nApt 4"]`, is stored
      as one line: `str()` writes the line break inside it as the two characters `\n`,
      so, barring a `|` or `;`, the address rule has nothing to split. */
  lemma NestedAddressOneLine(f: Field, v: Json)
    requires IsAddress(f) && v != JNull && !v.JString? && PlainNumbers(v)
    requires '|' !in Str(v) && ';' !in Str(v)
    ensures NormalizeValue(f, v) == Strip(Str(v))
    ensures '\n' !in NormalizeValue(f, v)
  {
    var sv := Str(v);
    assert '\n' !in sv by {
      forall k | 0 <= k < |sv| ensures sv[k] != '\n' {
        assert !IsControl(sv[k]);
      }
    }
    var t := Strip(sv);
    StripKeepsOut(sv, '\n');
    StripKeepsOut(sv, '|');
    StripKeepsOut(sv, ';');
    OneLineAddressKept(t);
    assert NormalizeValue(f, v) == FieldRule(f, t);
  }

  /** Stripping never brings in a character the text did not have. */
  lemma StripKeepsOut(s: string, c: char)
    requires c !in s
    ensures c !in Strip(s)
  {
    var i, j :| 0 <= i <= j <= |s| && Strip(s) == s[i..j];
  }

  /** Applying the field rule to its own result changes nothing. */
  lemma FieldRuleIdempotent(f: Field, t: string)
    requires Trimmed(t)
    ensures FieldRule(f, FieldRule(f, t)) == FieldRule(f, t)
  {
    match f
    case PackageWeight => WeightIdempotent(t);
    case ShippingDate => DateIdempotent(t);
    case ShipperAddress => AddressIdempotent(t);
    case RecipientAddress => AddressIdempotent(t);
    case _ =>
  }

  /** Every field rule leaves the empty string empty. */
  lemma FieldRuleEmpty(f: Field, t: string)
    requires t == []
    ensures FieldRule(f, t) == []
  {
    match f
    case ShippingDate => EmptyIsNoDate(t);
    case ShipperAddress => AddressEmpty(t);
    case RecipientAddress => AddressEmpty(t);
    case _ =>
  }

  lemma AddressEmpty(t: string)
    requires t == []
    ensures NormalizeAddress(t) == []
  {
    assert AddressLines(t) == [];
    assert Split([], '\n') == [[]];
    assert KeptLines([[]]) == [];
  }

  lemma StripStringOfTrimmed(r: string)
    requires Trimmed(r)
    ensures Strip(Str(JString(r))) == r
  {
    assert Str(JString(r)) == r;
    StripTrimmed(r);
  }

  /** A stripped string value goes straight to its field rule. */
  lemma NormalizeTrimmedString(f: Field, r: string)
    requires Trimmed(r)
    ensures NormalizeValue(f, JString(r)) == FieldRule(f, r)
  {
    var v := JString(r);
    assert v != JNull;
    StripStringOfTrimmed(r);
    assert NormalizeValue(f, v) == FieldRule(f, Strip(Str(v)));
  }

  /** Normalising a normalised value again changes nothing, for every field. */
  lemma NormalizeIdempotent(f: Field, v: Json)
    ensures NormalizeValue(f, JString(NormalizeValue(f, v))) == NormalizeValue(f, v)
  {
    var r := NormalizeValue(f, v);
    NormalizeTrimmedString(f, r);
    if v == JNull {
      FieldRuleEmpty(f, r);
    } else {
      FieldRuleIdempotent(f, Strip(Str(v)));
    }
  }

  /** The empty string is no date. */
  lemma EmptyIsNoDate(s: string)
    requires s == []
    ensures ReadDate(s).None?
  {
    NoFormatReadsEmpty(s, DateFormats);
  }

  lemma NoFormatReadsEmpty(s: string, fmts: seq<Format>)
    requires s == [] && forall k :: 0 <= k < |fmts| ==> fmts[k] != []
    ensures FirstParse(s, fmts).None?
  {
    FirstParseFirst(s, fmts);
    forall k | 0 <= k < |fmts|
      ensures Strptime(s, fmts[k]).None?
    {
      NothingMatchesEmpty(fmts[k], s);
    }
  }

  /** A format with at least one directive matches nothing in the empty string. */
  lemma NothingMatchesEmpty(fmt: Format, s: string)
    requires fmt != [] && s == []
    ensures Match(fmt, s, 0).None?
  {
  }
}
