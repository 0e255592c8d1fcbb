/**
 * Python's `float()` applied to a string, as far as the weight check needs it: which
 * strings it accepts (surrounding whitespace, an optional sign, decimal digits grouped
 * by single underscores, an optional point and exponent, or `inf`, `infinity`, `nan` in
 * any case) and which side of 0 and of a bound the value falls on. Finite values are
 * held exactly as decimals.
 */
module PyFloat {
  import opened Options
  import opened Text

  /** What `float()` returns: the finite value `(-1)^neg * mant * 10^exp`, an infinity,
      or NaN. */
  datatype Float = Finite(neg: bool, mant: nat, exp: int) | Infinity(neg: bool) | NaN

  /** A run of digits in which single underscores may separate two digits. */
  predicate DigitPart(p: string) {
    && |p| > 0 && IsDigit(p[0]) && IsDigit(p[|p| - 1])
    && (forall k :: 0 <= k < |p| ==> IsDigit(p[k]) || p[k] == '_')
    && (forall k :: 0 <= k < |p| - 1 && p[k] == '_' ==> IsDigit(p[k + 1]))
  }

  /** The digits of a digit part, underscores dropped. */
  function Unscore(p: string): (r: string)
    ensures (forall k :: 0 <= k < |p| ==> IsDigit(p[k]) || p[k] == '_') ==> AllDigits(r)
    ensures |r| <= |p|
    ensures AllDigits(p) ==> r == p
    ensures (exists k :: 0 <= k < |p| && IsDigit(p[k])) ==> |r| > 0
  {
    if p == [] then []
    else
      var rest := Unscore(p[1..]);
      assert forall k :: 1 <= k < |p| ==> p[k] == p[1..][k - 1];
      if p[0] == '_' then rest else [p[0]] + rest
  }

  /** The position of the first character of `s` that `p` holds for. */
  function IndexOf(s: string, p: char -> bool): (r: Option<nat>)
    ensures r.None? <==> forall k :: 0 <= k < |s| ==> !p(s[k])
    ensures r.Some? ==> r.value < |s| && p(s[r.value]) && forall k :: 0 <= k < r.value ==> !p(s[k])
  {
    if s == [] then None
    else if p(s[0]) then Some(0)
    else
      match IndexOf(s[1..], p)
      case None =>
        assert forall k :: 1 <= k < |s| ==> s[k] == s[1..][k - 1];
        None
      case Some(i) =>
        assert forall k :: 1 <= k < i + 1 ==> s[k] == s[1..][k - 1];
        Some(i + 1)
  }

  predicate IsPoint(c: char) { c == '.' }

  predicate IsExponentMark(c: char) { c == 'e' || c == 'E' }

  /** The digits before the exponent: `digitpart`, `digitpart "."`, `"." digitpart` or
      `digitpart "." digitpart`, read as a whole number and a power of ten. */
  function Mantissa(m: string): (r: Option<(nat, int)>)
    ensures r.Some? ==> HasDigit(m) && r.value.1 <= 0
  {
    match IndexOf(m, IsPoint)
    case None =>
      if DigitPart(m) then
        assert IsDigit(m[0]);
        Some((NatOf(Unscore(m)), 0))
      else None
    case Some(d) =>
      var a, f := m[..d], m[d + 1..];
      if (a == [] || DigitPart(a)) && (f == [] || DigitPart(f)) && (a != [] || f != []) then
        if a != [] then assert IsDigit(m[0]); Some((NatOf(Unscore(a) + Unscore(f)), -|Unscore(f)|))
        else assert m[d + 1] == f[0]; Some((NatOf(Unscore(a) + Unscore(f)), -|Unscore(f)|))
      else None
  }

  /** The text after `e` or `E`: an optional sign and a digit part. */
  function Exponent(e: string): (r: Option<int>) {
    if |e| > 0 && (e[0] == '+' || e[0] == '-') then
      if DigitPart(e[1..]) then
        var n: int := NatOf(Unscore(e[1..]));
        Some(if e[0] == '-' then -n else n)
      else None
    else if DigitPart(e) then Some(NatOf(Unscore(e)))
    else None
  }

  /** An unsigned decimal literal: a mantissa, then optionally an exponent. */
  function Decimal(b: string): (r: Option<(nat, int)>)
    ensures r.Some? ==> HasDigit(b)
  {
    match IndexOf(b, IsExponentMark)
    case None => Mantissa(b)
    case Some(k) =>
      match (Mantissa(b[..k]), Exponent(b[k + 1..]))
      case (Some((n, p)), Some(x)) =>
        assert exists j :: 0 <= j < k && IsDigit(b[..k][j]);
        Some((n, p + x))
      case _ => None
  }

  /** The spellings of infinity and NaN, in any case. */
  predicate IsInfinity(b: string) {
    Lower(b) == "inf" || Lower(b) == "infinity"
  }

  predicate IsNan(b: string) {
    Lower(b) == "nan"
  }

  predicate IsSign(c: char) { c == '+' || c == '-' }

  /** The whitespace `float()` skips around its literal: blank, tab, line feed, vertical
      tab, form feed and carriage return. Unlike `str.strip()`, it does not skip the
      separators `\x1c`-`\x1f`. */
  predicate IsFloatSpace(c: char) {
    c == ' ' || c == '\t' || c == '\n' || c == '\U{000B}' || c == '\U{000C}' || c == '\r'
  }

  /** No `float()` whitespace at either end. */
  predicate Bare(s: string) {
    s == [] || (!IsFloatSpace(s[0]) && !IsFloatSpace(s[|s| - 1]))
  }

  function TrimLeft(s: string): (r: string)
    ensures |r| <= |s| && r == s[|s| - |r|..]
    ensures r == [] || !IsFloatSpace(r[0])
    ensures forall k :: 0 <= k < |s| - |r| ==> IsFloatSpace(s[k])
    decreases |s|
  {
    if s != [] && IsFloatSpace(s[0]) then TrimLeft(s[1..]) else s
  }

  function TrimRight(s: string): (r: string)
    ensures |r| <= |s| && r == s[..|r|]
    ensures r == [] || !IsFloatSpace(r[|r| - 1])
    ensures forall k :: |r| <= k < |s| ==> IsFloatSpace(s[k])
    decreases |s|
  {
    if s != [] && IsFloatSpace(s[|s| - 1]) then TrimRight(s[..|s| - 1]) else s
  }

  /** The literal `float()` reads: `s` without the `float()` whitespace at its ends. */
  function Trim(s: string): (r: string)
    ensures Bare(r)
    ensures exists i, j :: 0 <= i <= j <= |s| && r == s[i..j]
                           && (forall k :: 0 <= k < i ==> IsFloatSpace(s[k]))
                           && (forall k :: j <= k < |s| ==> IsFloatSpace(s[k]))
  {
    var l := TrimLeft(s);
    var r := TrimRight(l);
    assert r == s[|s| - |l|..|s| - |l| + |r|];
    r
  }

  lemma TrimBare(s: string)
    requires Bare(s)
    ensures Trim(s) == s
  {
  }

  /** `float(s)` on a string: `None` where Python raises `ValueError`. Only the six
      `float()` whitespace characters around the literal are ignored. */
  function ParseFloat(s: string): (r: Option<Float>)
    ensures r.Some? ==> Trim(s) != []
    ensures r.Some? && r.value.Finite? ==> HasDigit(s)
  {
    DigitSurvivesTrim(s);
    ParseLiteral(Trim(s))
  }

  lemma DigitSurvivesTrim(s: string)
    ensures HasDigit(Trim(s)) ==> HasDigit(s)
  {
    var t := Trim(s);
    if HasDigit(t) {
      var n :| 0 <= n < |t| && IsDigit(t[n]);
      var i, j :| 0 <= i <= j <= |s| && t == s[i..j];
      assert s[i + n] == t[n];
    }
  }

  /** The literal itself: an optional sign, then infinity, NaN or a decimal. */
  function ParseLiteral(t: string): (r: Option<Float>)
    ensures r.Some? ==> t != []
    ensures r.Some? && r.value.Finite? ==> HasDigit(t)
  {
    var neg := |t| > 0 && t[0] == '-';
    var start := if |t| > 0 && IsSign(t[0]) then 1 else 0;
    var b := t[start..];
    if IsInfinity(b) then
      Some(Infinity(neg))
    else if IsNan(b) then
      Some(NaN)
    else
      match Decimal(b)
      case None => None
      case Some((n, x)) =>
        DigitInSuffix(t, start);
        Some(Finite(neg, n, x))
  }

  lemma DigitInSuffix(t: string, j: nat)
    requires j <= |t|
    ensures HasDigit(t[j..]) ==> HasDigit(t)
  {
    if HasDigit(t[j..]) {
      var i :| 0 <= i < |t[j..]| && IsDigit(t[j..][i]);
      assert t[j + i] == t[j..][i];
    }
  }

  function Pow10(n: nat): (r: nat)
    ensures r >= 1
  {
    if n == 0 then 1 else 10 * Pow10(n - 1)
  }

  /** `x <= 0`; NaN compares false. */
  predicate AtMostZero(x: Float) {
    match x
    case Finite(neg, mant, _) => neg || mant == 0
    case Infinity(neg) => neg
    case NaN => false
  }

  /** `x > bound`, decided exactly on the decimal value; NaN compares false. */
  predicate Exceeds(x: Float, bound: nat) {
    match x
    case Finite(neg, mant, exp) =>
      !neg && (if exp >= 0 then mant * Pow10(exp) > bound else mant > bound * Pow10(-exp))
    case Infinity(neg) => !neg
    case NaN => false
  }

  // ------------------------------------------------------------------ lemmas

  lemma {:induction false} DigitsArePart(a: string)
    requires AllDigits(a) && |a| > 0
    ensures DigitPart(a) && Unscore(a) == a
  {
  }

  /** Text that starts with a digit spells neither infinity nor NaN. */
  lemma {:induction false} DigitNotSpecial(b: string)
    requires |b| > 0 && IsDigit(b[0])
    ensures !IsInfinity(b) && !IsNan(b)
  {
    assert Lower(b)[0] == b[0];
  }

  /** A literal whose first character is a digit is read by the decimal grammar. */
  lemma {:induction false} ReadsAsDecimal(s: string)
    requires Bare(s) && |s| > 0 && IsDigit(s[0])
    ensures ParseFloat(s) == match Decimal(s) case None => None case Some((n, x)) => Some(Finite(false, n, x))
  {
    TrimBare(s);
    DigitNotSpecial(s);
  }

  /** The first position where `p` holds is the one before which it never does. */
  lemma IndexAt(s: string, p: char -> bool, i: nat)
    requires i < |s| && p(s[i]) && forall k :: 0 <= k < i ==> !p(s[k])
    ensures IndexOf(s, p) == Some(i)
  {
  }

  /** The shape of digits, one separator, digits. */
  lemma {:induction false} Joined(a: string, c: char, f: string)
    requires AllDigits(a) && AllDigits(f)
    ensures var s := a + [c] + f;
            && |s| == |a| + 1 + |f| && s[|a|] == c && s[..|a|] == a && s[|a| + 1..] == f
            && (forall k :: 0 <= k < |s| ==> IsDigit(s[k]) || s[k] == c)
            && (forall k :: 0 <= k < |a| ==> IsDigit(s[k]))
  {
    var s := a + [c] + f;
    forall k | 0 <= k < |s|
      ensures IsDigit(s[k]) || s[k] == c
    {
      if k < |a| { assert s[k] == a[k]; }
      else if k > |a| { assert s[k] == f[k - |a| - 1]; }
    }
    assert s[..|a|] == a;
    assert s[|a| + 1..] == f;
  }

  lemma {:induction false} NoExponentMark(s: string)
    requires forall k :: 0 <= k < |s| ==> IsDigit(s[k]) || s[k] == '.' || s[k] == '_'
    ensures IndexOf(s, IsExponentMark).None?
  {
  }

  lemma {:induction false} NoPoint(s: string)
    requires forall k :: 0 <= k < |s| ==> IsDigit(s[k]) || s[k] == '_'
    ensures IndexOf(s, IsPoint).None?
  {
  }

  lemma {:induction false} MantissaWhole(a: string)
    requires AllDigits(a) && |a| > 0
    ensures Mantissa(a) == Some((NatOf(a), 0))
  {
    NoPoint(a);
    DigitsArePart(a);
  }

  lemma {:induction false} MantissaPoint(a: string, f: string)
    requires AllDigits(a) && |a| > 0 && AllDigits(f)
    ensures Mantissa(a + "." + f) == Some((NatOf(a + f), -|f|))
  {
    var s := a + "." + f;
    Joined(a, '.', f);
    IndexAt(s, IsPoint, |a|);
    DigitsArePart(a);
    if f != [] { DigitsArePart(f); }
  }

  /** Digits, then optionally a point and more digits: the number they write, scaled
      down by the digits after the point. */
  lemma {:induction false} PlainDecimal(a: string, f: string)
    requires AllDigits(a) && |a| > 0 && AllDigits(f)
    ensures ParseFloat(a + "." + f) == Some(Finite(false, NatOf(a + f), -|f|))
  {
    var s := a + "." + f;
    Joined(a, '.', f);
    ReadsAsDecimal(s);
    NoExponentMark(s);
    MantissaPoint(a, f);
  }

  /** A whole number written in digits. */
  lemma {:induction false} PlainWhole(a: string)
    requires AllDigits(a) && |a| > 0
    ensures ParseFloat(a) == Some(Finite(false, NatOf(a), 0))
  {
    ReadsAsDecimal(a);
    NoExponentMark(a);
    MantissaWhole(a);
  }

  lemma {:induction false} MantissaGrouped(a: string, b: string)
    requires AllDigits(a) && |a| > 0 && AllDigits(b) && |b| > 0
    ensures Mantissa(a + "_" + b) == Mantissa(a + b)
  {
    var s := a + "_" + b;
    MantissaWhole(a + b);
    Joined(a, '_', b);
    NoPoint(s);
    assert DigitPart(s) by {
      forall k | 0 <= k < |s| - 1 && s[k] == '_'
        ensures IsDigit(s[k + 1])
      {
        assert k == |a|;
        assert s[k + 1] == b[0];
      }
    }
    UnscoreSplit(a, b);
  }

  /** An underscore between two digits is ignored. */
  lemma {:induction false} GroupedDigits(a: string, b: string)
    requires AllDigits(a) && |a| > 0 && AllDigits(b) && |b| > 0
    ensures ParseFloat(a + "_" + b) == ParseFloat(a + b)
  {
    var s, t := a + "_" + b, a + b;
    Joined(a, '_', b);
    assert t[0] == a[0];
    assert forall k :: 0 <= k < |t| ==> IsDigit(t[k]) by {
      forall k | 0 <= k < |t|
        ensures IsDigit(t[k])
      {
        if k < |a| { assert t[k] == a[k]; } else { assert t[k] == b[k - |a|]; }
      }
    }
    MantissaGrouped(a, b);
    SameMantissa(s, t);
  }

  /** Two plain decimals with the same mantissa read the same. */
  lemma {:induction false} SameMantissa(s: string, t: string)
    requires |s| > 0 && IsDigit(s[0]) && |t| > 0 && IsDigit(t[0])
    requires forall k :: 0 <= k < |s| ==> IsDigit(s[k]) || s[k] == '_'
    requires forall k :: 0 <= k < |t| ==> IsDigit(t[k])
    requires Mantissa(s) == Mantissa(t)
    ensures ParseFloat(s) == ParseFloat(t)
  {
    NoExponentMark(s);
    NoExponentMark(t);
    assert Decimal(s) == Decimal(t);
    assert Bare(s) && Bare(t);
    ReadsAsDecimal(s);
    ReadsAsDecimal(t);
  }

  lemma {:induction false} UnscoreSplit(a: string, b: string)
    requires AllDigits(a) && AllDigits(b)
    ensures Unscore(a + "_" + b) == a + b
    decreases |a|
  {
    var p := a + "_" + b;
    if a == [] {
      assert p[0] == '_' && p[1..] == b;
    } else {
      assert p[0] == a[0] && p[1..] == a[1..] + "_" + b;
      UnscoreSplit(a[1..], b);
      assert a + b == [a[0]] + (a[1..] + b);
    }
  }

  lemma {:induction false} DecimalScientific(a: string, x: string)
    requires AllDigits(a) && |a| > 0 && AllDigits(x) && |x| > 0
    ensures Decimal(a + "e" + x) == Some((NatOf(a), NatOf(x) as int))
  {
    var s := a + "e" + x;
    Joined(a, 'e', x);
    IndexAt(s, IsExponentMark, |a|);
    MantissaWhole(a);
    DigitsArePart(x);
  }

  /** Digits, `e`, digits: the first number times ten to the second. */
  lemma {:induction false} ScientificWhole(a: string, x: string)
    requires AllDigits(a) && |a| > 0 && AllDigits(x) && |x| > 0
    ensures ParseFloat(a + "e" + x) == Some(Finite(false, NatOf(a), NatOf(x)))
  {
    var s := a + "e" + x;
    Joined(a, 'e', x);
    ReadsAsDecimal(s);
    DecimalScientific(a, x);
  }

  /** `float()` ignores its own whitespace around the literal. */
  lemma SurroundingSpace(s: string)
    ensures ParseFloat(s) == ParseFloat(Trim(s))
  {
    TrimBare(Trim(s));
  }

  /** The information separators `\x1c`-`\x1f`, which `str.strip()` removes, are part of
      the literal for `float()`, and a literal starting with one is refused. */
  lemma SeparatorRefused(c: char, t: string)
    requires '\U{001C}' <= c <= '\U{001F}'
    ensures ParseFloat([c] + t).None?
  {
    var s := [c] + t;
    TrimKeepsHead(s);
    SeparatorLiteral(Trim(s));
  }

  /** Trimming text that starts with a non-space keeps that first character. */
  lemma TrimKeepsHead(s: string)
    requires |s| > 0 && !IsFloatSpace(s[0])
    ensures |Trim(s)| > 0 && Trim(s)[0] == s[0]
  {
    assert TrimLeft(s) == s;
  }

  lemma SeparatorLiteral(r: string)
    requires |r| > 0 && '\U{001C}' <= r[0] <= '\U{001F}'
    ensures ParseLiteral(r).None?
  {
    assert Lower(r)[0] == r[0];
    DecimalNeedsDigit(r);
  }

  /** A literal that starts with neither a digit nor a point is not a decimal. */
  lemma DecimalNeedsDigit(b: string)
    requires |b| > 0 && !IsDigit(b[0]) && b[0] != '.'
    ensures Decimal(b).None?
  {
    match IndexOf(b, IsExponentMark)
    case None => MantissaNeedsDigit(b);
    case Some(k) =>
      if k > 0 {
        assert b[..k][0] == b[0];
        MantissaNeedsDigit(b[..k]);
      }
  }

  lemma MantissaNeedsDigit(m: string)
    requires |m| > 0 && !IsDigit(m[0]) && m[0] != '.'
    ensures Mantissa(m).None?
  {
    match IndexOf(m, IsPoint)
    case None =>
    case Some(d) =>
      assert d > 0 && m[..d][0] == m[0];
  }

  function Negate(r: Option<Float>): Option<Float> {
    match r
    case Some(Finite(neg, m, x)) => Some(Finite(!neg, m, x))
    case Some(Infinity(neg)) => Some(Infinity(!neg))
    case _ => r
  }

  /** A leading minus sign negates whatever the rest reads as and rejects what it
      rejects. */
  lemma {:induction false} MinusNegates(t: string)
    requires Bare(t) && |t| > 0 && !IsSign(t[0])
    ensures ParseFloat("-" + t) == Negate(ParseFloat(t))
  {
    var s := "-" + t;
    assert Bare(s);
    TrimBare(s);
    TrimBare(t);
    LiteralMinus(t);
  }

  lemma {:induction false} LiteralMinus(t: string)
    requires |t| > 0 && !IsSign(t[0])
    ensures ParseLiteral("-" + t) == Negate(ParseLiteral(t))
  {
    var s := "-" + t;
    assert s[0] == '-' && s[1..] == t;
  }

  /** The value a finite float stands for, as a fraction over a power of ten:
      `Scaled(x, k)` is `x * 10^k`, exact when `k` is at least `-exp`. */
  function Scaled(x: Float, k: nat): int
    requires x.Finite? && x.exp + k >= 0
  {
    (if x.neg then -1 else 1) * x.mant * Pow10(x.exp + k)
  }

  /** A trailing zero after the point changes neither comparison. */
  lemma TrailingZero(neg: bool, m: nat, x: int, bound: nat)
    ensures AtMostZero(Finite(neg, 10 * m, x - 1)) == AtMostZero(Finite(neg, m, x))
    ensures Exceeds(Finite(neg, 10 * m, x - 1), bound) == Exceeds(Finite(neg, m, x), bound)
  {
    if x >= 1 {
      assert Pow10(x) == 10 * Pow10(x - 1);
      assert 10 * m * Pow10(x - 1) == m * Pow10(x);
    } else {
      assert Pow10(-x + 1) == 10 * Pow10(-x);
      assert bound * Pow10(-x + 1) == 10 * (bound * Pow10(-x));
    }
  }

  /** `nan` and `inf`, `infinity` in any case, unsigned. */
  lemma NanReads(t: string)
    requires IsNan(t)
    ensures ParseFloat(t) == Some(NaN)
  {
    assert Lower(t)[0] == 'n' && Lower(t)[2] == 'n';
    TrimBare(t);
    NanLiteral(t);
  }

  lemma NanLiteral(t: string)
    requires IsNan(t)
    ensures ParseLiteral(t) == Some(NaN)
  {
    var l := Lower(t);
    assert l[0] == 'n' && |l| == 3;
    assert !IsSign(t[0]);
    assert l != "inf" && l != "infinity";
  }

  lemma InfinityReads(t: string)
    requires IsInfinity(t)
    ensures ParseFloat(t) == Some(Infinity(false))
  {
    InfinityBare(t);
    TrimBare(t);
    InfinityLiteral(t);
  }

  lemma InfinityBare(t: string)
    requires IsInfinity(t)
    ensures Bare(t)
  {
    var l := Lower(t);
    assert l[0] == 'i';
    assert l[|t| - 1] == 'f' || l[|t| - 1] == 'y';
  }

  lemma InfinityLiteral(t: string)
    requires IsInfinity(t)
    ensures ParseLiteral(t) == Some(Infinity(false))
  {
    assert Lower(t)[0] == 'i';
    assert !IsSign(t[0]);
  }
}
