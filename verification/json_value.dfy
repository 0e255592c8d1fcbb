/**
 * An already-parsed JSON document, as `json.load` hands it to the mapper, and Python's
 * `str()` of such a value.
 *
 * Objects keep their members in document order. A number is carried by the text that
 * Python's `str()` prints for it (`45.5`, `33.2`, `1000`), so no floating-point
 * arithmetic is involved. `JNull` is Python's `None`.
 *
 * `json.load` never returns an object with a repeated key: the last member of that name
 * replaces the earlier ones. `JObject` does not rule repeated keys out, so it also holds
 * documents Python never produces. Nothing proved here needs distinct member keys, so
 * every property also holds for the documents `json.load` does produce.
 */
module JsonValue {
  import opened Options

  datatype Json =
    | JNull
    | JBool(b: bool)
    | JNumber(text: string)
    | JString(s: string)
    | JArray(items: seq<Json>)
    | JObject(members: seq<Member>)

  datatype Member = Member(key: string, value: Json)

  /** `x` is `v` itself or sits somewhere inside it. */
  predicate Occurs(x: Json, v: Json)
    decreases v
  {
    x == v
    || (v.JArray? && exists i :: 0 <= i < |v.items| && Occurs(x, v.items[i]))
    || (v.JObject? && exists i :: 0 <= i < |v.members| && Occurs(x, v.members[i].value))
  }

  /** Every number inside `v` is printed without control characters, as Python prints
      numbers. */
  predicate PlainNumbers(v: Json)
    decreases v
  {
    match v
    case JNumber(t) => forall i :: 0 <= i < |t| ==> !IsControl(t[i])
    case JArray(items) => forall i :: 0 <= i < |items| ==> PlainNumbers(items[i])
    case JObject(ms) => forall i :: 0 <= i < |ms| ==> PlainNumbers(ms[i].value)
    case _ => true
  }

  /** `str(v)`: a string is itself, everything else is its `repr`. Python prints a
      number without control characters, and then nothing `str()` writes for a
      non-string has one: a line break inside a nested string comes out as `\n`. */
  function Str(v: Json): (r: string)
    ensures v.JString? ==> r == v.s
    ensures !v.JString? && PlainNumbers(v) ==> forall i :: 0 <= i < |r| ==> !IsControl(r[i])
  {
    match v
    case JString(s) => s
    case _ => Repr(v)
  }

  /** `repr(v)` for the values `json.load` produces. */
  function Repr(v: Json): (r: string)
    ensures PlainNumbers(v) ==> forall i :: 0 <= i < |r| ==> !IsControl(r[i])
    decreases v
  {
    match v
    case JNull => "None"
    case JBool(b) => if b then "True" else "False"
    case JNumber(t) => t
    case JString(s) => ReprString(s)
    case JArray(items) => "[" + ReprItems(items) + "]"
    case JObject(ms) => "{" + ReprMembers(ms) + "}"
  }

  function ReprItems(items: seq<Json>): (r: string)
    ensures (forall i :: 0 <= i < |items| ==> PlainNumbers(items[i]))
            ==> forall i :: 0 <= i < |r| ==> !IsControl(r[i])
    decreases items
  {
    if items == [] then ""
    else if |items| == 1 then Repr(items[0])
    else Repr(items[0]) + ", " + ReprItems(items[1..])
  }

  function ReprMembers(ms: seq<Member>): (r: string)
    ensures (forall i :: 0 <= i < |ms| ==> PlainNumbers(ms[i].value))
            ==> forall i :: 0 <= i < |r| ==> !IsControl(r[i])
    decreases ms
  {
    if ms == [] then ""
    else
      var head := ReprString(ms[0].key) + ": " + Repr(ms[0].value);
      if |ms| == 1 then head else head + ", " + ReprMembers(ms[1..])
  }

  // ---------------------------------------------------------------- string repr

  /** The ASCII control characters, which `repr` never writes as they are. */
  predicate IsControl(c: char) {
    c < ' ' || c == '\U{007F}'
  }

  /** The quote `repr` puts around `s`: `"` when `s` holds a `'` and no `"`, otherwise
      `'` (and then any `'` inside is escaped). */
  function QuoteFor(s: string): (q: char)
    ensures q == '\'' || q == '"'
    ensures q == '"' <==> '\'' in s && '"' !in s
  {
    if '\'' in s && '"' !in s then '"' else '\''
  }

  const HexDigits: string := "0123456789abcdef"

  /** How `repr` writes one character of a string quoted with `q`: the quote and the
      backslash get a backslash, tab, line feed and carriage return their letter
      escapes, other control characters `\xhh` in lower-case hex. */
  function EscapeChar(c: char, q: char): (r: string)
    requires q == '\'' || q == '"'
    ensures 1 <= |r| <= 4
    ensures forall i :: 0 <= i < |r| ==> !IsControl(r[i])
    ensures r == [c] || r[0] == '\\'
  {
    if c == q || c == '\\' then ['\\', c]
    else if c == '\t' then "\\t"
    else if c == '\n' then "\\n"
    else if c == '\r' then "\\r"
    else if IsControl(c) then ['\\', 'x', HexDigits[c as int / 16], HexDigits[c as int % 16]]
    else [c]
  }

  /** The characters of `s` as `repr` writes them between quotes `q`. */
  function Escape(s: string, q: char): (r: string)
    requires q == '\'' || q == '"'
    ensures |s| <= |r| <= 4 * |s|
    ensures forall i :: 0 <= i < |r| ==> !IsControl(r[i])
  {
    if s == [] then [] else EscapeChar(s[0], q) + Escape(s[1..], q)
  }

  /** `repr(s)` of a string. Characters outside ASCII are written as they are. */
  function ReprString(s: string): (r: string)
    ensures |r| >= 2 && r[0] == QuoteFor(s) && r[|r| - 1] == QuoteFor(s)
    ensures forall i :: 0 <= i < |r| ==> !IsControl(r[i])
  {
    var q := QuoteFor(s);
    [q] + Escape(s, q) + [q]
  }

  function HexValue(h: char): (r: Option<nat>)
    ensures r.Some? ==> r.value < 16
  {
    if '0' <= h <= '9' then Some(h as int - '0' as int)
    else if 'a' <= h <= 'f' then Some(h as int - 'a' as int + 10)
    else None
  }

  function Cons(c: char, rest: Option<string>): Option<string> {
    match rest
    case Some(u) => Some([c] + u)
    case None => None
  }

  /** Reads the escapes of a string literal's body back; `None` for a dangling or
      unknown escape. */
  function Unescape(t: string): (r: Option<string>)
    decreases |t|
  {
    if t == [] then Some([])
    else if t[0] != '\\' then Cons(t[0], Unescape(t[1..]))
    else if |t| < 2 then None
    else if t[1] == 'x' then
      if |t| < 4 then None
      else
        match (HexValue(t[2]), HexValue(t[3]))
        case (Some(a), Some(b)) => Cons((16 * a + b) as char, Unescape(t[4..]))
        case _ => None
    else if t[1] == 't' then Cons('\t', Unescape(t[2..]))
    else if t[1] == 'n' then Cons('\n', Unescape(t[2..]))
    else if t[1] == 'r' then Cons('\r', Unescape(t[2..]))
    else if t[1] == '\\' || t[1] == '\'' || t[1] == '"' then Cons(t[1], Unescape(t[2..]))
    else None
  }

  /** Reads a quoted string literal as Python writes it. */
  function ReadString(r: string): Option<string> {
    if |r| >= 2 && (r[0] == '\'' || r[0] == '"') && r[|r| - 1] == r[0] then
      Unescape(r[1..|r| - 1])
    else None
  }

  lemma HexDigitValue(k: int)
    requires 0 <= k < 16
    ensures HexValue(HexDigits[k]) == Some(k)
  {
  }

  /** One escaped character reads back as itself, ahead of whatever follows. */
  lemma UnescapeChar(c: char, q: char, rest: string)
    requires q == '\'' || q == '"'
    ensures Unescape(EscapeChar(c, q) + rest) == Cons(c, Unescape(rest))
  {
    var e := EscapeChar(c, q);
    if c == q || c == '\\' || c == '\t' || c == '\n' || c == '\r' {
      assert (e + rest)[2..] == rest;
    } else if IsControl(c) {
      var n := c as int;
      HexDigitValue(n / 16);
      HexDigitValue(n % 16);
      assert (e + rest)[4..] == rest;
      assert (16 * (n / 16) + n % 16) as char == c;
    } else {
      assert (e + rest)[1..] == rest;
    }
  }

  /** Escaping is undone by `Unescape`. */
  lemma {:induction false} UnescapeEscape(s: string, q: char)
    requires q == '\'' || q == '"'
    ensures Unescape(Escape(s, q)) == Some(s)
  {
    if s != [] {
      UnescapeEscape(s[1..], q);
      UnescapeChar(s[0], q, Escape(s[1..], q));
      assert [s[0]] + s[1..] == s;
    }
  }

  /** `repr` of a string reads back as that string, whatever it holds. */
  lemma ReprStringRoundTrip(s: string)
    ensures ReadString(ReprString(s)) == Some(s)
  {
    var q := QuoteFor(s);
    var r := ReprString(s);
    assert r[1..|r| - 1] == Escape(s, q);
    UnescapeEscape(s, q);
  }

  /** `str()` of a list holding `a`, a line break and `b` is the eight characters
      `['a\nb']`: the line break becomes a backslash and an `n`. */
  lemma NestedLineBreak()
    ensures Str(JArray([JString("a\nb")])) == "['a\\nb']"
  {
    assert Escape("a\nb", '\'') == "a\\nb";
  }

  /** A string holding `'` and no `"` is quoted with `"`, as in `["it's"]`. */
  lemma ApostropheQuotedDouble()
    ensures Str(JArray([JString("it's")])) == "[\"it's\"]"
  {
    ApostropheRepr();
    assert ReprItems([JString("it's")]) == "\"it's\"";
  }

  lemma ApostropheRepr()
    ensures ReprString("it's") == "\"it's\""
  {
    var s := "it's";
    assert s[2] == '\'' && s == ['i', 't', '\'', 's'];
    assert '"' !in s;
    assert Escape(s, '"') == "it's" by {
      assert Escape(s[3..], '"') == "s";
      assert Escape(s[2..], '"') == "'s";
      assert Escape(s[1..], '"') == "t's";
    }
  }
}
