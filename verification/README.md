# Shipment JSON parser and upload filter — a Dafny model

This project models the part of the shipping-form automation that turns a shipment
document into the portal's canonical form fields, and the vendor portal's upload
filter.

- **JsonParser** (`nova_act_automation/json_parser.py`). The file
  `src/automation/json_parser.py` is an identical copy.
  - `_get_field_mappings`: the registry of nine canonical fields, each with ordered
    aliases.
  - `_flatten_json`: nested objects become dotted key paths, and a list of objects
    stands for its first element.
  - `_find_value_by_keys`: lookup in three tiers, tried in order: exact,
    case-insensitive, then partial.
  - `_normalize_value`, `_normalize_date` and `_normalize_address`: the per-field
    clean-up. It pulls the leading number out of a weight, rewrites a date as
    `YYYY-MM-DD` using the first of eight `strptime` formats that reads it, and puts
    an address one line per part.
  - `parse_json_data`: builds the output. Its `_metadata` holds the original keys and
    the found mappings.
  - `validate_parsed_data`: reports missing required fields, found fields, weight
    warnings and date warnings.
- **`allowed_file`** (`demo_vendor_portal/app.py`): a file name is accepted when the
  text after its last dot, lower-cased, is one of `ALLOWED_EXTENSIONS`.

## Layout

| module | file | contents |
|---|---|---|
| `Options` | options.dfy | `Option` |
| `JsonValue` | json_value.dfy | JSON values (objects keep member order) and Python's `str()` of them; objects may repeat a key, which `json.load` never returns, and no property relies on keys being distinct |
| `Text` | text.dfy | `strip`, `lower`, `split`, `join`, `replace` and substring search on ASCII text |
| `OrderedDict` | ordered_dict.dfy | insertion-ordered dicts as sequences of pairs with distinct keys; `dict(items)` |
| `Registry` | registry.dfy | the canonical fields, their keys, their aliases and the required fields |
| `Flatten` | flatten.dfy | `_flatten_json` |
| `Resolve` | resolve.dfy | `_find_value_by_keys` |
| `Dates` | dates.dfy | `datetime.strptime` for the directives used here, following CPython's `_strptime`; `strftime('%Y-%m-%d')` |
| `DateLayouts` | date_layouts.dfy | how the eight date formats read `MM/DD/YYYY`-shaped text |
| `PyFloat` | float.dfy | Python's `float()` on strings, as an exact decimal |
| `Normalize` | normalize.dfy | `_normalize_value`, `_normalize_date`, `_normalize_address` |
| `Parser` | parser.dfy | `parse_json_data` |
| `Validate` | validate.dfy | `validate_parsed_data` |
| `Portal` | portal.dfy | `ALLOWED_EXTENSIONS`, `allowed_file` |

### How the Python is read

- **Dicts keep insertion order.** Assigning to a key that already exists keeps the
  key's position and replaces its value. So `dict(items)` keeps the first position of
  each key and the last value given for it.
- **`strptime` follows CPython's `_strptime`.**
  - The format becomes a regular expression. Each directive's alternatives are tried in
    the library's order; `%m`, for example, tries `1[0-2]`, then `0[1-9]`, then `[1-9]`.
    A run of spaces in the format becomes `\s+`.
  - The expression is matched at the start of the text with backtracking.
  - Any unconverted text left over is an error.
  - The fields must then form a valid `datetime`: year 1 to 9999, and a day that
    exists in that month.
- **`float()` follows Python's full string grammar.** That covers a sign, digits with
  single underscores, a fraction, an exponent, and `inf`, `infinity` and `nan` in any
  case. It also covers surrounding whitespace, but only `float()`'s own six whitespace
  characters: blank, tab, line feed, vertical tab, form feed and carriage return. Unlike
  `str.strip()`, it does not skip the separators `\x1c`–`\x1f`, so a weight such as
  `"\x1c5"` is "not a valid number". A finite value is kept as an exact decimal
  `mant * 10^exp`. The comparisons `<= 0` and `> 1000` are made on that exact value.
- **The clock is a parameter.** `datetime.now()` in `validate_parsed_data` is the
  argument `now`.

### Behaviour worth knowing

- A document whose root is not an object flattens to nothing, so it parses to no
  fields. It is not rejected.
- A partial match goes to the first alias, in registry order, that matches any key, and
  then to the first such key in document order.
- The date rule writes `YYYY-MM-DD`. Text that no format reads is kept as it is.
- The weight stays a string: it is the first number in the text, and whatever follows
  that number, a unit included, is dropped. Validation looks only at the number.
- Validation uses two different tests:
  - The required and found lists use truthiness: the key is present and its text is
    not empty.
  - The weight and date warnings only ask whether the key is present, so an empty
    weight gets "not a valid number".
- A shipping date is compared as its midnight against `now`, which includes the time
  of day. A date equal to today's is therefore reported as in the past.

## Model

All `json_parser.py` citations refer to `nova_act_automation/json_parser.py`.

| member | source | states |
|---|---|---|
| Registry.Rank | nova_act_automation/json_parser.py:20-62 | every field has exactly one place in the registry, and the registry lists the field at that place |
| Registry.Aliases | nova_act_automation/json_parser.py:26-61 | a field's aliases are never empty, and the first alias is the field's own key |
| Registry.RegistryComplete | nova_act_automation/json_parser.py:20-62 | the registry lists every field once, and every required field is in it |
| Registry.NamesDistinct | nova_act_automation/json_parser.py:26-61 | different fields have different keys, so no two fields share an output entry |
| Registry.NamesArePublic | nova_act_automation/json_parser.py:26-61 | no field key starts with `_`, so `found_mappings` can never drop a field |
| JsonValue.Str | nova_act_automation/json_parser.py:156 | `str()` of a string is the string itself; for any other value, with numbers printed as Python prints them, the text holds no control character |
| JsonValue.Repr | nova_act_automation/json_parser.py:156 | with numbers printed as Python prints them, `repr` of a nested value holds no control character: line breaks, tabs and the like inside strings come out as escapes |
| JsonValue.ReprString | nova_act_automation/json_parser.py:156 | `repr` of a string is enclosed in the quote `repr` picks (`"` when the text holds `'` and no `"`, `'` otherwise) and holds no control character |
| JsonValue.ReprStringRoundTrip | nova_act_automation/json_parser.py:156 | reading the quoted literal `repr` writes gives back the original string, whatever characters it holds |
| JsonValue.NestedLineBreak | nova_act_automation/json_parser.py:156 | `str()` of a list holding `a`, a line break and `b` is the eight characters `['a\nb']`, with a backslash and `n` where the line break was |
| JsonValue.ApostropheQuotedDouble | nova_act_automation/json_parser.py:156 | `str(["it's"])` is `["it's"]`, quoted with `"` |
| OrderedDict.Insert | nova_act_automation/json_parser.py:127 | assigning an existing key replaces its value in place and leaves every other entry alone; a new key is appended; keys stay distinct |
| OrderedDict.FromPairs | nova_act_automation/json_parser.py:127 | `dict(items)` has distinct keys, and each of its entries is one of the given pairs |
| OrderedDict.FromPairsKeys | nova_act_automation/json_parser.py:127 | the keys of `dict(items)` are the distinct keys of the items, in order of first appearance |
| OrderedDict.FromPairsLast | nova_act_automation/json_parser.py:127 | every entry of `dict(items)` is the last pair given for its key |
| OrderedDict.GetFromPairs | nova_act_automation/json_parser.py:127 | looking up a key in `dict(items)` returns the value of that key's last pair |
| OrderedDict.GetFromRun | nova_act_automation/json_parser.py:127 | in `dict(a + c + b)` a pair of the key-distinct run `c` keeps its value when no pair of `b` reuses its key |
| Flatten.Flatten | nova_act_automation/json_parser.py:111-127 | keys are distinct; every value is a leaf that occurs inside the input; every key extends `parent.`; a non-object flattens to nothing |
| Flatten.ContributionKeyKept | nova_act_automation/json_parser.py:116-127 | every path that one member contributes is still a key after `dict()` merges the pairs |
| Flatten.LeafKept | nova_act_automation/json_parser.py:116-125 | a member holding a leaf value appears under its own path: the bare key at top level, `parent.key` below it |
| Flatten.ContributionValueKept | nova_act_automation/json_parser.py:116-127 | a path one member contributes keeps that member's value after `dict()` merges the pairs, unless a later member contributes the same path |
| Flatten.LeafValue | nova_act_automation/json_parser.py:124-127 | a leaf member's path holds that member's value, unless a later member contributes the same path (`{"a.b": 1, "a": {"b": 2}}` keeps 2) |
| Flatten.NestedLeafValue | nova_act_automation/json_parser.py:117-127 | a leaf inside a nested object holds its own value under the two-step dotted path, unless a later member inside or outside that object contributes the same path |
| Flatten.NestedLeafKept | nova_act_automation/json_parser.py:117-120 | a leaf inside a nested object appears under the two-step dotted path |
| Flatten.ListOfObjectsTakesFirst | nova_act_automation/json_parser.py:121-123 | a list whose first element is an object contributes exactly what that first object would, under the list's key and without an index |
| Flatten.EmptyObjectVanishes | nova_act_automation/json_parser.py:119-120 | an empty nested object contributes no key at all |
| Flatten.SingleLeaf | nova_act_automation/json_parser.py:116-125 | a one-member object with a leaf flattens to that single pair under its path |
| Flatten.SingleNested | nova_act_automation/json_parser.py:119-120 | wrapping an object in one more key only prefixes its paths with that key |
| Flatten.ThreeLevels | nova_act_automation/json_parser.py:117-120 | `{a: {b: {c: v}}}` flattens to the single key `a.b.c` |
| Resolve.ExactTier | nova_act_automation/json_parser.py:131-134 | finds nothing exactly when no alias is a key; otherwise gives the value of the first alias that is a key |
| Resolve.LowerDictLookup | nova_act_automation/json_parser.py:137-140 | the lower-cased dict has an alias exactly when some key matches it ignoring case, and then holds the value of the last such key |
| Resolve.CaseTier | nova_act_automation/json_parser.py:136-140 | finds nothing exactly when no alias matches a key ignoring case; otherwise takes the first such alias and the value of the last key of that spelling |
| Resolve.PartialTier | nova_act_automation/json_parser.py:142-146 | finds nothing exactly when no alias and key contain one another ignoring case; otherwise takes the first such alias and its first related key |
| Resolve.ExactWins | nova_act_automation/json_parser.py:131-134 | once an alias is a key, later tiers are never consulted, even when earlier aliases would match loosely |
| Resolve.ExactNullIsAbsent | nova_act_automation/json_parser.py:131-134 | an exact key holding `null` stops the search, so the field is treated as absent even if looser matches exist |
| Resolve.CaseTierDecides | nova_act_automation/json_parser.py:136-140 | with no exact key, the case-insensitive tier decides the value |
| Resolve.PartialTierDecides | nova_act_automation/json_parser.py:142-146 | with no exact or case-insensitive match, the partial tier decides the value |
| Resolve.NothingMatches | nova_act_automation/json_parser.py:142-148 | when no alias is even partially related to a key, the lookup returns `None` |
| Resolve.FoundValueIsStored | nova_act_automation/json_parser.py:129-148 | any non-`None` result is the value of some entry of the flattened document |
| Resolve.FindValue | nova_act_automation/json_parser.py:129-148 | no contract of its own: `ExactWins`, `ExactNullIsAbsent`, `CaseTierDecides`, `PartialTierDecides` and `NothingMatches` say which tier decides and what it returns, and `FoundValueIsStored` says every result other than `None` is a stored value |
| Text.Strip | nova_act_automation/json_parser.py:156 | the result has no surrounding whitespace, and it is a slice of the input with only whitespace cut from its two ends |
| Text.StripTrimmed | nova_act_automation/json_parser.py:156 | text without surrounding whitespace is left unchanged |
| Text.StripIdempotent | nova_act_automation/json_parser.py:156 | stripping twice is stripping once |
| Text.StripEmpty | nova_act_automation/json_parser.py:204 | a line strips to nothing exactly when it is all whitespace, so exactly such lines are dropped |
| Text.Split | nova_act_automation/json_parser.py:204 | the pieces contain no separator, and joining them with it gives back the input |
| Text.SplitJoin | nova_act_automation/json_parser.py:204-206 | splitting a join of separator-free pieces gives back the pieces |
| Text.Lower | nova_act_automation/json_parser.py:137-145 | lower-casing keeps the length and maps each character by itself |
| Text.ContainsAt | nova_act_automation/json_parser.py:145 | the substring test holds exactly when the needle occurs at some position |
| Text.ReplaceChar | nova_act_automation/json_parser.py:201 | each occurrence of the character is replaced and nothing else changes |
| Normalize.LeadingNumber | nova_act_automation/json_parser.py:162 | from a digit, the greedy `\d+\.?\d*` match is a number-shaped prefix, and no longer prefix is number-shaped |
| Normalize.NormalizeWeight | nova_act_automation/json_parser.py:159-163 | text without a digit is kept; otherwise the result is the longest number-shaped run starting at the first digit |
| Normalize.LeadingNumberOfNumber | nova_act_automation/json_parser.py:162 | a number-shaped text is its own leading number |
| Normalize.WeightIdempotent | nova_act_automation/json_parser.py:159-163 | normalising a weight a second time changes nothing |
| Normalize.NormalizeDate | nova_act_automation/json_parser.py:175-193 | text that no format reads is returned as it is; otherwise the result is ten characters with digits at both ends |
| Normalize.DateReadsBack | nova_act_automation/json_parser.py:185-188 | the rewritten date reads back under `%Y-%m-%d` as midnight of the date first read |
| Normalize.DateIdempotent | nova_act_automation/json_parser.py:175-193 | normalising a date a second time changes nothing |
| Normalize.EmptyIsNoDate | nova_act_automation/json_parser.py:185-193 | no format reads empty text, so empty text is kept |
| Normalize.NormalizeAddress | nova_act_automation/json_parser.py:198-206 | the result has no `\|` or `;` and no surrounding whitespace, and every character except the line breaks comes from the input |
| Normalize.AddressLinesBack | nova_act_automation/json_parser.py:204-206 | a non-empty result splits back into exactly the kept lines |
| Normalize.AddressIdempotent | nova_act_automation/json_parser.py:198-206 | normalising an address a second time changes nothing |
| Normalize.OneLineAddressKept | nova_act_automation/json_parser.py:198-206 | a stripped address on one line with no `\|` or `;` is kept exactly as it is |
| Normalize.NestedAddressOneLine | nova_act_automation/json_parser.py:156-171 | a list or object under an address field is stored as one line, because `str()` writes a line break inside it as an escape; only a `\|` or `;` in it would split it |
| Normalize.FieldRule | nova_act_automation/json_parser.py:158-173 | each field's rule, applied to stripped text, gives stripped text |
| Normalize.NormalizeValue | nova_act_automation/json_parser.py:150-173 | `None` gives the empty string; every result is stripped; a field without a special rule gets `str(value).strip()` |
| Normalize.FieldRuleIdempotent | nova_act_automation/json_parser.py:158-173 | applying a field's rule to its own output changes nothing |
| Normalize.NormalizeIdempotent | nova_act_automation/json_parser.py:150-173 | normalising an already normalised value as a string changes nothing |
| Dates.Strptime | nova_act_automation/json_parser.py:187 | whatever `strptime` returns is a valid date and time |
| Dates.FirstParse | nova_act_automation/json_parser.py:185-190 | whatever the format loop returns is a valid date and time |
| Dates.FirstParseFirst | nova_act_automation/json_parser.py:185-190 | the loop fails exactly when every format fails; otherwise it returns the reading of the first format that succeeds |
| Dates.FirstParseAt | nova_act_automation/json_parser.py:185-190 | if format `k` reads the text and no earlier format does, the loop returns format `k`'s reading |
| Dates.IsoDate | nova_act_automation/json_parser.py:188 | `strftime('%Y-%m-%d')` is ten characters with digits at both ends |
| Dates.Pad2Value | nova_act_automation/json_parser.py:188 | a zero-padded two-digit field reads back as its number |
| Dates.Pad4Value | nova_act_automation/json_parser.py:188 | a zero-padded four-digit year reads back as its number |
| Dates.IsoRoundTrip | nova_act_automation/json_parser.py:188 | `strptime(strftime(d, '%Y-%m-%d'), '%Y-%m-%d')` is midnight of `d` for every valid date |
| Dates.IsoParse | nova_act_automation/json_parser.py:180 | any format laid out as `%Y-%m-%d` reads an ISO date as its midnight |
| Dates.StrptimeOf | nova_act_automation/json_parser.py:187 | a full match whose fields form a valid date and time is what `strptime` returns |
| DateLayouts.DateFormatsLayouts | nova_act_automation/json_parser.py:179-183 | the eight formats have the layouts the slash-date lemmas rely on |
| DateLayouts.MonthFirstReads | nova_act_automation/json_parser.py:180 | `%m/%d/%Y` reads `MM/DD/YYYY` as that date when it exists, and refuses it otherwise |
| DateLayouts.DayFirstReads | nova_act_automation/json_parser.py:180 | `%d/%m/%Y` reads `DD/MM/YYYY` as that date |
| DateLayouts.MonthFirstRefuses | nova_act_automation/json_parser.py:180 | a month-first format refuses text whose first field is 13 to 31 |
| DateLayouts.DayFirstRefuses | nova_act_automation/json_parser.py:180 | `%d/%m/%Y` refuses text whose second field is 13 to 31 |
| DateLayouts.DateTimeNeedsTime | nova_act_automation/json_parser.py:181 | `%m/%d/%Y %H:%M:%S` refuses a bare `MM/DD/YYYY` |
| DateLayouts.YearFirstRefuses | nova_act_automation/json_parser.py:180-182 | a year-first format refuses any text shaped `NN/NN/NNNN`, since it cannot read four digits at the start |
| DateLayouts.MonthFirstParses | nova_act_automation/json_parser.py:185-190 | over any format list with these layouts, a valid `MM/DD/YYYY` date is read month first |
| DateLayouts.DayFirstParses | nova_act_automation/json_parser.py:185-190 | over any format list with these layouts, a valid `DD/MM/YYYY` date with a day of 13 or more is read day first |
| DateLayouts.MissingDayParsesNot | nova_act_automation/json_parser.py:185-190 | `MM/DD/YYYY` with a day of 13 or more that the month lacks is read by no format |
| DateLayouts.MonthFirstNormalized | nova_act_automation/json_parser.py:175-190 | the date rule rewrites a valid `MM/DD/YYYY` as the same date in `YYYY-MM-DD` |
| DateLayouts.DayFirstNormalized | nova_act_automation/json_parser.py:175-190 | the date rule rewrites a valid `DD/MM/YYYY` with a day of 13 or more as the same date in `YYYY-MM-DD` |
| DateLayouts.MissingDayKept | nova_act_automation/json_parser.py:185-193 | a slash date naming a day the month lacks is kept unchanged |
| PyFloat.Trim | nova_act_automation/json_parser.py:233 | the literal `float()` reads is the input with only its own six whitespace characters cut from the two ends |
| PyFloat.ParseFloat | nova_act_automation/json_parser.py:233 | accepted text is never blank once that whitespace is cut, and a finite reading needs a digit in the text |
| PyFloat.PlainWhole | nova_act_automation/json_parser.py:233 | a run of digits reads as its whole number |
| PyFloat.PlainDecimal | nova_act_automation/json_parser.py:233 | `a.f` reads as the digits of `a` and `f` together, scaled down by the length of `f` |
| PyFloat.GroupedDigits | nova_act_automation/json_parser.py:233 | an underscore between two digit groups does not change the value |
| PyFloat.ScientificWhole | nova_act_automation/json_parser.py:233 | `aex` reads as `a` times ten to the power `x` |
| PyFloat.SurroundingSpace | nova_act_automation/json_parser.py:233 | blanks, tabs, line feeds, vertical tabs, form feeds and carriage returns around the literal never change the reading |
| PyFloat.SeparatorRefused | nova_act_automation/json_parser.py:233 | text starting with one of `\x1c`–`\x1f` is refused, although `str.strip()` would remove it |
| PyFloat.MinusNegates | nova_act_automation/json_parser.py:233 | a leading minus negates the reading and is refused exactly when the unsigned text is |
| PyFloat.TrailingZero | nova_act_automation/json_parser.py:234-236 | writing a number with one more trailing zero never changes either comparison |
| PyFloat.NanReads | nova_act_automation/json_parser.py:233 | `nan` in any case reads as NaN |
| PyFloat.InfinityReads | nova_act_automation/json_parser.py:233 | `inf` and `infinity` in any case read as positive infinity |
| Parser.Collect | nova_act_automation/json_parser.py:92-95 | the kept fields are exactly the given fields whose value is not `None`, each paired with that value |
| Parser.CollectText | nova_act_automation/json_parser.py:92-95 | over the whole registry, the text kept for each field is that field's value |
| Parser.PublicEntries | nova_act_automation/json_parser.py:101 | exactly the entries whose key does not start with `_` are kept |
| Parser.ParseJsonData | nova_act_automation/json_parser.py:84-102 | fields come out in registry order; `original_keys` are the flattened keys in order; `found_mappings` are the field entries |
| Parser.ParsedText | nova_act_automation/json_parser.py:92-95 | a field's output text is the normalised value its aliases resolve to, and the field is absent when they resolve to nothing |
| Parser.ParsedLookup | nova_act_automation/json_parser.py:92-95 | looking up a field's key in the output gives `None` for a value that resolves to nothing, and the normalised value otherwise |
| Parser.ParsedEntry | nova_act_automation/json_parser.py:92-95 | looking up a field's key in the output gives exactly what the field stores |
| Parser.OutputKeysShape | nova_act_automation/json_parser.py:91-102 | the output's keys are the found field keys in registry order, all distinct, followed by `_metadata` |
| Parser.ParsedTrimmed | nova_act_automation/json_parser.py:95 | every stored text has no surrounding whitespace |
| Parser.NullFieldAbsent | nova_act_automation/json_parser.py:93-94 | a field whose first exact alias holds `null` is left out of the output |
| Parser.NonObjectParsesEmpty | nova_act_automation/json_parser.py:84-100 | a document that is not an object gives no fields and no original keys |
| Parser.EntriesLookup | nova_act_automation/json_parser.py:95 | on registry-ordered fields, looking up a field's key gives the text kept for that field |
| Parser.CollectOrdered | nova_act_automation/json_parser.py:92-95 | keeping some fields of a registry-ordered list leaves them in registry order |
| Validate.Missing | nova_act_automation/json_parser.py:219-223 | a field is reported missing exactly when it is required and absent or empty; the report is in registry order |
| Validate.Found | nova_act_automation/json_parser.py:225-228 | a field is reported found exactly when it is present and not empty; the report is in registry order |
| Validate.WeightWarnings | nova_act_automation/json_parser.py:231-239 | at most one weight warning: "not a number" exactly when a weight is present and `float()` refuses it; "not positive" exactly when it reads as `<= 0`; "too high" exactly when it reads above 1000 |
| Validate.DateWarnings | nova_act_automation/json_parser.py:241-247 | at most one date warning: "invalid" exactly when a date is present and `%Y-%m-%d` refuses it; "in the past" exactly when it reads as a moment before `now` |
| Validate.Warnings | nova_act_automation/json_parser.py:230-247 | each of the five warnings is raised exactly under its condition, and weight warnings come before date warnings |
| Validate.Message | nova_act_automation/json_parser.py:233-247 | the three weight warnings begin with "Package weight" and the two date warnings with "Shipping date" |
| Validate.MessagesDistinct | nova_act_automation/json_parser.py:233-247 | different warnings never carry the same text |
| Validate.ValidateParsedData | nova_act_automation/json_parser.py:208-250 | the record is valid exactly when nothing is missing; missing and found fields are exactly as above and in registry order; the warnings are exactly as above |
| Validate.NumberShapeReads | nova_act_automation/json_parser.py:233 | a number-shaped text always reads as a finite, non-negative number |
| Validate.NormalizedWeightReads | nova_act_automation/json_parser.py:233 | a weight cleaned from text that has a digit always reads as a finite, non-negative number |
| Validate.NormalizedWeightIsNumber | nova_act_automation/json_parser.py:231-239 | such a weight never draws "not a valid number" |
| Validate.WholeWeight | nova_act_automation/json_parser.py:231-239 | a whole-number weight warns "not positive" at 0, "too high" above 1000, and not at all otherwise |
| Validate.NanWeightSilent | nova_act_automation/json_parser.py:234-237 | a `nan` weight passes both comparisons and draws no warning |
| Validate.InfiniteWeightHigh | nova_act_automation/json_parser.py:234-237 | an `inf` weight is reported as unusually high |
| Validate.NormalizedDateAccepted | nova_act_automation/json_parser.py:241-247 | a date the date rule rewrote is never reported as invalid, and it is reported as past exactly when its midnight is before `now` |
| Validate.TodayIsPast | nova_act_automation/json_parser.py:243-245 | a shipping date equal to today's date is reported as in the past whenever `now` is later than midnight |
| Validate.ParsedTruthy | nova_act_automation/json_parser.py:221 | on the parser's output, a field is truthy exactly when the parser kept non-empty text for it |
| Validate.ParsedMissing | nova_act_automation/json_parser.py:219-223 | on the parser's output, a field is reported missing exactly when it is required and the parser kept no text or empty text for it |
| Portal.LastIndexOf | demo_vendor_portal/app.py:27 | finds nothing exactly when the character is absent; otherwise gives its position, with no later occurrence |
| Portal.AllowedFile | demo_vendor_portal/app.py:26-27 | a name is accepted exactly when it has a last dot and the lower-cased text after that dot is an allowed extension |
| Portal.NoDotRefused | demo_vendor_portal/app.py:27 | a name without a dot is refused |
| Portal.LastExtensionDecides | demo_vendor_portal/app.py:27 | for `base.ext`, only `ext` matters, whatever dots `base` holds |
| Portal.CaseDoesNotMatter | demo_vendor_portal/app.py:27 | lower-casing a name never changes whether it is accepted |
| Portal.ExtensionsAccepted | demo_vendor_portal/app.py:14 | every allowed extension is accepted after any base name |
| Portal.TrailingDotRefused | demo_vendor_portal/app.py:27 | a name ending in a dot is refused |

The lemmas `Validate.ParsedTruthy` and `Validate.ParsedMissing` are stated for any field
list in registry order. `Parser.ParseJsonData` guarantees that order, and
`Parser.ParsedText` says what each field holds. Together they link validation to
parsing.

## Left out

- Reading files and logging are not modelled: `parse_json_file`, `json.load` and the
  `logger` calls are I/O.
- `_metadata.parsed_at` is not modelled because it is a reading of the clock. The
  metadata keeps `original_keys` and `found_mappings`.
- The `try/except` wrappers are not modelled. They only re-raise or log: `raise` in
  `parse_json_data`, and the outer `except Exception` in `_normalize_date`, which no
  modelled input reaches.
- `str()` of a nested value follows Python's `repr`, including its choice of quote and
  its escapes for quotes, backslashes and ASCII control characters. Characters outside
  ASCII are written as they are. `repr` escapes the ones Unicode counts as not
  printable, and telling those apart needs the Unicode character database.
- Numbers in a document are carried as the text Python's `str()` gives them. IEEE
  binary rounding, overflow to infinity and underflow in `float()` are not modelled.
  `float()` values are exact decimals.
- Text handling is ASCII only:
  - `lower()` and `\d` act on ASCII letters and ASCII digits.
  - `strip()` and the regular expression `\s` act on ASCII whitespace, including
    `\x1c`–`\x1f`. `float()` strips only its own six whitespace characters.
  - Other Unicode case mappings, whitespace and digits are not modelled.
- Date formats are given as sequences of directives, not as format strings. Parsing a
  format string is not modelled.
- `strftime('%Y')` pads years below 1000 differently on different platforms. Here it
  always writes four zero-padded digits.
- `validate_parsed_data` takes a dict of strings, as `parse_json_data` produces. The
  `TypeError` branch for non-string values is therefore not modelled.
- The reports list `Field` values instead of their key strings. Each key is
  `Registry.Name`, which is injective (`Registry.NamesDistinct`).
- The following are outside this model:
  - `main.py`, `file_utils.py` and `config.py`;
  - the portal's Flask routes and `generate_confirmation_number`, which uses randomness
    and the clock;
  - the example scripts.
