/**
 * `parse_json_data`: flatten the document, resolve each registry field through its
 * aliases, keep the fields that resolve to something other than `None` with their
 * normalised text, and record the flattened keys and the fields found as metadata.
 */
module Parser {
  import opened Options
  import opened Text
  import opened OrderedDict
  import opened JsonValue
  import opened Registry
  import opened Flatten
  import opened Resolve
  import opened Normalize

  /** `_metadata` without its timestamp: the flattened keys, in order, and the output
      entries whose keys do not start with `_`. */
  datatype Metadata = Metadata(originalKeys: seq<string>, foundMappings: Dict<string>)

  /** The parser's result: the fields found, each with its normalised text, followed in
      the output dict by `_metadata`. */
  datatype Parsed = Parsed(fields: seq<(Field, string)>, metadata: Metadata)

  const MetadataKey: string := "_metadata"

  /** `_flatten_json(data)`, the walk starting with an empty parent key. */
  function Flat(data: Json): Dict<Json> {
    Flatten.Flatten(data, "")
  }

  /** The value field `f` resolves to in the flattened document; `JNull` when none. */
  function Resolved(flat: Dict<Json>, f: Field): Json {
    FindValue(flat, Aliases(f))
  }

  /** The fields as the output dict holds them, keyed by field name. */
  function Entries(fields: seq<(Field, string)>): (d: Dict<string>)
    ensures |d| == |fields|
    ensures forall i :: 0 <= i < |fields| ==> d[i] == (Name(fields[i].0), fields[i].1)
  {
    seq(|fields|, i requires 0 <= i < |fields| => (Name(fields[i].0), fields[i].1))
  }

  predicate Private(key: string) {
    |key| > 0 && key[0] == '_'
  }

  /** `{k: v for k, v in d.items() if not k.startswith('_')}`. */
  function PublicEntries(d: Dict<string>): (r: Dict<string>)
    ensures forall p :: p in r <==> p in d && !Private(p.0)
    ensures |r| <= |d|
    ensures (forall i :: 0 <= i < |d| ==> !Private(d[i].0)) ==> r == d
  {
    if d == [] then []
    else (if Private(d[0].0) then [] else [d[0]]) + PublicEntries(d[1..])
  }

  /** What the output holds for field `f`: the normalised text of its resolved value,
      or nothing when that value is `None`. */
  function Stored(flat: Dict<Json>, f: Field): Option<string> {
    var v := Resolved(flat, f);
    if v == JNull then None else Some(NormalizeValue(f, v))
  }

  /** Fields strictly in registry order. */
  predicate InRegistryOrder(fs: seq<Field>) {
    forall i, j :: 0 <= i < j < |fs| ==> Rank(fs[i]) < Rank(fs[j])
  }

  /** The first components. */
  function Firsts<T>(fields: seq<(T, string)>): (r: seq<T>)
    ensures |r| == |fields| && forall i :: 0 <= i < |fields| ==> r[i] == fields[i].0
  {
    seq(|fields|, i requires 0 <= i < |fields| => fields[i].0)
  }

  /** The loop over the registry: each element of `fs` that `value` gives something
      for, with that text, in the order of `fs`. */
  function Collect<T>(fs: seq<T>, value: T -> Option<string>): (r: seq<(T, string)>)
    ensures forall i :: 0 <= i < |r| ==> r[i].0 in fs && value(r[i].0) == Some(r[i].1)
    ensures forall f :: f in fs && value(f).Some? ==> exists i :: 0 <= i < |r| && r[i].0 == f
    decreases |fs|
  {
    if fs == [] then []
    else
      var rest := Collect(fs[1..], value);
      match value(fs[0])
      case None => rest
      case Some(t) =>
        var r := [(fs[0], t)] + rest;
        forall i | 0 <= i < |r|
          ensures r[i].0 in fs && value(r[i].0) == Some(r[i].1)
        {
          if i > 0 {
            assert r[i] == rest[i - 1];
          }
        }
        forall f | f in fs && value(f).Some?
          ensures exists i :: 0 <= i < |r| && r[i].0 == f
        {
          if f == fs[0] {
            assert r[0].0 == f;
          } else {
            assert f in fs[1..];
            var i :| 0 <= i < |rest| && rest[i].0 == f;
            assert r[i + 1].0 == f;
          }
        }
        r
  }

  /** `Collect` keeps the order of its input. */
  lemma {:induction false} CollectOrdered(fs: seq<Field>, value: Field -> Option<string>)
    requires InRegistryOrder(fs)
    ensures InRegistryOrder(Firsts(Collect(fs, value)))
    decreases |fs|
  {
    if fs != [] {
      CollectOrdered(fs[1..], value);
      var rest := Collect(fs[1..], value);
      var r := Collect(fs, value);
      if value(fs[0]).Some? {
        assert r == [(fs[0], value(fs[0]).value)] + rest;
        forall i | 0 <= i < |rest|
          ensures Rank(fs[0]) < Rank(rest[i].0)
        {
          var k :| 0 <= k < |fs[1..]| && fs[1..][k] == rest[i].0;
          assert fs[k + 1] == rest[i].0;
        }
        ConsOrdered((fs[0], value(fs[0]).value), rest);
      } else {
        assert r == rest;
        assert InRegistryOrder(fs[1..]);
      }
    }
  }

  lemma ConsOrdered(p: (Field, string), rest: seq<(Field, string)>)
    requires InRegistryOrder(Firsts(rest))
    requires forall i :: 0 <= i < |rest| ==> Rank(p.0) < Rank(rest[i].0)
    ensures InRegistryOrder(Firsts([p] + rest))
  {
    var r := [p] + rest;
    forall i, j | 0 <= i < j < |r|
      ensures Rank(Firsts(r)[i]) < Rank(Firsts(r)[j])
    {
      assert r[j] == rest[j - 1];
      if i > 0 {
        assert r[i] == rest[i - 1];
        assert Firsts(rest)[i - 1] == rest[i - 1].0 && Firsts(rest)[j - 1] == rest[j - 1].0;
      }
    }
  }

  /** The text the fields hold for `f`, if `f` is among them. */
  function FieldText(fields: seq<(Field, string)>, f: Field): (r: Option<string>)
    ensures r.None? <==> forall i :: 0 <= i < |fields| ==> fields[i].0 != f
    ensures r.Some? ==> (f, r.value) in fields
  {
    if fields == [] then None
    else if fields[0].0 == f then Some(fields[0].1)
    else
      var r := FieldText(fields[1..], f);
      assert forall i :: 1 <= i < |fields| ==> fields[i] == fields[1..][i - 1];
      r
  }

  /** In registry order a field occurs once, so its entry is what `FieldText` finds. */
  lemma {:induction false} FieldTextAt(fields: seq<(Field, string)>, i: int)
    requires InRegistryOrder(Firsts(fields)) && 0 <= i < |fields|
    ensures FieldText(fields, fields[i].0) == Some(fields[i].1)
    decreases i
  {
    if i > 0 {
      assert Firsts(fields)[0] == fields[0].0 && Firsts(fields)[i] == fields[i].0;
      assert Firsts(fields[1..]) == Firsts(fields)[1..];
      FieldTextAt(fields[1..], i - 1);
    }
  }

  /** Collecting over fields in registry order records, for each of them, exactly what
      `value` gives. */
  lemma CollectTextIn(fs: seq<Field>, value: Field -> Option<string>, f: Field)
    requires InRegistryOrder(fs) && f in fs
    ensures FieldText(Collect(fs, value), f) == value(f)
  {
    var c := Collect(fs, value);
    CollectOrdered(fs, value);
    TextOfCollected(c, value, f);
  }

  lemma TextOfCollected(c: seq<(Field, string)>, value: Field -> Option<string>, f: Field)
    requires InRegistryOrder(Firsts(c))
    requires forall i :: 0 <= i < |c| ==> value(c[i].0) == Some(c[i].1)
    requires value(f).Some? ==> exists i :: 0 <= i < |c| && c[i].0 == f
    ensures FieldText(c, f) == value(f)
  {
    if value(f).Some? {
      var i :| 0 <= i < |c| && c[i].0 == f;
      FieldTextAt(c, i);
    } else {
      assert forall i :: 0 <= i < |c| ==> c[i].0 != f;
    }
  }

  /** Collecting over the registry records, for each field, exactly what `value`
      gives. */
  lemma CollectText(value: Field -> Option<string>, f: Field)
    ensures FieldText(Collect(Fields, value), f) == value(f)
  {
    RegistryOrdered();
    FieldListed(f);
    CollectTextIn(Fields, value, f);
  }

  lemma FieldListed(f: Field)
    ensures f in Fields
  {
    assert Fields[Rank(f)] == f;
  }

  /** `Stored` for one flattened document, as the value the registry loop consults. */
  function StoredIn(flat: Dict<Json>): Field -> Option<string> {
    f => Stored(flat, f)
  }

  /** `parse_json_data`, without `_metadata.parsed_at`: the fields found, in registry
      order, followed by the flattened keys and the public entries of the output. What
      each field holds is `ParsedText`. */
  function ParseJsonData(data: Json): (r: Parsed)
    ensures InRegistryOrder(Firsts(r.fields))
    ensures r.metadata.originalKeys == Keys(Flat(data))
    ensures r.metadata.foundMappings == Entries(r.fields)
  {
    var flat := Flat(data);
    var fields := Collect(Fields, StoredIn(flat));
    RegistryOrdered();
    CollectOrdered(Fields, StoredIn(flat));
    EntriesPublic(fields);
    Parsed(fields, Metadata(Keys(flat), PublicEntries(Entries(fields))))
  }

  /** Each field holds what `Stored` gives for it, and is absent when that is nothing. */
  lemma ParsedText(data: Json, f: Field)
    ensures FieldText(ParseJsonData(data).fields, f) == Stored(Flat(data), f)
  {
    CollectText(StoredIn(Flat(data)), f);
  }

  lemma RegistryOrdered()
    ensures InRegistryOrder(Fields)
  {
    RanksInOrder();
    forall i, j | 0 <= i < j < |Fields|
      ensures Rank(Fields[i]) < Rank(Fields[j])
    {
    }
  }

  /** No entry of the output has a key starting with `_`. */
  lemma EntriesPublic(fields: seq<(Field, string)>)
    ensures forall i :: 0 <= i < |Entries(fields)| ==> !Private(Entries(fields)[i].0)
  {
    forall i | 0 <= i < |fields|
      ensures !Private(Entries(fields)[i].0)
    {
      NamesArePublic(fields[i].0);
    }
  }

  /** The keys of the output dict: the found fields' names, then `_metadata`. */
  function OutputKeys(r: Parsed): seq<string> {
    Keys(Entries(r.fields)) + [MetadataKey]
  }

  /** Fields in registry order have distinct names. */
  lemma EntriesUnique(fields: seq<(Field, string)>)
    requires InRegistryOrder(Firsts(fields))
    ensures UniqueKeys(Entries(fields))
  {
    forall i, j | 0 <= i < j < |fields|
      ensures Entries(fields)[i].0 != Entries(fields)[j].0
    {
      assert Firsts(fields)[i] == fields[i].0 && Firsts(fields)[j] == fields[j].0;
      NamesDistinct(fields[i].0, fields[j].0);
    }
  }

  /** Looking a field's name up in the output dict finds that field's text. */
  lemma EntriesLookup(fields: seq<(Field, string)>, f: Field)
    requires InRegistryOrder(Firsts(fields))
    ensures Get(Entries(fields), Name(f)) == FieldText(fields, f)
  {
    var d := Entries(fields);
    EntriesUnique(fields);
    if FieldText(fields, f).None? {
      forall i | 0 <= i < |d|
        ensures Keys(d)[i] != Name(f)
      {
        NamesDistinct(fields[i].0, f);
      }
    } else {
      var i :| 0 <= i < |fields| && fields[i].0 == f;
      GetAt(d, i);
      FieldTextAt(fields, i);
    }
  }

  /** The output dict maps the name of field `f` to the normalised resolved value exactly
      when that value is not `None`; a JSON null therefore leaves the field out. */
  lemma ParsedLookup(data: Json, f: Field)
    ensures var v := Resolved(Flat(data), f);
            Get(Entries(ParseJsonData(data).fields), Name(f))
            == if v == JNull then None else Some(NormalizeValue(f, v))
  {
    ParsedEntry(data, f);
    StoredMeaning(Flat(data), f);
  }

  lemma ParsedEntry(data: Json, f: Field)
    ensures Get(Entries(ParseJsonData(data).fields), Name(f)) == Stored(Flat(data), f)
  {
    EntriesLookup(ParseJsonData(data).fields, f);
    ParsedText(data, f);
  }

  lemma StoredMeaning(flat: Dict<Json>, f: Field)
    ensures var v := Resolved(flat, f);
            Stored(flat, f) == if v == JNull then None else Some(NormalizeValue(f, v))
  {
  }

  /** The output's keys are distinct: the found fields' names, in order, then
      `_metadata`, which is no field's name. */
  predicate KeysShaped(r: Parsed) {
    var ks := OutputKeys(r);
    && |ks| == |r.fields| + 1 && ks[|r.fields|] == MetadataKey
    && (forall i :: 0 <= i < |r.fields| ==> ks[i] == Name(r.fields[i].0) && ks[i] != MetadataKey)
    && forall i, j :: 0 <= i < j < |ks| ==> ks[i] != ks[j]
  }

  lemma OutputKeysShape(data: Json)
    ensures KeysShaped(ParseJsonData(data))
  {
    KeysShape(ParseJsonData(data));
  }

  lemma KeysShape(r: Parsed)
    requires InRegistryOrder(Firsts(r.fields))
    ensures KeysShaped(r)
  {
    var ks := OutputKeys(r);
    var names := Keys(Entries(r.fields));
    assert ks == names + [MetadataKey];
    EntriesUnique(r.fields);
    forall i | 0 <= i < |r.fields|
      ensures ks[i] == Name(r.fields[i].0) && ks[i] != MetadataKey
    {
      assert ks[i] == names[i];
      NameNotMetadata(r.fields[i].0);
    }
  }

  lemma NameNotMetadata(f: Field)
    ensures Name(f) != MetadataKey
  {
    NamesArePublic(f);
    assert MetadataKey[0] == '_';
  }

  /** What the parser writes for a field never begins or ends with whitespace. */
  lemma ParsedTrimmed(data: Json, f: Field)
    requires FieldText(ParseJsonData(data).fields, f).Some?
    ensures Trimmed(FieldText(ParseJsonData(data).fields, f).value)
  {
    ParsedText(data, f);
    StoredTrimmed(Flat(data), f);
  }

  lemma StoredTrimmed(flat: Dict<Json>, f: Field)
    requires Stored(flat, f).Some?
    ensures Trimmed(Stored(flat, f).value)
  {
  }

  /** A JSON null under the first alias that is a key makes the field absent, even when
      another key would have matched it loosely. */
  lemma NullFieldAbsent(data: Json, f: Field, i: int)
    requires FirstExact(Flat(data), Aliases(f), i)
    requires Get(Flat(data), Aliases(f)[i]) == Some(JNull)
    ensures FieldText(ParseJsonData(data).fields, f) == None
  {
    ParsedText(data, f);
    ExactNullIsAbsent(Flat(data), Aliases(f), i);
  }

  /** A document that is not an object yields no fields and no original keys. */
  lemma NonObjectParsesEmpty(data: Json)
    requires !data.JObject?
    ensures ParseJsonData(data).fields == [] && ParseJsonData(data).metadata.originalKeys == []
  {
    var flat := Flat(data);
    assert flat == [];
    forall f
      ensures StoredIn(flat)(f).None?
    {
      NothingMatches(flat, Aliases(f));
    }
    CollectNothing(Fields, StoredIn(flat));
  }

  /** Nothing is collected where `value` gives nothing. */
  lemma CollectNothing<T>(fs: seq<T>, value: T -> Option<string>)
    requires forall x :: value(x).None?
    ensures Collect(fs, value) == []
  {
    var r := Collect(fs, value);
    assert |r| > 0 ==> value(r[0].0).Some?;
  }

}
