/**
 * `parseStats`: a `sep`-separated list of `key=value` records read into a map.  A record
 * without `=` is ignored, the value is everything after the first `=`, and of two
 * records with the same key the later one wins.
 */
module Stats {
  import opened Wrappers
  import opened Strings

  /** One `key=value` record. */
  datatype Field = Field(key: string, value: string)

  /** Go `strings.SplitN(record, "=", 2)` when it yields two parts; `None` when it yields one. */
  function KeyValue(record: string): (r: Option<Field>)
    ensures r.None? <==> '=' !in record
    ensures r.Some? ==> record == r.value.key + ['='] + r.value.value && '=' !in r.value.key
  {
    match IndexOf(record, '=')
    case None => None
    case Some(i) =>
      assert record == record[..i] + ['='] + record[i + 1..];
      Some(Field(record[..i], record[i + 1..]))
  }

  /** The key a record sets, if it sets one. */
  predicate Sets(record: string, key: string) {
    KeyValue(record).Some? && KeyValue(record).value.key == key
  }

  /** The records in order, each later record overwriting what an earlier one set. */
  function Collect(records: seq<string>): map<string, string>
    decreases |records|
  {
    if |records| == 0 then map[]
    else
      var m := Collect(records[..|records| - 1]);
      match KeyValue(records[|records| - 1])
      case None => m
      case Some(f) => m[f.key := f.value]
  }

  /** `parseStats(s, sep)` on a one-character separator. */
  function ParseStats(s: string, sep: char): map<string, string> {
    Collect(Split(s, sep))
  }

  /** Go's map lookup: the zero value `""` for a missing key. */
  function Get(m: map<string, string>, key: string): (v: string)
    ensures key in m ==> v == m[key]
    ensures key !in m ==> v == ""
  {
    if key in m then m[key] else ""
  }

  /** One more record: the map so far, with the new record's key overwritten if it sets one. */
  lemma CollectSnoc(records: seq<string>)
    requires |records| > 0
    ensures var n := |records| - 1;
      var kv := KeyValue(records[n]);
      Collect(records) == if kv.None? then Collect(records[..n]) else Collect(records[..n])[kv.value.key := kv.value.value]
  {
  }

  /** The records before the last are those of the prefix. */
  lemma PrefixAt(records: seq<string>)
    requires |records| > 0
    ensures forall j :: 0 <= j < |records| - 1 ==> records[..|records| - 1][j] == records[j]
  {
  }

  /** A key is in the map exactly when some record sets it. */
  lemma {:induction false} CollectKeys(records: seq<string>, key: string)
    ensures key in Collect(records) <==> exists i :: 0 <= i < |records| && Sets(records[i], key)
    decreases |records|
  {
    if |records| > 0 {
      var n := |records| - 1;
      var init := records[..n];
      CollectKeys(init, key);
      CollectSnoc(records);
      PrefixAt(records);
      assert key in Collect(records) <==> key in Collect(init) || Sets(records[n], key);
    }
  }

  /** The value a key maps to is that of the last record setting it. */
  lemma {:induction false} CollectLast(records: seq<string>, key: string, i: nat)
    requires i < |records| && Sets(records[i], key)
    requires forall j :: i < j < |records| ==> !Sets(records[j], key)
    ensures key in Collect(records)
    ensures Collect(records)[key] == KeyValue(records[i]).value.value
    decreases |records|
  {
    var n := |records| - 1;
    CollectSnoc(records);
    if i < n {
      var init := records[..n];
      PrefixAt(records);
      CollectLast(init, key, i);
      assert !Sets(records[n], key);
    }
  }

  /** The text of a record setting `f`. */
  function FieldText(f: Field): string {
    f.key + ['='] + f.value
  }

  function FieldTexts(fields: seq<Field>): (texts: seq<string>)
    ensures |texts| == |fields|
    ensures forall i :: 0 <= i < |fields| ==> texts[i] == FieldText(fields[i])
  {
    if |fields| == 0 then [] else [FieldText(fields[0])] + FieldTexts(fields[1..])
  }

  /** A field its record text can carry: no `=` in the key, no separator anywhere. */
  predicate Writable(f: Field, sep: char) {
    '=' !in f.key && sep !in f.key && sep !in f.value && sep != '='
  }

  lemma KeyValueOfFieldText(f: Field)
    requires '=' !in f.key
    ensures KeyValue(FieldText(f)) == Some(f)
  {
    IndexOfAppend(f.key, '=', f.value);
    var s := FieldText(f);
    assert s[..|f.key|] == f.key;
    assert s[|f.key| + 1..] == f.value;
  }

  /**
   * Reading back fields with distinct keys, written as `key=value` records joined by
   * `sep`, gives each key its value and no other key.
   */
  lemma ParseStatsJoin(fields: seq<Field>, sep: char)
    requires |fields| > 0
    requires forall i :: 0 <= i < |fields| ==> Writable(fields[i], sep)
    requires forall i, j :: 0 <= i < j < |fields| ==> fields[i].key != fields[j].key
    ensures forall key :: (key in ParseStats(Join(FieldTexts(fields), sep), sep)
      <==> exists i :: 0 <= i < |fields| && fields[i].key == key)
    ensures forall i :: 0 <= i < |fields| ==>
      ParseStats(Join(FieldTexts(fields), sep), sep)[fields[i].key] == fields[i].value
  {
    var texts := FieldTexts(fields);
    forall i | 0 <= i < |texts| ensures sep !in texts[i] {
      var f := fields[i];
      assert sep !in f.key + ['='];
    }
    SplitJoin(texts, sep);
    forall i | 0 <= i < |fields| ensures KeyValue(texts[i]) == Some(fields[i]) {
      KeyValueOfFieldText(fields[i]);
    }
    var m := ParseStats(Join(texts, sep), sep);
    forall key ensures key in m <==> exists i :: 0 <= i < |fields| && fields[i].key == key {
      CollectKeys(texts, key);
      if exists i :: 0 <= i < |fields| && fields[i].key == key {
        var i :| 0 <= i < |fields| && fields[i].key == key;
        assert Sets(texts[i], key);
      }
    }
    forall i | 0 <= i < |fields| ensures m[fields[i].key] == fields[i].value {
      forall j | i < j < |texts| ensures !Sets(texts[j], fields[i].key) {
        assert fields[j].key != fields[i].key;
      }
      CollectLast(texts, fields[i].key, i);
    }
  }

  /**
   * A record without `=` is ignored, a later record for the same key overwrites the
   * earlier one, and a value keeps any further `=` it contains.
   */
  lemma ParseStatsOverwrite(key: string, first: string, noise: string, last: string, sep: char)
    requires Writable(Field(key, first), sep) && Writable(Field(key, last), sep)
    requires '=' !in noise && sep !in noise
    ensures ParseStats(Join([FieldText(Field(key, first)), noise, FieldText(Field(key, last))], sep), sep)
         == map[key := last]
  {
    var a, b := FieldText(Field(key, first)), FieldText(Field(key, last));
    var records := [a, noise, b];
    FieldTextFree(Field(key, first), sep);
    FieldTextFree(Field(key, last), sep);
    SplitJoin(records, sep);
    KeyValueOfFieldText(Field(key, first));
    KeyValueOfFieldText(Field(key, last));
    CollectOverwrite(a, noise, b, key, first, last);
  }

  /** A writable field's record text holds no separator. */
  lemma FieldTextFree(f: Field, sep: char)
    requires Writable(f, sep)
    ensures sep !in FieldText(f)
  {
    assert sep !in f.key + ['='];
  }

  lemma CollectOverwrite(a: string, noise: string, b: string, key: string, first: string, last: string)
    requires KeyValue(a) == Some(Field(key, first)) && '=' !in noise && KeyValue(b) == Some(Field(key, last))
    ensures Collect([a, noise, b]) == map[key := last]
  {
    CollectSnoc([a]);
    assert [a][..0] == [];
    assert Collect([a]) == map[key := first];
    CollectSnoc([a, noise]);
    assert [a, noise][..1] == [a];
    assert Collect([a, noise]) == map[key := first];
    CollectSnoc([a, noise, b]);
    assert [a, noise, b][..2] == [a, noise];
    assert Collect([a, noise, b]) == map[key := first][key := last];
    assert map[key := first][key := last] == map[key := last];
  }

  /** An empty response gives an empty map. */
  lemma ParseStatsEmpty(sep: char)
    ensures ParseStats("", sep) == map[]
  {
    assert Split("", sep) == [""];
    assert [""][..0] == [];
    assert KeyValue("") == None;
  }
}
