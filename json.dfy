// A JSON document as the configuration files hold it. Objects keep their fields in
// document order, so rewriting one key leaves every other key where it was.
module Json {
  import opened Wrappers

  datatype Json =
    | JString(str: string)
    | JArray(items: seq<Json>)
    | JObject(fields: seq<Field>)
      // numbers, booleans and null: kept as their literal text, never inspected
    | JOther(literal: string)

  type Field = (string, Json)

  /** The keys of an object, in document order. */
  function Keys(fields: seq<Field>): (r: seq<string>)
    ensures |r| == |fields|
    ensures forall i :: 0 <= i < |fields| ==> r[i] == fields[i].0
  {
    if fields == [] then [] else [fields[0].0] + Keys(fields[1..])
  }

  /** `Map::get`: the value of the first field named `key`. */
  function Get(fields: seq<Field>, key: string): (r: Option<Json>)
    ensures r.Some? <==> key in Keys(fields)
    ensures r.Some? ==> (key, r.value) in fields
  {
    if fields == [] then None
    else if fields[0].0 == key then Some(fields[0].1)
    else Get(fields[1..], key)
  }

  /** `Value::get`: a field of an object; any other value has no fields. */
  function Member(doc: Json, key: string): (r: Option<Json>)
    ensures r.Some? <==> doc.JObject? && key in Keys(doc.fields)
  {
    if doc.JObject? then Get(doc.fields, key) else None
  }

  /** `Map::insert`: an existing key keeps its position and gets the new value,
      a new key is appended. */
  function Insert(fields: seq<Field>, key: string, value: Json): (r: seq<Field>)
    ensures Get(r, key) == Some(value)
    ensures forall k :: k != key ==> Get(r, k) == Get(fields, k)
  {
    if fields == [] then [(key, value)]
    else if fields[0].0 == key then [(key, value)] + fields[1..]
    else [fields[0]] + Insert(fields[1..], key, value)
  }

  /** Inserting never reorders or drops keys. */
  lemma {:induction false} InsertKeys(fields: seq<Field>, key: string, value: Json)
    ensures Keys(Insert(fields, key, value)) ==
            if key in Keys(fields) then Keys(fields) else Keys(fields) + [key]
  {
    if fields != [] {
      var r := Insert(fields, key, value);
      if fields[0].0 == key {
        assert r[1..] == fields[1..];
      } else {
        InsertKeys(fields[1..], key, value);
        assert r[1..] == Insert(fields[1..], key, value);
      }
    }
  }

  /** Inserting the value a key already has changes nothing. */
  lemma {:induction false} InsertExisting(fields: seq<Field>, key: string, value: Json)
    requires Get(fields, key) == Some(value)
    ensures Insert(fields, key, value) == fields
  {
    if fields[0].0 == key {
      assert [(key, value)] + fields[1..] == fields;
    } else {
      InsertExisting(fields[1..], key, value);
      assert [fields[0]] + fields[1..] == fields;
    }
  }

  /** The fields whose key is not in `keys`, in order. */
  function Without(fields: seq<Field>, keys: set<string>): (r: seq<Field>)
    ensures forall k :: k !in keys ==> Get(r, k) == Get(fields, k)
    ensures forall k :: k in keys ==> k !in Keys(r)
  {
    if fields == [] then []
    else if fields[0].0 in keys then Without(fields[1..], keys)
    else [fields[0]] + Without(fields[1..], keys)
  }

  lemma {:induction false} WithoutAbsent(fields: seq<Field>, keys: set<string>)
    requires forall k :: k in keys ==> k !in Keys(fields)
    ensures Without(fields, keys) == fields
  {
    if fields != [] {
      assert fields[0].0 == Keys(fields)[0];
      assert forall k :: k in Keys(fields[1..]) ==> k in Keys(fields) by {
        forall k | k in Keys(fields[1..])
          ensures k in Keys(fields)
        {
          var i :| 0 <= i < |fields[1..]| && Keys(fields[1..])[i] == k;
          assert Keys(fields)[i + 1] == k;
        }
      }
      WithoutAbsent(fields[1..], keys);
      assert [fields[0]] + fields[1..] == fields;
    }
  }

  /** A JSON array of strings, as `Vec<String>` deserialises it. */
  function AsStrings(doc: Json): (r: Option<seq<string>>)
    ensures r.Some? ==> doc.JArray? && |r.value| == |doc.items|
    ensures r.Some? ==> forall i :: 0 <= i < |doc.items| ==> doc.items[i] == JString(r.value[i])
  {
    if !doc.JArray? then None
    else StringItems(doc.items)
  }

  function StringItems(items: seq<Json>): (r: Option<seq<string>>)
    ensures r.Some? ==> |r.value| == |items|
    ensures r.Some? ==> forall i :: 0 <= i < |items| ==> items[i] == JString(r.value[i])
    ensures r.None? ==> exists i :: 0 <= i < |items| && !items[i].JString?
  {
    if items == [] then Some([])
    else if !items[0].JString? then None
    else match StringItems(items[1..])
      case None => None
      case Some(rest) => Some([items[0].str] + rest)
  }

  function FromStrings(strs: seq<string>): (r: Json)
    ensures AsStrings(r) == Some(strs)
  {
    var r := JArray(seq(|strs|, i requires 0 <= i < |strs| => JString(strs[i])));
    StringsRoundTrip(strs);
    r
  }

  lemma {:induction false} StringsRoundTrip(strs: seq<string>)
    ensures StringItems(seq(|strs|, i requires 0 <= i < |strs| => JString(strs[i]))) == Some(strs)
  {
    if strs != [] {
      var items := seq(|strs|, i requires 0 <= i < |strs| => JString(strs[i]));
      assert items[1..] == seq(|strs[1..]|, i requires 0 <= i < |strs[1..]| => JString(strs[1..][i]));
      StringsRoundTrip(strs[1..]);
      assert [strs[0]] + strs[1..] == strs;
    }
  }
}
