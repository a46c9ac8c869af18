// Decoded JSON. A Json is a value as one iteration sees it: an object lists its
// entries in the order in which that iteration visits them. Go visits a map in a
// new order each time, so two looks at one value are two Json trees with the same
// meaning.
module JsonTree {
  import opened Wrappers
  import opened Sequences

  datatype Json =
    | Null
    | Bool(b: bool)
    | Number(text: string)
    | Str(text: string)
    | Array(items: seq<Json>)
    | Object(entries: seq<Entry>)

  datatype Entry = Entry(key: string, value: Json)

  function Lookup(entries: seq<Entry>, key: string): (r: Option<Json>) {
    if |entries| == 0 then None
    else if entries[0].key == key then Some(entries[0].value)
    else Lookup(entries[1..], key)
  }

  function EntryValues(entries: seq<Entry>): (vs: seq<Json>) {
    seq(|entries|, i requires 0 <= i < |entries| => entries[i].value)
  }

  // No object repeats a key, as in every Go map.
  predicate Distinct(j: Json)
    decreases j
  {
    match j
    case Array(items) => forall i :: 0 <= i < |items| ==> Distinct(items[i])
    case Object(entries) =>
      && (forall i, k :: 0 <= i < k < |entries| ==> entries[i].key != entries[k].key)
      && (forall i :: 0 <= i < |entries| ==> Distinct(entries[i].value))
    case _ => true
  }

  // ---------- The value itself ----------

  // A JSON value whose objects are tables without an order. A number is its
  // literal text, or what a reading of that text gives.
  datatype JsonValue =
    | NullValue
    | BoolValue(b: bool)
    | LiteralValue(text: string)
    | IntegerValue(i: int)
    | FloatValue(f: int)
    | StringValue(text: string)
    | ArrayValue(items: seq<JsonValue>)
    | ObjectValue(table: map<string, JsonValue>)

  // How number literals are read.
  type Numbers = string -> JsonValue

  function Meaning(j: Json, numbers: Numbers): (v: JsonValue)
    decreases j, 0
  {
    match j
    case Null => NullValue
    case Bool(b) => BoolValue(b)
    case Number(text) => numbers(text)
    case Str(text) => StringValue(text)
    case Array(items) => ArrayValue(MeaningsOf(items, numbers))
    case Object(entries) => ObjectValue(TableOf(entries, numbers))
  }

  function MeaningsOf(items: seq<Json>, numbers: Numbers): (vs: seq<JsonValue>)
    ensures |vs| == |items|
    decreases items, 1
  {
    seq(|items|, i requires 0 <= i < |items| => Meaning(items[i], numbers))
  }

  function TableOf(entries: seq<Entry>, numbers: Numbers): (t: map<string, JsonValue>)
    decreases entries, 1
  {
    if |entries| == 0 then map[]
    else TableOf(entries[1..], numbers)[entries[0].key := Meaning(entries[0].value, numbers)]
  }

  // Every number by its literal text, as json.Number keeps it.
  function AsWritten(text: string): (v: JsonValue) { LiteralValue(text) }

  // The value a Json tree is one view of.
  function ValueOf(j: Json): (v: JsonValue) { Meaning(j, AsWritten) }

  // Two views of one decoded value.
  predicate SameJson(a: Json, b: Json) { Distinct(a) && Distinct(b) && ValueOf(a) == ValueOf(b) }

  // Every number literal is one that JSON has.
  predicate Numerals(v: JsonValue, numeral: string -> bool) {
    match v
    case LiteralValue(text) => numeral(text)
    case ArrayValue(items) => forall i :: 0 <= i < |items| ==> Numerals(items[i], numeral)
    case ObjectValue(table) => forall key :: key in table ==> Numerals(table[key], numeral)
    case _ => true
  }

  // A value that decoding can yield.
  predicate Document(j: Json, numeral: string -> bool) { Distinct(j) && Numerals(ValueOf(j), numeral) }

  lemma {:induction false} TableLookup(entries: seq<Entry>, numbers: Numbers, key: string)
    ensures key in TableOf(entries, numbers) <==> Lookup(entries, key).Some?
    ensures Lookup(entries, key).Some? ==>
      TableOf(entries, numbers)[key] == Meaning(Lookup(entries, key).value, numbers)
  {
    if |entries| != 0 { TableLookup(entries[1..], numbers, key); }
  }

  lemma {:induction false} LookupAt(entries: seq<Entry>, i: nat)
    requires i < |entries|
    requires forall k, l :: 0 <= k < l < |entries| ==> entries[k].key != entries[l].key
    ensures Lookup(entries, entries[i].key) == Some(entries[i].value)
  {
    if i > 0 { LookupAt(entries[1..], i - 1); }
  }

  lemma {:induction false} LookupFound(entries: seq<Entry>, key: string) returns (i: nat)
    requires Lookup(entries, key).Some?
    ensures i < |entries| && entries[i].key == key && entries[i].value == Lookup(entries, key).value
  {
    if entries[0].key == key {
      i := 0;
    } else {
      var k := LookupFound(entries[1..], key);
      i := k + 1;
    }
  }

  // Two views of one value mean the same under every reading of the numbers.
  lemma {:induction false} SameUnderAnyNumbers(a: Json, b: Json, numbers: Numbers)
    requires ValueOf(a) == ValueOf(b)
    ensures Meaning(a, numbers) == Meaning(b, numbers)
    decreases a
  {
    match a
    case Array(items) =>
      forall i | 0 <= i < |items| ensures Meaning(items[i], numbers) == Meaning(b.items[i], numbers) {
        assert MeaningsOf(items, AsWritten)[i] == MeaningsOf(b.items, AsWritten)[i];
        SameUnderAnyNumbers(items[i], b.items[i], numbers);
      }
      assert MeaningsOf(items, numbers) == MeaningsOf(b.items, numbers);
    case Object(entries) =>
      SameTables(entries, b.entries, numbers);
    case _ =>
  }

  lemma {:induction false} SameTables(entries: seq<Entry>, others: seq<Entry>, numbers: Numbers)
    requires TableOf(entries, AsWritten) == TableOf(others, AsWritten)
    ensures TableOf(entries, numbers) == TableOf(others, numbers)
    decreases entries
  {
    hide TableOf;
    forall key
      ensures key in TableOf(entries, numbers) <==> key in TableOf(others, numbers)
      ensures key in TableOf(entries, numbers) ==> TableOf(entries, numbers)[key] == TableOf(others, numbers)[key]
    {
      TableLookup(entries, AsWritten, key);
      TableLookup(others, AsWritten, key);
      TableLookup(entries, numbers, key);
      TableLookup(others, numbers, key);
      if Lookup(entries, key).Some? {
        var i := LookupFound(entries, key);
        SameUnderAnyNumbers(entries[i].value, Lookup(others, key).value, numbers);
      }
    }
  }
}
