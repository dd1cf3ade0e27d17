// JSON documents as parsed trees, with the members of an object in their order and keys that may repeat.
module Documents {

  import opened Wrappers

  datatype Doc =
    | Obj(entries: seq<Entry>)
    | Arr(items: seq<Doc>)
    | Str(text: string)
    | Num(token: string)
    | Bool(truth: bool)
    | Null

  datatype Entry = Entry(key: string, value: Doc)

  /** The value of the first member with this key. */
  function Lookup(entries: seq<Entry>, key: string): (value: Option<Doc>)
    ensures value.Some? ==> exists i :: 0 <= i < |entries| && entries[i] == Entry(key, value.value)
  {
    if entries == [] then None
    else if entries[0].key == key then
      assert entries[0] == Entry(key, entries[0].value);
      Some(entries[0].value)
    else
      var rest := Lookup(entries[1..], key);
      assert rest.Some? ==> exists i :: 0 <= i < |entries[1..]| && entries[1..][i] == Entry(key, rest.value);
      assert forall i :: 0 <= i < |entries[1..]| ==> entries[1..][i] == entries[i + 1];
      rest
  }

  /** The member of a document, which only an object has. */
  function Get(doc: Doc, key: string): (value: Option<Doc>)
    ensures value.Some? ==> value.value < doc
  {
    if doc.Obj? then Lookup(doc.entries, key) else None
  }
}
