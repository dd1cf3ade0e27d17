// Rewriting a Delta schema for the catalog's API, which spells the parameters of arrays and maps
// with dashes.
module WireSchema {

  import opened Wrappers
  import opened Documents

  const CAMEL := {"elementType", "containsNull", "keyType", "valueType", "valueContainsNull"}
  const DASHED := {"element-type", "contains-null", "key-type", "value-type", "value-contains-null"}

  function WireKey(key: string): (wire: string)
    ensures wire !in CAMEL
    ensures if key in CAMEL then wire in DASHED && PlainKey(wire) == key else wire == key
  {
    if key == "elementType" then "element-type"
    else if key == "containsNull" then "contains-null"
    else if key == "keyType" then "key-type"
    else if key == "valueType" then "value-type"
    else if key == "valueContainsNull" then "value-contains-null"
    else key
  }

  /** The inverse renaming. */
  function PlainKey(key: string): (plain: string)
    ensures plain !in DASHED
    ensures key !in DASHED ==> plain == key
  {
    if key == "element-type" then "elementType"
    else if key == "contains-null" then "containsNull"
    else if key == "key-type" then "keyType"
    else if key == "value-type" then "valueType"
    else if key == "value-contains-null" then "valueContainsNull"
    else key
  }

  /** A capital letter stands for a dash and the small letter. */
  function Dashed(key: string): (r: string) {
    if key == "" then ""
    else (if 'A' <= key[0] <= 'Z' then ['-', (key[0] as int + 32) as char] else [key[0]]) + Dashed(key[1..])
  }

  lemma {:induction false} DashedPlain(word: string, rest: string)
    requires forall i :: 0 <= i < |word| ==> !('A' <= word[i] <= 'Z')
    ensures Dashed(word + rest) == word + Dashed(rest)
  {
    if word == "" {
      assert word + rest == rest;
    } else {
      assert (word + rest)[0] == word[0] && (word + rest)[1..] == word[1..] + rest;
      DashedPlain(word[1..], rest);
    }
  }

  lemma DashedWord(letter: char, word: string, rest: string)
    requires 'A' <= letter <= 'Z' && forall i :: 0 <= i < |word| ==> !('A' <= word[i] <= 'Z')
    ensures Dashed([letter] + (word + rest)) == ['-', (letter as int + 32) as char] + (word + Dashed(rest))
  {
    hide Dashed;
    DashedPlain(word, rest);
    DashedFirst(letter, word + rest);
  }

  lemma DashedFirst(letter: char, rest: string)
    requires 'A' <= letter <= 'Z'
    ensures Dashed([letter] + rest) == ['-', (letter as int + 32) as char] + Dashed(rest)
  {
    assert ([letter] + rest)[1..] == rest;
  }

  lemma DashedTwo(first: string, letter: char, rest: string, key: string, wire: string)
    requires Small(first) && 'A' <= letter <= 'Z' && Small(rest)
    requires key == first + ([letter] + rest) && wire == first + (['-', (letter as int + 32) as char] + rest)
    ensures Dashed(key) == wire
  {
    TwoWords(first, letter, rest);
  }

  lemma DashedElement()
    ensures WireKey("elementType") == "element-type" == Dashed("elementType")
  {
    hide Dashed;
    DashedTwo("element", 'T', "ype", "elementType", "element-type");
  }

  lemma DashedContains()
    ensures WireKey("containsNull") == "contains-null" == Dashed("containsNull")
  {
    hide Dashed;
    DashedTwo("contains", 'N', "ull", "containsNull", "contains-null");
  }

  lemma DashedKey()
    ensures WireKey("keyType") == "key-type" == Dashed("keyType")
  {
    hide Dashed;
    DashedTwo("key", 'T', "ype", "keyType", "key-type");
  }

  lemma DashedValue()
    ensures WireKey("valueType") == "value-type" == Dashed("valueType")
  {
    hide Dashed;
    DashedTwo("value", 'T', "ype", "valueType", "value-type");
  }

  lemma DashedThree()
    ensures WireKey("valueContainsNull") == "value-contains-null" == Dashed("valueContainsNull")
  {
    hide Dashed;
    ThreeWords("value", 'C', "ontains", 'N', "ull");
    assert "value" + (['C'] + ("ontains" + (['N'] + "ull"))) == "valueContainsNull";
    assert "value" + (['-', 'c'] + ("ontains" + (['-', 'n'] + "ull"))) == "value-contains-null";
  }

  /** The five keys are the dashed spelling of the camelCase ones. */
  lemma WireKeysAreDashed(key: string)
    requires key in CAMEL
    ensures WireKey(key) == Dashed(key)
  {
    hide Dashed, WireKey;
    if key == "elementType" {
      DashedElement();
    } else if key == "containsNull" {
      DashedContains();
    } else if key == "keyType" {
      DashedKey();
    } else if key == "valueType" {
      DashedValue();
    } else {
      DashedThree();
    }
  }

  predicate Small(word: string) {
    forall i :: 0 <= i < |word| ==> !('A' <= word[i] <= 'Z')
  }

  lemma TwoWords(first: string, letter: char, rest: string)
    requires Small(first) && 'A' <= letter <= 'Z' && Small(rest)
    ensures Dashed(first + ([letter] + rest)) == first + (['-', (letter as int + 32) as char] + rest)
  {
    DashedPlain(first, [letter] + rest);
    DashedWord(letter, rest, "");
    assert rest + "" == rest;
    assert rest + Dashed("") == rest;
  }

  lemma ThreeWords(first: string, letter: char, second: string, letter': char, rest: string)
    requires Small(first) && 'A' <= letter <= 'Z' && Small(second) && 'A' <= letter' <= 'Z' && Small(rest)
    ensures Dashed(first + ([letter] + (second + ([letter'] + rest)))) ==
            first + (['-', (letter as int + 32) as char] + (second + (['-', (letter' as int + 32) as char] + rest)))
  {
    DashedPlain(first, [letter] + (second + ([letter'] + rest)));
    DashedWord(letter, second, [letter'] + rest);
    DashedWord(letter', rest, "");
    assert rest + "" == rest;
    assert rest + Dashed("") == rest;
  }

  // ---------- Putting members ----------

  /** Puts a member: in the place of the one with that key, or at the end. */
  function Put(entries: seq<Entry>, entry: Entry): (r: seq<Entry>) {
    if entries == [] then [entry]
    else if entries[0].key == entry.key then [entry] + entries[1..]
    else [entries[0]] + Put(entries[1..], entry)
  }

  function PutAll(entries: seq<Entry>): (r: seq<Entry>) {
    if entries == [] then [] else Put(PutAll(entries[..|entries| - 1]), entries[|entries| - 1])
  }

  predicate HasKey(entries: seq<Entry>, key: string) {
    exists i :: 0 <= i < |entries| && entries[i].key == key
  }

  predicate DistinctKeys(entries: seq<Entry>) {
    forall i, j :: 0 <= i < j < |entries| ==> entries[i].key != entries[j].key
  }

  lemma {:induction false} PutAppends(entries: seq<Entry>, entry: Entry)
    ensures HasKey(entries, entry.key) ==> |Put(entries, entry)| == |entries|
    ensures !HasKey(entries, entry.key) ==> Put(entries, entry) == entries + [entry]
    ensures forall e :: e in Put(entries, entry) ==> e == entry || e in entries
  {
    if entries != [] {
      PutAppends(entries[1..], entry);
      assert entries == [entries[0]] + entries[1..];
      if HasKey(entries, entry.key) && entries[0].key != entry.key {
        var i :| 0 <= i < |entries| && entries[i].key == entry.key;
        assert entries[1..][i - 1].key == entry.key;
      }
      if HasKey(entries[1..], entry.key) {
        var i :| 0 <= i < |entries[1..]| && entries[1..][i].key == entry.key;
        assert entries[i + 1].key == entry.key;
      }
    }
  }

  /** The key and position of every member that was there are kept. */
  lemma {:induction false} PutKeepsKeys(entries: seq<Entry>, entry: Entry)
    ensures |entries| <= |Put(entries, entry)| <= |entries| + 1
    ensures forall i :: 0 <= i < |entries| ==> Put(entries, entry)[i].key == entries[i].key
    ensures |Put(entries, entry)| == |entries| + 1 ==>
              Put(entries, entry)[|entries|].key == entry.key && forall i :: 0 <= i < |entries| ==> entries[i].key != entry.key
  {
    if entries != [] {
      PutKeepsKeys(entries[1..], entry);
    }
  }

  lemma PutStaysDistinct(entries: seq<Entry>, entry: Entry)
    requires DistinctKeys(entries)
    ensures DistinctKeys(Put(entries, entry))
  {
    PutKeepsKeys(entries, entry);
    hide Put;
  }

  /** Putting members one by one makes the keys distinct, and puts nothing that was not given. */
  lemma {:induction false} PutAllIsDistinct(entries: seq<Entry>)
    ensures DistinctKeys(PutAll(entries))
    ensures forall e :: e in PutAll(entries) ==> e in entries
    ensures |PutAll(entries)| <= |entries|
  {
    if entries != [] {
      var init, last := entries[..|entries| - 1], entries[|entries| - 1];
      assert entries == init + [last];
      PutAllIsDistinct(init);
      PutStaysDistinct(PutAll(init), last);
      PutAppends(PutAll(init), last);
    }
  }

  /** It changes nothing exactly if the keys were distinct: else a member is lost. */
  lemma {:induction false} PutAllOfDistinct(entries: seq<Entry>)
    ensures DistinctKeys(entries) ==> PutAll(entries) == entries
    ensures !DistinctKeys(entries) ==> |PutAll(entries)| < |entries|
  {
    if entries != [] {
      var init, last := entries[..|entries| - 1], entries[|entries| - 1];
      assert entries == init + [last];
      PutAllOfDistinct(init);
      PutAllIsDistinct(init);
      PutAppends(PutAll(init), last);
      DistinctSnoc(init, last);
      hide Put, PutAll, DistinctKeys, HasKey;
    }
  }

  lemma DistinctSnoc(init: seq<Entry>, last: Entry)
    ensures DistinctKeys(init + [last]) <==> DistinctKeys(init) && !HasKey(init, last.key)
  {
    var all := init + [last];
    assert forall i :: 0 <= i < |init| ==> all[i] == init[i];
    assert all[|init|] == last;
  }

  /** The value of the last member with a key. */
  function LastValue(entries: seq<Entry>, key: string): (r: Option<Doc>) {
    if entries == [] then None
    else if entries[|entries| - 1].key == key then Some(entries[|entries| - 1].value)
    else LastValue(entries[..|entries| - 1], key)
  }

  lemma {:induction false} PutIsLookedUp(entries: seq<Entry>, entry: Entry, key: string)
    ensures Lookup(Put(entries, entry), key) == if key == entry.key then Some(entry.value) else Lookup(entries, key)
  {
    if entries != [] {
      PutIsLookedUp(entries[1..], entry, key);
      assert Put(entries, entry)[1..] == if entries[0].key == entry.key then entries[1..] else Put(entries[1..], entry);
    } else {
      assert [entry][1..] == [];
      assert Lookup([entry][1..], key) == None;
    }
  }

  /** Where a key is put more than once, the last value stands. */
  lemma {:induction false} LastMemberStands(entries: seq<Entry>, key: string)
    ensures Lookup(PutAll(entries), key) == LastValue(entries, key)
  {
    if entries != [] {
      LastMemberStands(entries[..|entries| - 1], key);
      PutIsLookedUp(PutAll(entries[..|entries| - 1]), entries[|entries| - 1], key);
      hide Put, Lookup;
    }
  }

  // ---------- The rewriting ----------

  /**
   * Renames the keys of every object at every depth, a later member taking the place of an earlier one
   * of the same new key.
   */
  function WireCopy(doc: Doc): (r: Doc) {
    match doc
    case Obj(entries) =>
      Obj(PutAll(seq(|entries|, i requires 0 <= i < |entries| => Entry(WireKey(entries[i].key), WireCopy(entries[i].value)))))
    case Arr(items) => Arr(seq(|items|, i requires 0 <= i < |items| => WireCopy(items[i])))
    case _ => doc
  }

  function WireEntries(entries: seq<Entry>): (wired: seq<Entry>)
    ensures |wired| == |entries|
    ensures forall i :: 0 <= i < |entries| ==> wired[i] == Entry(WireKey(entries[i].key), WireCopy(entries[i].value))
  {
    seq(|entries|, i requires 0 <= i < |entries| => Entry(WireKey(entries[i].key), WireCopy(entries[i].value)))
  }

  /** The copy as it is built: members are put into a new object and items added to a new array, in their order. */
  method WireSchemaCopy(doc: Doc) returns (copy: Doc)
    ensures copy == WireCopy(doc)
    decreases doc
  {
    match doc
    case Obj(entries) =>
      var result: seq<Entry> := [];
      for i := 0 to |entries|
        invariant result == PutAll(WireEntries(entries)[..i])
      {
        var child := WireSchemaCopy(entries[i].value);
        var entry := Entry(WireKey(entries[i].key), child);
        assert WireEntries(entries)[..i + 1][..i] == WireEntries(entries)[..i];
        result := Put(result, entry);
      }
      assert WireEntries(entries)[..|entries|] == WireEntries(entries);
      copy := Obj(result);
    case Arr(items) =>
      var result: seq<Doc> := [];
      for i := 0 to |items|
        invariant |result| == i
        invariant forall j :: 0 <= j < i ==> result[j] == WireCopy(items[j])
      {
        var item := WireSchemaCopy(items[i]);
        result := result + [item];
      }
      copy := Arr(result);
      assert copy == WireCopy(doc);
    case _ =>
      copy := doc;
  }

  // ---------- What it does ----------

  /** Every object of the document, at any depth, has distinct keys, none of them among these. */
  predicate KeysWithin(doc: Doc, banned: set<string>) {
    match doc
    case Obj(entries) =>
      && DistinctKeys(entries)
      && forall i :: 0 <= i < |entries| ==> entries[i].key !in banned && KeysWithin(entries[i].value, banned)
    case Arr(items) => forall i :: 0 <= i < |items| ==> KeysWithin(items[i], banned)
    case _ => true
  }

  /**
   * Whatever the document, its copy has none of the five camelCase keys at any depth, and no key twice
   * in one object.
   */
  lemma {:induction false} CopyIsWire(doc: Doc)
    ensures KeysWithin(WireCopy(doc), CAMEL)
  {
    match doc
    case Obj(entries) =>
      var wired := WireEntries(entries);
      forall i | 0 <= i < |entries| ensures KeysWithin(wired[i].value, CAMEL) {
        CopyIsWire(entries[i].value);
      }
      PutAllIsDistinct(wired);
      hide PutAll, DistinctKeys;
      forall i | 0 <= i < |PutAll(wired)|
        ensures PutAll(wired)[i].key !in CAMEL && KeysWithin(PutAll(wired)[i].value, CAMEL)
      {
        assert PutAll(wired)[i] in wired;
      }
    case Arr(items) =>
      forall i | 0 <= i < |items| ensures KeysWithin(WireCopy(items[i]), CAMEL) {
        CopyIsWire(items[i]);
      }
    case _ =>
  }

  /** A document of that kind is left as it is. */
  lemma {:induction false} WireIsFixed(doc: Doc)
    requires KeysWithin(doc, CAMEL)
    ensures WireCopy(doc) == doc
  {
    match doc
    case Obj(entries) =>
      forall i | 0 <= i < |entries| ensures WireCopy(entries[i].value) == entries[i].value {
        WireIsFixed(entries[i].value);
      }
      assert WireEntries(entries) == entries;
      PutAllOfDistinct(entries);
    case Arr(items) =>
      forall i | 0 <= i < |items| ensures WireCopy(items[i]) == items[i] {
        WireIsFixed(items[i]);
      }
    case _ =>
  }

  lemma CopyIsIdempotent(doc: Doc)
    ensures WireCopy(WireCopy(doc)) == WireCopy(doc)
  {
    CopyIsWire(doc);
    WireIsFixed(WireCopy(doc));
  }

  /** The document with its keys renamed in place: the same shape, the same values, every member kept. */
  function Renamed(doc: Doc, rename: string -> string): (r: Doc) {
    match doc
    case Obj(entries) =>
      Obj(seq(|entries|, i requires 0 <= i < |entries| => Entry(rename(entries[i].key), Renamed(entries[i].value, rename))))
    case Arr(items) => Arr(seq(|items|, i requires 0 <= i < |items| => Renamed(items[i], rename)))
    case _ => doc
  }

  /** No object of the document, at any depth, has two keys that are spelled the same on the wire. */
  predicate NoClash(doc: Doc) {
    match doc
    case Obj(entries) =>
      && (forall i, j :: 0 <= i < j < |entries| ==> WireKey(entries[i].key) != WireKey(entries[j].key))
      && forall i :: 0 <= i < |entries| ==> NoClash(entries[i].value)
    case Arr(items) => forall i :: 0 <= i < |items| ==> NoClash(items[i])
    case _ => true
  }

  lemma SameElements<T>(a: seq<T>, b: seq<T>)
    requires |a| == |b|
    ensures a == b <==> forall i :: 0 <= i < |a| ==> a[i] == b[i]
  {
  }

  /** The copy keeps the document's shape and all its values at every depth exactly if no two of its keys clash. */
  lemma {:induction false} CopyKeepsEverything(doc: Doc)
    ensures WireCopy(doc) == Renamed(doc, WireKey) <==> NoClash(doc)
  {
    match doc
    case Obj(entries) =>
      forall i | 0 <= i < |entries|
        ensures WireCopy(entries[i].value) == Renamed(entries[i].value, WireKey) <==> NoClash(entries[i].value)
      {
        CopyKeepsEverything(entries[i].value);
      }
      MembersKept(doc, entries);
    case Arr(items) =>
      forall i | 0 <= i < |items|
        ensures WireCopy(items[i]) == Renamed(items[i], WireKey) <==> NoClash(items[i])
      {
        CopyKeepsEverything(items[i]);
      }
      ItemsKept(doc, items);
    case _ =>
  }

  lemma ItemsKept(doc: Doc, items: seq<Doc>)
    requires doc == Arr(items)
    requires forall i :: 0 <= i < |items| ==> (WireCopy(items[i]) == Renamed(items[i], WireKey) <==> NoClash(items[i]))
    ensures WireCopy(doc) == Renamed(doc, WireKey) <==> NoClash(doc)
  {
    var copied, renamed := WireCopy(doc).items, Renamed(doc, WireKey).items;
    SameElements(copied, renamed);
    assert forall i :: 0 <= i < |items| ==> copied[i] == WireCopy(items[i]) && renamed[i] == Renamed(items[i], WireKey);
    assert NoClash(doc) <==> forall i :: 0 <= i < |items| ==> NoClash(items[i]);
    assert WireCopy(doc) == Renamed(doc, WireKey) <==> copied == renamed;
    hide NoClash, WireCopy, Renamed;
    assert copied == renamed <==> forall i :: 0 <= i < |items| ==> copied[i] == renamed[i];
    assert forall i :: 0 <= i < |items| ==> (copied[i] == renamed[i] <==> NoClash(items[i]));
  }

  lemma MembersKept(doc: Doc, entries: seq<Entry>)
    requires doc == Obj(entries)
    requires forall i :: 0 <= i < |entries| ==>
               (WireCopy(entries[i].value) == Renamed(entries[i].value, WireKey) <==> NoClash(entries[i].value))
    ensures WireCopy(doc) == Renamed(doc, WireKey) <==> NoClash(doc)
  {
    hide PutAll, WireKey;
    var wired := WireEntries(entries);
    var renamed := Renamed(doc, WireKey).entries;
    assert WireCopy(doc) == Obj(PutAll(wired));
    PutAllOfDistinct(wired);
    assert wired == renamed <==> forall i :: 0 <= i < |entries| ==> NoClash(entries[i].value) by {
      ValuesKept(entries, wired, renamed);
    }
    assert DistinctKeys(wired) <==>
           forall i, j :: 0 <= i < j < |entries| ==> WireKey(entries[i].key) != WireKey(entries[j].key);
    assert WireCopy(doc) == Renamed(doc, WireKey) <==> PutAll(wired) == renamed;
  }

  lemma ValuesKept(entries: seq<Entry>, wired: seq<Entry>, renamed: seq<Entry>)
    requires wired == WireEntries(entries) && |renamed| == |entries|
    requires forall i :: 0 <= i < |entries| ==> renamed[i] == Entry(WireKey(entries[i].key), Renamed(entries[i].value, WireKey))
    requires forall i :: 0 <= i < |entries| ==>
               (WireCopy(entries[i].value) == Renamed(entries[i].value, WireKey) <==> NoClash(entries[i].value))
    ensures wired == renamed <==> forall i :: 0 <= i < |entries| ==> NoClash(entries[i].value)
  {
    hide NoClash, WireCopy, Renamed, WireKey;
    SameElements(wired, renamed);
    assert forall i :: 0 <= i < |entries| ==> (wired[i] == renamed[i] <==> NoClash(entries[i].value));
  }

  // ---------- Undoing it ----------

  /** Renaming keys keeps the number of members. */
  lemma RenamedEntries(entries: seq<Entry>, rename: string -> string)
    ensures Renamed(Obj(entries), rename).Obj? && |Renamed(Obj(entries), rename).entries| == |entries|
    ensures forall i :: 0 <= i < |entries| ==>
              Renamed(Obj(entries), rename).entries[i] == Entry(rename(entries[i].key), Renamed(entries[i].value, rename))
  {
  }

  lemma {:induction false} RenamedBack(doc: Doc)
    requires KeysWithin(doc, DASHED)
    ensures Renamed(WireCopy(doc), PlainKey) == doc && NoClash(doc)
  {
    match doc
    case Obj(entries) =>
      forall i | 0 <= i < |entries|
        ensures Renamed(WireCopy(entries[i].value), PlainKey) == entries[i].value && NoClash(entries[i].value)
        ensures PlainKey(WireKey(entries[i].key)) == entries[i].key
      {
        RenamedBack(entries[i].value);
      }
      var wired := WireEntries(entries);
      assert DistinctKeys(wired);
      PutAllOfDistinct(wired);
      RenamedEntries(wired, PlainKey);
      assert Renamed(Obj(wired), PlainKey).entries == entries;
    case Arr(items) =>
      forall i | 0 <= i < |items|
        ensures Renamed(WireCopy(items[i]), PlainKey) == items[i] && NoClash(items[i])
      {
        RenamedBack(items[i]);
      }
      assert Renamed(WireCopy(doc), PlainKey).items == items;
    case _ =>
  }

  /** Renaming back gives dashed keys up, and every member that comes back was there. */
  lemma {:induction false} OnlyOnThose(doc: Doc)
    requires Renamed(WireCopy(doc), PlainKey) == doc
    ensures KeysWithin(doc, DASHED)
  {
    match doc
    case Obj(entries) =>
      var wired := WireEntries(entries);
      RenamedEntries(PutAll(wired), PlainKey);
      PutAllOfDistinct(wired);
      assert |PutAll(wired)| == |entries|;
      assert DistinctKeys(wired);
      KeysComeBack(entries, wired);
      forall i | 0 <= i < |entries| ensures KeysWithin(entries[i].value, DASHED) {
        assert Renamed(Obj(wired), PlainKey).entries[i] == entries[i];
        OnlyOnThose(entries[i].value);
      }
    case Arr(items) =>
      forall i | 0 <= i < |items| ensures KeysWithin(items[i], DASHED) {
        assert Renamed(WireCopy(doc), PlainKey).items[i] == items[i];
        OnlyOnThose(items[i]);
      }
    case _ =>
  }

  lemma KeysComeBack(entries: seq<Entry>, wired: seq<Entry>)
    requires wired == WireEntries(entries) && DistinctKeys(wired)
    requires Renamed(Obj(wired), PlainKey) == Obj(entries)
    ensures DistinctKeys(entries) && forall i :: 0 <= i < |entries| ==> entries[i].key !in DASHED
  {
    RenamedEntries(wired, PlainKey);
    hide WireCopy, Renamed;
    forall i, j | 0 <= i < j < |entries| ensures entries[i].key != entries[j].key {
      assert wired[i].key == WireKey(entries[i].key) && wired[j].key == WireKey(entries[j].key);
    }
  }

  /**
   * The inverse renaming undoes the copy exactly on documents whose keys neither repeat nor are dashed
   * already.
   */
  lemma CopyIsUndone(doc: Doc)
    ensures Renamed(WireCopy(doc), PlainKey) == doc <==> KeysWithin(doc, DASHED)
  {
    if KeysWithin(doc, DASHED) {
      RenamedBack(doc);
    }
    if Renamed(WireCopy(doc), PlainKey) == doc {
      OnlyOnThose(doc);
    }
  }
}
