// Column types from the catalog's Delta StructField JSON.
module TypeJson {

  import opened Wrappers
  import opened Decimals
  import opened Documents
  import opened DeltaTypes
  import opened Texts

  /** A number that fits a byte, as decimal text. */
  function ParseByte(text: string): (r: Option<nat>) {
    if text != "" && AllDigits(text) && NatValue(text) <= 255 then Some(NatValue(text)) else None
  }

  const DECIMAL := "decimal("

  /** The precision and scale between the parentheses; anything after the first ')' is ignored. */
  function ParseDecimal(text: string): (r: Option<LogicalType>)
    requires StartsWith(text, DECIMAL)
  {
    var end := Find(text, ')');
    var sep := Find(text, ',');
    if end == |text| || sep == |text| || sep > end then None
    else
      assert sep >= 8 by { DecimalHasNoComma(text); }
      var precision := ParseByte(text[8..sep]);
      var scale := ParseByte(text[sep + 1..end]);
      if precision.None? || scale.None? then None else Some(Decimal(precision.value, scale.value))
  }

  lemma DecimalHasNoComma(text: string)
    requires StartsWith(text, DECIMAL)
    ensures Find(text, ',') >= 8 && Find(text, ')') >= 8
  {
    assert text == DECIMAL + text[8..];
    FindSkips(DECIMAL, ',', text[8..]);
    FindSkips(DECIMAL, ')', text[8..]);
  }

  lemma DigitsHaveNoSeparator(n: nat)
    ensures ',' !in NatText(n) && ')' !in NatText(n)
  {
  }

  /** Decimal text reads back exactly when both numbers fit a byte. */
  lemma DecimalReadsBack(precision: nat, scale: nat)
    ensures StartsWith(DecimalText(precision, scale), DECIMAL)
    ensures ParseDecimal(DecimalText(precision, scale)) == Meaning(DecimalType(precision, scale))
  {
    var p, s := NatText(precision), NatText(scale);
    var text := DecimalText(precision, scale);
    NatTextValue(precision);
    NatTextValue(scale);
    DigitsHaveNoSeparator(precision);
    DigitsHaveNoSeparator(scale);
    hide Find, NatText, NatValue;
    assert text[..8] == DECIMAL;
    assert text == (DECIMAL + p) + ([','] + (s + ")"));
    FindIn(DECIMAL + p, ',', s + ")");
    assert text == (DECIMAL + p + "," + s) + ([')'] + "");
    FindIn(DECIMAL + p + "," + s, ')', "");
    assert text[8..8 + |p|] == p;
    assert text[8 + |p| + 1..|text| - 1] == s;
  }

  function PrimitiveFromDeltaName(name: string): (r: Option<LogicalType>) {
    if name == "string" then Some(Varchar)
    else if name == "long" then Some(BigInt)
    else if name == "integer" then Some(Integer)
    else if name == "short" then Some(SmallInt)
    else if name == "byte" then Some(TinyInt)
    else if name == "float" then Some(Float)
    else if name == "double" then Some(Double)
    else if name == "boolean" then Some(Boolean)
    else if name == "binary" then Some(Blob)
    else if name == "date" then Some(Date)
    else if name == "timestamp" then Some(TimestampTz)
    else if name == "timestamp_ntz" then Some(Timestamp)
    else if name == "variant" then Some(Variant)
    else if name == "void" then Some(SqlNull)
    else if StartsWith(name, DECIMAL) then ParseDecimal(name)
    else None
  }

  /** A member that is a text. */
  function GetText(doc: Doc, key: string): (r: Option<string>) {
    var value := Get(doc, key);
    if value.Some? && value.value.Str? then Some(value.value.text) else None
  }

  /** The type a JSON value spells, or nothing where the code throws. */
  function TypeFromJsonValue(doc: Doc): (r: Option<LogicalType>)
    decreases doc, 1
  {
    if doc.Str? then PrimitiveFromDeltaName(doc.text)
    else
      var kind := GetText(doc, "type");
      if kind.None? then None
      else if kind.value == "struct" then StructFromJson(doc)
      else if kind.value == "array" then ListOf(TypeOfMember(doc, "elementType"))
      else if kind.value == "map" then MapOf(TypeOfMember(doc, "keyType"), TypeOfMember(doc, "valueType"))
      else None
  }

  function TypeOfMember(doc: Doc, key: string): (r: Option<LogicalType>)
    decreases doc, 0
  {
    var value := Get(doc, key);
    if value.None? then None else TypeFromJsonValue(value.value)
  }

  function StructFromJson(doc: Doc): (r: Option<LogicalType>)
    decreases doc, 0
  {
    var fields := Get(doc, "fields");
    if fields.None? || !fields.value.Arr? || fields.value.items == [] then None
    else StructOf(FieldsFromJson(fields.value, fields.value.items))
  }

  function FieldsFromJson(doc: Doc, items: seq<Doc>): (r: Option<seq<Child>>)
    requires forall i :: 0 <= i < |items| ==> items[i] < doc
    decreases doc, 0, |items|
  {
    if items == [] then Some([])
    else
      var name := GetText(items[0], "name");
      var first := if name.None? then None else ChildOf(name.value, TypeOfMember(items[0], "type"));
      Prepend(first, FieldsFromJson(doc, items[1..]))
  }

  /** The whole field, as the catalog sends it for a column. */
  function TypeFromJson(field: Doc): (r: Option<LogicalType>) {
    TypeOfMember(field, "type")
  }

  function PrependAll<T>(first: seq<T>, rest: Option<seq<T>>): (r: Option<seq<T>>) {
    if rest.None? then None else Some(first + rest.value)
  }

  lemma PrependAllNone<T>(rest: Option<seq<T>>)
    ensures PrependAll([], rest) == rest
  {
    if rest.Some? {
      assert [] + rest.value == rest.value;
    }
  }

  lemma PrependAllSnoc<T>(first: seq<T>, next: T, rest: Option<seq<T>>)
    ensures PrependAll(first, Prepend(Some(next), rest)) == PrependAll(first + [next], rest)
  {
    if rest.Some? {
      assert first + ([next] + rest.value) == first + [next] + rest.value;
    }
  }

  method ReadType(doc: Doc) returns (t: Option<LogicalType>)
    ensures t == TypeFromJsonValue(doc)
    decreases doc, 1
  {
    if doc.Str? {
      return PrimitiveFromDeltaName(doc.text);
    }
    var kind := GetText(doc, "type");
    if kind.None? {
      return None;
    }
    if kind.value == "struct" {
      t := ReadStruct(doc);
    } else if kind.value == "array" {
      var element := ReadMember(doc, "elementType");
      t := ListOf(element);
    } else if kind.value == "map" {
      var key := ReadMember(doc, "keyType");
      var value := ReadMember(doc, "valueType");
      t := MapOf(key, value);
    } else {
      t := None;
    }
  }

  method ReadMember(doc: Doc, key: string) returns (t: Option<LogicalType>)
    ensures t == TypeOfMember(doc, key)
    decreases doc, 0
  {
    var value := Get(doc, key);
    if value.None? {
      return None;
    }
    t := ReadType(value.value);
  }

  /** Appends the fields in order; one without a name or a readable type, or no field at all, is refused. */
  method ReadStruct(doc: Doc) returns (t: Option<LogicalType>)
    ensures t == StructFromJson(doc)
    decreases doc, 0
  {
    var fields := Get(doc, "fields");
    if fields.None? || !fields.value.Arr? {
      return None;
    }
    var items := fields.value.items;
    var children: seq<Child> := [];
    assert items[0..] == items;
    PrependAllNone(FieldsFromJson(fields.value, items));
    for i := 0 to |items|
      invariant |children| == i
      invariant FieldsFromJson(fields.value, items) == PrependAll(children, FieldsFromJson(fields.value, items[i..]))
    {
      hide PrependAll;
      assert items[i..][0] == items[i] && items[i..][1..] == items[i + 1..];
      var name := GetText(items[i], "name");
      if name.None? {
        return None;
      }
      var fieldType := ReadMember(items[i], "type");
      if fieldType.None? {
        return None;
      }
      PrependAllSnoc(children, Child(name.value, fieldType.value), FieldsFromJson(fields.value, items[i + 1..]));
      children := children + [Child(name.value, fieldType.value)];
    }
    assert items[|items|..] == [] && children + [] == children;
    if children == [] {
      return None;
    }
    t := Some(Struct(children));
  }

  // ---------- Reading back ----------

  lemma MembersOfArray(element: Doc, containsNull: bool)
    ensures var doc := Obj([Entry("type", Str("array")), Entry("elementType", element),
                            Entry("containsNull", Bool(containsNull))]);
            Get(doc, "type") == Some(Str("array")) && Get(doc, "elementType") == Some(element)
  {
    var entries := [Entry("type", Str("array")), Entry("elementType", element), Entry("containsNull", Bool(containsNull))];
    assert entries[1..][0] == Entry("elementType", element);
    assert Lookup(entries[1..], "elementType") == Some(element);
  }

  lemma MembersOfMap(key: Doc, value: Doc, valueContainsNull: bool)
    ensures var doc := Obj([Entry("type", Str("map")), Entry("keyType", key), Entry("valueType", value),
                            Entry("valueContainsNull", Bool(valueContainsNull))]);
            Get(doc, "type") == Some(Str("map")) && Get(doc, "keyType") == Some(key) && Get(doc, "valueType") == Some(value)
  {
    var entries := [Entry("type", Str("map")), Entry("keyType", key), Entry("valueType", value),
                    Entry("valueContainsNull", Bool(valueContainsNull))];
    assert entries[1..][0] == Entry("keyType", key);
    assert Lookup(entries[1..], "keyType") == Some(key);
    assert entries[1..][1..][0] == Entry("valueType", value);
    assert Lookup(entries[1..][1..], "valueType") == Some(value);
    assert Lookup(entries[1..], "valueType") == Some(value);
  }

  lemma MembersOfStruct(fields: seq<Doc>)
    ensures var doc := Obj([Entry("type", Str("struct")), Entry("fields", Arr(fields))]);
            Get(doc, "type") == Some(Str("struct")) && Get(doc, "fields") == Some(Arr(fields))
  {
    var entries := [Entry("type", Str("struct")), Entry("fields", Arr(fields))];
    assert entries[1..][0] == Entry("fields", Arr(fields));
    assert Lookup(entries[1..], "fields") == Some(Arr(fields));
  }

  lemma MembersOfField(field: Field, fieldType: Doc)
    ensures Get(FieldEntry(field, fieldType), "name") == Some(Str(field.name))
    ensures Get(FieldEntry(field, fieldType), "type") == Some(fieldType)
  {
    var entries := FieldEntry(field, fieldType).entries;
    assert entries[1..][0] == Entry("type", fieldType);
    assert Lookup(entries[1..], "type") == Some(fieldType);
  }

  // ---------- Exactly the decimals ----------

  predicate ReadsByte(digits: string, value: nat) {
    digits != "" && AllDigits(digits) && NatValue(digits) == value <= 255
  }

  lemma ByteExactly(digits: string, value: nat)
    ensures ParseByte(digits) == Some(value) <==> ReadsByte(digits, value)
  {
  }

  predicate SpellsDecimal(text: string, precision: string, scale: string, tail: string) {
    text == "decimal(" + precision + "," + scale + ")" + tail
  }

  /** Digits, a comma, digits, a parenthesis, each number up to 255 and perhaps with leading zeros, and then anything. */
  lemma DecimalExactly(text: string, precision: nat, scale: nat)
    requires StartsWith(text, "decimal(")
    ensures ParseDecimal(text) == Some(Decimal(precision, scale)) <==>
            exists p, s, tail :: SpellsDecimal(text, p, s, tail) && ReadsByte(p, precision) && ReadsByte(s, scale)
  {
    hide ParseByte, ReadsByte, SpellsDecimal;
    if ParseDecimal(text) == Some(Decimal(precision, scale)) {
      var end, sep := Find(text, ')'), Find(text, ',');
      DecimalHasNoComma(text);
      ByteExactly(text[8..sep], precision);
      ByteExactly(text[sep + 1..end], scale);
      DecimalParts(text, sep, end);
    }
    if p, s, tail :| SpellsDecimal(text, p, s, tail) && ReadsByte(p, precision) && ReadsByte(s, scale) {
      SpelledDecimal(text, p, s, tail, precision, scale);
    }
  }

  lemma DecimalParts(text: string, sep: nat, end: nat)
    requires StartsWith(text, "decimal(") && 8 <= sep < end < |text| && text[sep] == ',' && text[end] == ')'
    ensures SpellsDecimal(text, text[8..sep], text[sep + 1..end], text[end + 1..])
  {
    assert text[..8] == "decimal(";
    assert text == text[..8] + text[8..sep] + [text[sep]] + text[sep + 1..end] + [text[end]] + text[end + 1..];
  }

  lemma DigitsOnly(digits: string, value: nat)
    requires ReadsByte(digits, value)
    ensures ',' !in digits && ')' !in digits
  {
    hide NatValue;
  }

  lemma SpelledDecimal(text: string, p: string, s: string, tail: string, precision: nat, scale: nat)
    requires StartsWith(text, "decimal(")
    requires SpellsDecimal(text, p, s, tail) && ReadsByte(p, precision) && ReadsByte(s, scale)
    ensures ParseDecimal(text) == Some(Decimal(precision, scale))
  {
    hide Find, ReadsByte, ParseByte;
    DigitsOnly(p, precision);
    DigitsOnly(s, scale);
    ByteExactly(p, precision);
    ByteExactly(s, scale);
    assert text == (DECIMAL + p) + ([','] + (s + ")" + tail));
    FindIn(DECIMAL + p, ',', s + ")" + tail);
    assert text == (DECIMAL + p + "," + s) + ([')'] + tail);
    FindIn(DECIMAL + p + "," + s, ')', tail);
    assert text[8..8 + |p|] == p;
    assert text[8 + |p| + 1..8 + |p| + 1 + |s|] == s;
  }

  // ---------- What is refused ----------

  /** The names and their types. */
  lemma NamesExactly()
    ensures PrimitiveFromDeltaName("string") == Some(Varchar) && PrimitiveFromDeltaName("long") == Some(BigInt)
    ensures PrimitiveFromDeltaName("integer") == Some(Integer) && PrimitiveFromDeltaName("short") == Some(SmallInt)
    ensures PrimitiveFromDeltaName("byte") == Some(TinyInt) && PrimitiveFromDeltaName("float") == Some(Float)
    ensures PrimitiveFromDeltaName("double") == Some(Double) && PrimitiveFromDeltaName("boolean") == Some(Boolean)
    ensures PrimitiveFromDeltaName("binary") == Some(Blob) && PrimitiveFromDeltaName("date") == Some(Date)
    ensures PrimitiveFromDeltaName("timestamp") == Some(TimestampTz) && PrimitiveFromDeltaName("timestamp_ntz") == Some(Timestamp)
    ensures PrimitiveFromDeltaName("variant") == Some(Variant) && PrimitiveFromDeltaName("void") == Some(SqlNull)
  {
    hide PrimitiveFromDeltaName;
    PrimitiveNameReadsBack(StringType);
    PrimitiveNameReadsBack(LongType);
    PrimitiveNameReadsBack(IntegerType);
    PrimitiveNameReadsBack(ShortType);
    PrimitiveNameReadsBack(ByteType);
    PrimitiveNameReadsBack(FloatType);
    PrimitiveNameReadsBack(DoubleType);
    PrimitiveNameReadsBack(BooleanType);
    PrimitiveNameReadsBack(BinaryType);
    PrimitiveNameReadsBack(DateType);
    PrimitiveNameReadsBack(TimestampType);
    PrimitiveNameReadsBack(TimestampNtzType);
    PrimitiveNameReadsBack(VariantType);
    PrimitiveNameReadsBack(VoidType);
  }

  const NAMES := {"string", "long", "integer", "short", "byte", "float", "double", "boolean", "binary", "date", "timestamp",
                  "timestamp_ntz", "variant", "void"}

  /** No other name is a type, unless it is a decimal's. */
  lemma OtherNamesRefused(name: string)
    ensures TypeFromJsonValue(Str(name)).Some? ==> name in NAMES || StartsWith(name, "decimal(")
  {
    hide StartsWith, ParseDecimal;
  }

  /** Anything but a text is a type only if its own "type" says that it is a struct, an array or a map. */
  lemma OtherKindsRefused(doc: Doc)
    requires !doc.Str? && TypeFromJsonValue(doc).Some?
    ensures || Get(doc, "type") == Some(Str("struct")) || Get(doc, "type") == Some(Str("array"))
            || Get(doc, "type") == Some(Str("map"))
  {
    hide Get;
  }

  /** A field has a name that is a text, and a type that can be read. */
  predicate FieldReads(item: Doc) {
    Get(item, "name").Some? && Get(item, "name").value.Str? && TypeOfMember(item, "type").Some?
  }

  predicate ReadsAs(item: Doc, child: Child) {
    Get(item, "name") == Some(Str(child.name)) && TypeOfMember(item, "type") == Some(child.childType)
  }

  lemma OnlyObjectsHaveMembers(doc: Doc, key: string)
    ensures Get(doc, key).Some? ==> doc.Obj?
  {
  }

  /** A struct is a type exactly if it has fields and each of them reads, and then it has these children in order. */
  lemma StructExactly(doc: Doc)
    requires Get(doc, "type") == Some(Str("struct"))
    ensures TypeFromJsonValue(doc).Some? <==>
            && Get(doc, "fields").Some? && Get(doc, "fields").value.Arr? && Get(doc, "fields").value.items != []
            && forall i :: 0 <= i < |Get(doc, "fields").value.items| ==> FieldReads(Get(doc, "fields").value.items[i])
    ensures TypeFromJsonValue(doc).Some? ==>
              var items := Get(doc, "fields").value.items; var t := TypeFromJsonValue(doc).value;
              t.Struct? && |t.children| == |items| && forall i :: 0 <= i < |items| ==> ReadsAs(items[i], t.children[i])
  {
    hide Get, FieldReads, ReadsAs, TypeOfMember, FieldsFromJson, PrimitiveFromDeltaName;
    var fields := Get(doc, "fields");
    assert TypeFromJsonValue(doc) == StructFromJson(doc) by {
      OnlyObjectsHaveMembers(doc, "type");
    }
    if fields.Some? && fields.value.Arr? {
      FieldsExactly(fields.value, fields.value.items);
    }
  }

  lemma {:induction false} FieldsExactly(doc: Doc, items: seq<Doc>)
    requires forall i :: 0 <= i < |items| ==> items[i] < doc
    ensures FieldsFromJson(doc, items).Some? <==> forall i :: 0 <= i < |items| ==> FieldReads(items[i])
    ensures FieldsFromJson(doc, items).Some? ==>
              var children := FieldsFromJson(doc, items).value;
              |children| == |items| && forall i :: 0 <= i < |items| ==> ReadsAs(items[i], children[i])
    decreases |items|
  {
    hide Get, TypeOfMember, FieldReads, ReadsAs;
    if items != [] {
      var rest := items[1..];
      FieldsExactly(doc, rest);
      assert forall i :: 0 <= i < |rest| ==> rest[i] == items[i + 1];
      assert forall i :: 0 < i < |items| ==> items[i] == rest[i - 1];
      FirstField(doc, items);
      if FieldReads(items[0]) && FieldsFromJson(doc, rest).Some? {
        var children, more := FieldsFromJson(doc, items).value, FieldsFromJson(doc, rest).value;
        forall i | 0 <= i < |items| ensures ReadsAs(items[i], children[i]) {
          assert i > 0 ==> children[i] == more[i - 1] && items[i] == rest[i - 1];
        }
      }
    }
  }

  lemma FirstField(doc: Doc, items: seq<Doc>)
    requires items != [] && forall i :: 0 <= i < |items| ==> items[i] < doc
    ensures var rest := FieldsFromJson(doc, items[1..]); var all := FieldsFromJson(doc, items);
      && (all.Some? <==> FieldReads(items[0]) && rest.Some?)
      && (all.Some? ==> |all.value| == 1 + |rest.value| && all.value[1..] == rest.value && ReadsAs(items[0], all.value[0]))
  {
    hide Get, TypeOfMember;
  }

  /** An array is a type exactly if its elements' is, a map if its keys' and its values' are. */
  lemma ContainersExactly(doc: Doc)
    ensures Get(doc, "type") == Some(Str("array")) ==>
              TypeFromJsonValue(doc) ==
              if TypeOfMember(doc, "elementType").None? then None else Some(List(TypeOfMember(doc, "elementType").value))
    ensures Get(doc, "type") == Some(Str("map")) ==>
              TypeFromJsonValue(doc) ==
              if TypeOfMember(doc, "keyType").None? || TypeOfMember(doc, "valueType").None? then None
              else Some(Map(TypeOfMember(doc, "keyType").value, TypeOfMember(doc, "valueType").value))
  {
    hide TypeOfMember;
  }

  /**
   * A type's JSON reads back as its meaning, whatever its fields are called, and is refused exactly
   * where it has none.
   */
  lemma {:induction false} JsonReadsBack(t: DeltaType)
    ensures TypeFromJsonValue(DeltaJson(t)) == Meaning(t)
    decreases t, 1
  {
    hide Get, PrimitiveFromDeltaName, ParseDecimal;
    match t
    case Prim(p) => PrimitiveNameReadsBack(p);
    case CharType(_) => PrimitiveNameReadsBack(StringType);
    case VarcharType(_) => PrimitiveNameReadsBack(StringType);
    case DecimalType(precision, scale) => DecimalNameReadsBack(precision, scale);
    case ArrayType(element, containsNull) =>
      MembersOfArray(DeltaJson(element), containsNull);
      JsonReadsBack(element);
    case MapType(key, value, valueContainsNull) =>
      MembersOfMap(DeltaJson(key), DeltaJson(value), valueContainsNull);
      JsonReadsBack(key);
      JsonReadsBack(value);
    case StructType(fields) =>
      MembersOfStruct(FieldsJson(t, fields));
      FieldsReadBack(t, fields, Arr(FieldsJson(t, fields)));
  }

  lemma PrimitiveNameReadsBack(p: Primitive)
    ensures PrimitiveFromDeltaName(PrimitiveName(p)) == Some(PrimitiveMeaning(p))
  {
    hide *;
    if p.StringType? || p.LongType? || p.IntegerType? || p.ShortType? || p.ByteType? || p.FloatType? || p.DoubleType? {
      FirstNamesReadBack(p);
    } else {
      OtherNamesReadBack(p);
    }
  }

  lemma FirstNamesReadBack(p: Primitive)
    requires p.StringType? || p.LongType? || p.IntegerType? || p.ShortType? || p.ByteType? || p.FloatType? || p.DoubleType?
    ensures PrimitiveFromDeltaName(PrimitiveName(p)) == Some(PrimitiveMeaning(p))
  {
  }

  lemma OtherNamesReadBack(p: Primitive)
    requires p.BooleanType? || p.BinaryType? || p.DateType? || p.TimestampType? || p.TimestampNtzType? || p.VariantType?
          || p.VoidType?
    ensures PrimitiveFromDeltaName(PrimitiveName(p)) == Some(PrimitiveMeaning(p))
  {
    hide StartsWith, ParseDecimal;
  }

  lemma DecimalNameReadsBack(precision: nat, scale: nat)
    ensures PrimitiveFromDeltaName(DecimalText(precision, scale)) == Meaning(DecimalType(precision, scale))
  {
    DecimalReadsBack(precision, scale);
    hide DecimalText, ParseDecimal, Meaning;
    var text := DecimalText(precision, scale);
    assert text[7] == '(' by { assert text[..8][7] == '('; }
  }

  lemma {:induction false} FieldsReadBack(t: DeltaType, fields: seq<Field>, doc: Doc)
    requires forall i :: 0 <= i < |fields| ==> fields[i] < t
    requires forall i :: 0 <= i < |FieldsJson(t, fields)| ==> FieldsJson(t, fields)[i] < doc
    ensures FieldsFromJson(doc, FieldsJson(t, fields)) == MeaningOfFields(t, fields)
    ensures |FieldsJson(t, fields)| == |fields|
    decreases t, 0, |fields|
  {
    hide Get, Lookup, Meaning;
    if fields != [] {
      var fieldType := DeltaJson(fields[0].fieldType);
      MembersOfField(fields[0], fieldType);
      JsonReadsBack(fields[0].fieldType);
      var rest := FieldsJson(t, fields[1..]);
      assert FieldsJson(t, fields)[1..] == rest;
      FieldsReadBack(t, fields[1..], doc);
    }
  }

  /** So a column's whole field, as the catalog sends it, reads back as its type's meaning. */
  lemma FieldJsonReadsBack(field: Field)
    ensures TypeFromJson(FieldEntry(field, DeltaJson(field.fieldType))) == Meaning(field.fieldType)
  {
    MembersOfField(field, DeltaJson(field.fieldType));
    JsonReadsBack(field.fieldType);
    hide Get, TypeFromJsonValue, DeltaJson, Meaning, FieldEntry;
  }
}
