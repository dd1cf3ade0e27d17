// The two spellings of a type mean the same: the text parser and the JSON parser agree on every
// type, as long as its field names do not look like type syntax, and exactly for those names.
module TypeAgreement {

  import opened Wrappers
  import opened Decimals
  import opened DeltaTypes
  import opened Texts
  import opened TypeJson
  import opened TypeText

  // ---------- Scanning for separators ----------

  /** How deep the brackets are nested after a text, or nothing if it has a comma that no bracket encloses. */
  function Scan(text: string, depth: int): (r: Option<int>) {
    if text == "" then Some(depth)
    else if text[0] == ',' && depth <= 0 then None
    else Scan(text[1..], depth + Nesting(text[0]))
  }

  lemma {:induction false} ScanConcat(a: string, b: string, depth: int)
    ensures Scan(a + b, depth) == if Scan(a, depth).None? then None else Scan(b, Scan(a, depth).value)
  {
    if a == "" {
      assert a + b == b;
    } else {
      assert (a + b)[1..] == a[1..] + b;
      ScanConcat(a[1..], b, depth + Nesting(a[0]));
    }
  }

  /** Further inside, the same text nests as much and has no more separators. */
  lemma {:induction false} ScanDeeper(text: string, depth: int, more: nat)
    requires Scan(text, depth).Some?
    ensures Scan(text, depth + more) == Some(Scan(text, depth).value + more)
  {
    if text != "" {
      ScanDeeper(text[1..], depth + Nesting(text[0]), more);
    }
  }

  lemma {:induction false} SeparatorAfter(a: string, rest: string, depth: int)
    requires Scan(a, depth).Some?
    requires rest == "" || (rest[0] == ',' && Scan(a, depth).value <= 0)
    ensures Separator(a + rest, depth) == |a|
  {
    if a == "" {
      assert a + rest == rest;
    } else {
      assert (a + rest)[1..] == a[1..] + rest;
      SeparatorAfter(a[1..], rest, depth + Nesting(a[0]));
    }
  }

  predicate Plain(text: string) {
    forall i :: 0 <= i < |text| ==> text[i] != ',' && Nesting(text[i]) == 0
  }

  lemma {:induction false} ScanPlain(text: string, depth: int)
    requires Plain(text)
    ensures Scan(text, depth) == Some(depth)
  {
    if text != "" {
      ScanPlain(text[1..], depth);
    }
  }

  /** Brackets balanced, every comma inside some. */
  predicate Closed(text: string) {
    Scan(text, 0) == Some(0)
  }

  // ---------- Names ----------

  function Names(t: DeltaType): (r: set<string>) {
    match t
    case ArrayType(element, _) => Names(element)
    case MapType(key, value, _) => Names(key) + Names(value)
    case StructType(fields) => NamesOf(t, fields)
    case _ => {}
  }

  function NamesOf(t: DeltaType, fields: seq<Field>): (r: set<string>)
    requires forall i :: 0 <= i < |fields| ==> fields[i] < t
    decreases t, |fields|
  {
    if fields == [] then {} else {fields[0].name} + Names(fields[0].fieldType) + NamesOf(t, fields[1..])
  }

  /** A name that no part of the text parser takes for syntax. */
  predicate NameIsSafe(name: string) {
    ':' !in name && Closed(name)
  }

  ghost predicate NamesAreSafe(names: set<string>) {
    forall name :: name in names ==> NameIsSafe(name)
  }

  /** Names without commas, colons and brackets are safe, and so are some with them. */
  lemma PlainNamesAreSafe(name: string)
    requires Plain(name) && ':' !in name
    ensures NameIsSafe(name) && NameIsSafe("f(" + (name + ",") + ")")
  {
    ScanPlain(name, 0);
    ScanPlain(name, 1);
    ScanOpen("f", "(", 0);
    assert "f" + "(" == "f(" && "," + "" == ",";
    hide Scan, Plain;
    ScanConcat("f(", name, 0);
    CommaInside();
    ScanConcat("f(" + name, ",", 0);
    ScanConcat("f(" + name + ",", ")", 0);
    assert "f(" + (name + ",") + ")" == "f(" + name + "," + ")";
  }

  lemma CommaInside()
    ensures Scan(",", 1) == Some(1) && Scan(")", 1) == Some(0)
  {
    assert ","[1..] == "" && ")"[1..] == "";
  }

  // ---------- The text of a type is closed ----------

  lemma PrimitiveIsPlain(p: Primitive)
    ensures Plain(PrimitiveText(p))
  {
  }

  lemma ScanBracketed(open: string, inside: string, close: string, depth: int)
    requires Scan(open, depth) == Some(depth + 1) && Scan(inside, depth + 1) == Some(depth + 1)
    requires Scan(close, depth + 1) == Some(depth)
    ensures Scan(open + (inside + close), depth) == Some(depth)
  {
    ScanConcat(inside, close, depth + 1);
    ScanConcat(open, inside + close, depth);
  }

  lemma ScanOpen(word: string, bracket: string, depth: int)
    requires Plain(word) && (bracket == "<" || bracket == "(")
    ensures Scan(word + bracket, depth) == Some(depth + 1)
  {
    ScanPlain(word, depth);
    ScanConcat(word, bracket, depth);
    assert bracket[1..] == "";
  }

  lemma ScanClose(bracket: string, depth: int)
    requires bracket == ">" || bracket == ")"
    ensures Scan(bracket, depth) == Some(depth - 1)
  {
    assert bracket[1..] == "";
  }

  lemma ScanPair(a: string, b: string, depth: int)
    requires depth > 0 && Scan(a, depth) == Some(depth) && Scan(b, depth) == Some(depth)
    ensures Scan(a + ("," + b), depth) == Some(depth)
  {
    assert ("," + b)[1..] == b;
    ScanConcat(a, "," + b, depth);
  }

  lemma ScanNumber(n: nat, depth: int)
    ensures Scan(NatText(n), depth) == Some(depth)
  {
    assert Plain(NatText(n));
    ScanPlain(NatText(n), depth);
  }

  lemma {:induction false} TextIsClosed(t: DeltaType, depth: nat)
    requires NamesAreSafe(Names(t))
    ensures Scan(SparkText(t), depth) == Some(depth)
    decreases t, 1
  {
    hide Scan, Plain, NatText, NameIsSafe;
    match t
    case Prim(p) =>
      PrimitiveIsPlain(p);
      ScanPlain(PrimitiveText(p), depth);
    case CharType(length) =>
      BracketedNumber("char", length, depth);
    case VarcharType(length) =>
      BracketedNumber("varchar", length, depth);
    case DecimalType(precision, scale) =>
      DecimalTextIsClosed(precision, scale, depth);
    case ArrayType(element, _) =>
      OpeningWords(depth);
      TextIsClosed(element, depth + 1);
      ScanClose(">", depth + 1);
      ScanBracketed("array<", SparkText(element), ">", depth);
    case MapType(key, value, _) =>
      OpeningWords(depth);
      TextIsClosed(key, depth + 1);
      TextIsClosed(value, depth + 1);
      ScanPair(SparkText(key), SparkText(value), depth + 1);
      ScanClose(">", depth + 1);
      ScanBracketed("map<", SparkText(key) + ("," + SparkText(value)), ">", depth);
    case StructType(fields) =>
      OpeningWords(depth);
      FieldsAreClosed(t, fields, depth + 1);
      ScanClose(">", depth + 1);
      ScanBracketed("struct<", FieldsText(t, fields), ">", depth);
  }

  lemma WordsArePlain()
    ensures Plain("array") && Plain("map") && Plain("struct") && Plain("decimal")
    ensures Plain("char") && Plain("varchar") && Plain(":")
  {
  }

  lemma OpeningWords(depth: int)
    ensures Scan("array<", depth) == Some(depth + 1)
    ensures Scan("map<", depth) == Some(depth + 1)
    ensures Scan("struct<", depth) == Some(depth + 1)
    ensures Scan("decimal(", depth) == Some(depth + 1)
  {
    WordsArePlain();
    hide Scan, Plain;
    ScanOpen("array", "<", depth);
    ScanOpen("map", "<", depth);
    ScanOpen("struct", "<", depth);
    ScanOpen("decimal", "(", depth);
    assert "array" + "<" == "array<" && "map" + "<" == "map<" && "struct" + "<" == "struct<" && "decimal" + "(" == "decimal(";
  }

  lemma BracketedNumber(word: string, n: nat, depth: int)
    requires word == "char" || word == "varchar"
    ensures Scan(word + "(" + (NatText(n) + ")"), depth) == Some(depth)
    ensures word == "char" ==> word + "(" == "char("
    ensures word == "varchar" ==> word + "(" == "varchar("
  {
    WordsArePlain();
    hide Scan, Plain, NatText;
    ScanOpen(word, "(", depth);
    ScanNumber(n, depth + 1);
    ScanClose(")", depth + 1);
    ScanBracketed(word + "(", NatText(n), ")", depth);
  }

  lemma DecimalTextIsClosed(precision: nat, scale: nat, depth: nat)
    ensures Scan(DecimalText(precision, scale), depth) == Some(depth)
  {
    hide Scan, Plain, NatText;
    OpeningWords(depth);
    ScanNumber(precision, depth + 1);
    ScanNumber(scale, depth + 1);
    ScanPair(NatText(precision), NatText(scale), depth + 1);
    ScanClose(")", depth + 1);
    ScanBracketed("decimal(", NatText(precision) + ("," + NatText(scale)), ")", depth);
    assert DecimalText(precision, scale) == "decimal(" + (NatText(precision) + ("," + NatText(scale)) + ")");
  }

  function FieldText(field: Field): (r: string) {
    field.name + (":" + SparkText(field.fieldType))
  }

  lemma {:induction false} FieldIsClosed(field: Field, depth: nat)
    requires NameIsSafe(field.name) && NamesAreSafe(Names(field.fieldType))
    ensures Scan(FieldText(field), depth) == Some(depth)
    decreases field, 2
  {
    TextIsClosed(field.fieldType, depth);
    ScanDeeper(field.name, 0, depth);
    hide Scan, SparkText;
    WordsArePlain();
    ScanPlain(":", depth);
    hide Plain;
    ScanConcat(":", SparkText(field.fieldType), depth);
    ScanConcat(field.name, ":" + SparkText(field.fieldType), depth);
  }

  lemma {:induction false} FieldsAreClosed(t: DeltaType, fields: seq<Field>, depth: nat)
    requires forall i :: 0 <= i < |fields| ==> fields[i] < t
    requires depth > 0 && NamesAreSafe(NamesOf(t, fields))
    ensures Scan(FieldsText(t, fields), depth) == Some(depth)
    decreases t, 0, |fields|
  {
    if fields == [] {
    } else {
      FieldIsClosed(fields[0], depth);
      FieldsAreClosed(t, fields[1..], depth);
      hide Scan;
      if |fields| > 1 {
        ScanPair(FieldText(fields[0]), FieldsText(t, fields[1..]), depth);
      }
    }
  }

  // ---------- The text reads back ----------

  lemma FirstOfPrefix(text: string, prefix: string)
    requires prefix != ""
    ensures StartsWith(text, prefix) ==> text[0] == prefix[0]
  {
    if StartsWith(text, prefix) {
      assert text[..|prefix|][0] == prefix[0];
    }
  }

  lemma PrimitiveTextReadsBack(p: Primitive)
    ensures PrimitiveFromText(PrimitiveText(p)) == Some(PrimitiveMeaning(p))
  {
    var text := PrimitiveText(p);
    FirstOfPrefix(text, "char(");
    assert !StartsWith(text, "varchar(") by {
      if |text| >= 8 {
        FirstOfPrefix(text, "varchar(");
      }
    }
    hide StartsWith;
  }

  /** The words and their types. */
  lemma WordsExactly()
    ensures PrimitiveFromText("string") == Some(Varchar) && PrimitiveFromText("bigint") == Some(BigInt)
    ensures PrimitiveFromText("int") == Some(Integer) && PrimitiveFromText("smallint") == Some(SmallInt)
    ensures PrimitiveFromText("tinyint") == Some(TinyInt) && PrimitiveFromText("float") == Some(Float)
    ensures PrimitiveFromText("double") == Some(Double) && PrimitiveFromText("boolean") == Some(Boolean)
    ensures PrimitiveFromText("binary") == Some(Blob) && PrimitiveFromText("date") == Some(Date)
    ensures PrimitiveFromText("timestamp") == Some(TimestampTz) && PrimitiveFromText("timestamp_ntz") == Some(Timestamp)
    ensures PrimitiveFromText("variant") == Some(Variant) && PrimitiveFromText("void") == Some(SqlNull)
  {
    hide PrimitiveFromText;
    PrimitiveTextReadsBack(StringType);
    PrimitiveTextReadsBack(LongType);
    PrimitiveTextReadsBack(IntegerType);
    PrimitiveTextReadsBack(ShortType);
    PrimitiveTextReadsBack(ByteType);
    PrimitiveTextReadsBack(FloatType);
    PrimitiveTextReadsBack(DoubleType);
    PrimitiveTextReadsBack(BooleanType);
    PrimitiveTextReadsBack(BinaryType);
    PrimitiveTextReadsBack(DateType);
    PrimitiveTextReadsBack(TimestampType);
    PrimitiveTextReadsBack(TimestampNtzType);
    PrimitiveTextReadsBack(VariantType);
    PrimitiveTextReadsBack(VoidType);
  }

  lemma StringTextReadsBack(word: string, rest: string)
    requires word == "char(" || word == "varchar("
    ensures PrimitiveFromText(word + rest) == Some(Varchar)
  {
    var text := word + rest;
    assert text[..|word|] == word;
    assert text[0] == word[0] && text[1] == word[1] && text[4] == word[4];
  }

  /** No primitive's text starts as a decimal or a container does. */
  lemma NoPrimitiveStartsSo(prefix: string, rest: string)
    requires prefix == DECIMAL || prefix == ARRAY || prefix == MAP || prefix == STRUCT
    ensures PrimitiveFromText(prefix + rest) == None
    ensures StartsWith(prefix + rest, prefix) && (prefix + rest)[|prefix|..] == rest
  {
    var text := prefix + rest;
    assert text[..|prefix|] == prefix;
    assert text[0] == prefix[0] && text[|prefix| - 1] == prefix[|prefix| - 1] && text[2] == prefix[2];
  }

  lemma OnlyOnePrefix(prefix: string, rest: string)
    requires prefix == ARRAY || prefix == MAP || prefix == STRUCT
    ensures !StartsWith(prefix + rest, DECIMAL)
    ensures prefix == MAP || prefix == STRUCT ==> !StartsWith(prefix + rest, ARRAY)
    ensures prefix == STRUCT ==> !StartsWith(prefix + rest, MAP)
  {
    var text := prefix + rest;
    assert text[0] == prefix[0];
    FirstOfPrefix(text, DECIMAL);
    if prefix != ARRAY {
      FirstOfPrefix(text, ARRAY);
    }
    if prefix == STRUCT {
      FirstOfPrefix(text, MAP);
    }
  }

  /** What a container's text encloses is everything between its prefix and its last bracket. */
  lemma InsideIsBody(prefix: string, body: string)
    requires prefix == ARRAY || prefix == MAP || prefix == STRUCT
    ensures StartsWith(prefix + (body + ">"), prefix)
    ensures Inside(prefix + (body + ">"), prefix) == Some(body)
  {
    NoPrimitiveStartsSo(prefix, body + ">");
    assert (body + ">")[|body|] == '>';
    assert (body + ">")[..|body|] == body;
  }

  lemma ContainerText(prefix: string, body: string)
    requires prefix == ARRAY || prefix == MAP || prefix == STRUCT
    ensures ParseText(prefix + (body + ">")) ==
            if prefix == ARRAY then ListOf(ParseText(body))
            else if prefix == MAP then MapOfAll(ParseTypes(body))
            else StructOf(ParseFields(body))
  {
    InsideIsBody(prefix, body);
    NoPrimitiveStartsSo(prefix, body + ">");
    OnlyOnePrefix(prefix, body + ">");
    hide StartsWith, PrimitiveFromText, DecimalFromText, Inside, ParseTypes, ParseFields;
  }

  lemma TwoTypes(key: string, value: string)
    requires Closed(key) && Closed(value)
    ensures MapOfAll(ParseTypes(key + ("," + value))) == MapOf(ParseText(key), ParseText(value))
  {
    var body := key + ("," + value);
    SeparatorAfter(key, "," + value, 0);
    SeparatorAfter(value, "", 0);
    assert value + "" == value;
    hide Separator, Scan, ParseText;
    assert body[..|key|] == key && body[|key| + 1..] == value;
    assert value[..|value|] == value;
    assert ParseTypes(value) == Prepend(ParseText(value), Some([]));
    assert ParseTypes(body) == Prepend(ParseText(key), ParseTypes(value));
  }

  lemma FieldReadsBack(name: string, typeText: string)
    requires ':' !in name
    ensures ParseField(name + (":" + typeText)) == ChildOf(name, ParseText(typeText))
  {
    hide ParseText, Find;
    var field := name + (":" + typeText);
    FindIn(name, ':', typeText);
    assert field == name + ([':'] + typeText);
    assert field[..|name|] == name && field[|name| + 1..] == typeText;
  }

  lemma NextFieldReads(field: string, rest: string)
    requires Closed(field)
    ensures ParseFields(field) == Prepend(ParseField(field), Some([]))
    ensures ParseFields(field + ("," + rest)) == Prepend(ParseField(field), ParseFields(rest))
  {
    SeparatorAfter(field, "", 0);
    assert field + "" == field && field[..|field|] == field;
    var body := field + ("," + rest);
    SeparatorAfter(field, "," + rest, 0);
    assert body[..|field|] == field && body[|field| + 1..] == rest;
    hide Separator, Scan, ParseField;
  }

  /**
   * A type's text reads back as its meaning, and is refused exactly where it has none, if all its
   * names are safe.
   */
  lemma {:induction false} TextReadsBack(t: DeltaType)
    requires NamesAreSafe(Names(t))
    ensures ParseText(SparkText(t)) == Meaning(t)
    decreases t, 1
  {
    hide ParseText, PrimitiveFromText, ParseTypes, ParseFields, NameIsSafe, Closed;
    match t
    case Prim(p) =>
      PrimitiveTextReadsBack(p);
      PrimitiveIsEnough(SparkText(t));
    case CharType(length) =>
      StringTextReadsBack("char(", NatText(length) + ")");
      PrimitiveIsEnough(SparkText(t));
    case VarcharType(length) =>
      StringTextReadsBack("varchar(", NatText(length) + ")");
      PrimitiveIsEnough(SparkText(t));
    case DecimalType(precision, scale) =>
      DecimalSparkText(precision, scale);
    case ArrayType(element, _) =>
      TextReadsBack(element);
      ContainerText(ARRAY, SparkText(element));
    case MapType(key, value, _) =>
      TextReadsBack(key);
      TextReadsBack(value);
      TextIsClosed(key, 0);
      TextIsClosed(value, 0);
      ContainerText(MAP, SparkText(key) + ("," + SparkText(value)));
      ClosedIsScan(SparkText(key));
      ClosedIsScan(SparkText(value));
      TwoTypes(SparkText(key), SparkText(value));
    case StructType(fields) =>
      ContainerText(STRUCT, FieldsText(t, fields));
      if fields == [] {
        NoFieldReads();
      } else {
        FieldsReadBack(t, fields);
      }
  }

  lemma ClosedIsScan(text: string)
    ensures Closed(text) <==> Scan(text, 0) == Some(0)
  {
  }

  lemma PrimitiveIsEnough(text: string)
    ensures PrimitiveFromText(text).Some? ==> ParseText(text) == PrimitiveFromText(text)
  {
  }

  lemma DecimalSparkText(precision: nat, scale: nat)
    ensures ParseText(DecimalText(precision, scale)) == Meaning(DecimalType(precision, scale))
  {
    var text := DecimalText(precision, scale);
    NoPrimitiveStartsSo(DECIMAL, NatText(precision) + ("," + (NatText(scale) + ")")));
    DecimalReadsBack(precision, scale);
    DecimalParsersAgree(text);
    hide PrimitiveFromText, DecimalFromText, ParseDecimal, NatText;
  }

  lemma NoFieldReads()
    ensures ParseFields("") == None
  {
    assert ParseField("") == None;
  }

  lemma {:induction false} FieldsReadBack(t: DeltaType, fields: seq<Field>)
    requires forall i :: 0 <= i < |fields| ==> fields[i] < t
    requires fields != [] && NamesAreSafe(NamesOf(t, fields))
    ensures ParseFields(FieldsText(t, fields)) == MeaningOfFields(t, fields)
    decreases t, 0, |fields|
  {
    var field := fields[0];
    assert NameIsSafe(field.name) && NamesAreSafe(Names(field.fieldType));
    TextReadsBack(field.fieldType);
    FieldIsClosed(field, 0);
    FieldReadsBack(field.name, SparkText(field.fieldType));
    hide ParseFields, ParseField, ParseText, Scan, Names, SparkText, Meaning;
    if |fields| == 1 {
      NextFieldReads(FieldText(field), "");
      assert fields[1..] == [];
    } else {
      NextFieldReads(FieldText(field), FieldsText(t, fields[1..]));
      FieldsReadBack(t, fields[1..]);
    }
  }

  /** Both parsers give a type's meaning, or both refuse it, whenever its field names are safe. */
  lemma ParsersAgree(t: DeltaType)
    requires NamesAreSafe(Names(t))
    ensures ParseText(SparkText(t)) == TypeFromJsonValue(DeltaJson(t)) == Meaning(t)
  {
    TextReadsBack(t);
    JsonReadsBack(t);
  }

  // ---------- Exactly the safe names ----------

  const INT := Prim(IntegerType)

  /** struct<n:int>, map<struct<n:int>,int> and struct<n:map<int,int>>: one of them betrays any unsafe name n. */
  function OneField(name: string): (r: DeltaType) {
    StructType([Field(name, INT, true)])
  }

  function KeyedBy(name: string): (r: DeltaType) {
    MapType(OneField(name), INT, true)
  }

  function MapField(name: string): (r: DeltaType) {
    StructType([Field(name, MapType(INT, INT, true), true)])
  }

  lemma TextOfOne(name: string, fieldType: DeltaType)
    ensures var t := StructType([Field(name, fieldType, true)]);
            SparkText(t) == STRUCT + ((name + (":" + SparkText(fieldType))) + ">")
  {
    hide SparkText;
    var t := StructType([Field(name, fieldType, true)]);
    assert SparkText(t) == "struct<" + (FieldsText(t, t.fields) + ">") by { StructText(t); }
  }

  lemma StructText(t: DeltaType)
    requires t.StructType?
    ensures SparkText(t) == "struct<" + (FieldsText(t, t.fields) + ">")
  {
  }

  lemma TextOfKeyed(name: string)
    ensures SparkText(KeyedBy(name)) == MAP + ((SparkText(OneField(name)) + ",int") + ">")
  {
    assert SparkText(INT) == "int" && "," + "int" == ",int";
    hide OneField;
  }

  lemma MeaningOfOne(t: DeltaType, field: Field)
    requires t == StructType([field])
    ensures Meaning(t) == StructOf(Prepend(ChildOf(field.name, Meaning(field.fieldType)), Some([])))
  {
    assert t.fields[1..] == [];
    assert MeaningOfFields(t, t.fields) ==
           Prepend(ChildOf(field.name, Meaning(field.fieldType)), MeaningOfFields(t, t.fields[1..]));
  }

  lemma SimpleMeanings(name: string)
    ensures Meaning(OneField(name)) == Some(Struct([Child(name, Integer)]))
    ensures Meaning(KeyedBy(name)) == Some(Map(Struct([Child(name, Integer)]), Integer))
    ensures Meaning(MapField(name)) == Some(Struct([Child(name, Map(Integer, Integer))]))
  {
    hide Meaning;
    IntMeanings(OneField(name));
    MeaningOfOne(OneField(name), Field(name, INT, true));
    MeaningOfOne(MapField(name), Field(name, MapType(INT, INT, true), true));
    assert [Child(name, Integer)] + [] == [Child(name, Integer)];
    assert [Child(name, Map(Integer, Integer))] + [] == [Child(name, Map(Integer, Integer))];
  }

  lemma IntMeanings(key: DeltaType)
    ensures Meaning(INT) == Some(Integer) && Meaning(MapType(INT, INT, true)) == Some(Map(Integer, Integer))
    ensures Meaning(MapType(key, INT, true)) == MapOf(Meaning(key), Some(Integer))
  {
  }

  /**
   * The first field that the parser makes of a body is called what stands before the body's first
   * colon, and not past its first separator.
   */
  lemma FirstFieldName(body: string)
    ensures var end := Separator(body, 0);
            var colon := Find(body[..end], ':');
            var children := ParseFields(body);
            children.Some? ==> colon < end && children.value != [] && children.value[0].name == body[..colon]
  {
    hide ParseText, Separator, Find;
    var end := Separator(body, 0);
    var colon := Find(body[..end], ':');
    if colon < end {
      assert body[..end][..colon] == body[..colon];
    }
  }

  /** A name with a colon: the field comes out with a shorter name, or not at all. */
  lemma ColonBetrays(name: string)
    requires ':' in name
    ensures ParseText(SparkText(OneField(name))) != Meaning(OneField(name))
  {
    var body := name + (":" + SparkText(INT));
    TextOfOne(name, INT);
    ContainerText(STRUCT, body);
    SimpleMeanings(name);
    FirstFieldName(body);
    hide ParseText, ParseFields, Separator, SparkText, Meaning;
    var end := Separator(body, 0);
    ColonComesEarly(name, ":" + SparkText(INT), end);
  }

  lemma {:induction false} FindPresent(text: string, c: char)
    requires c in text
    ensures Find(text, c) < |text|
  {
    if text[0] != c {
      assert text == [text[0]] + text[1..];
      FindPresent(text[1..], c);
    }
  }

  lemma ColonComesEarly(name: string, rest: string, end: nat)
    requires ':' in name && end <= |name + rest|
    ensures var colon := Find((name + rest)[..end], ':');
            colon < end ==> colon < |name|
  {
    FindPresent(name, ':');
    var first := Find(name, ':');
    var body := name + rest;
    hide Find;
    if first < end {
      assert body[..end] == name[..first] + ([':'] + body[first + 1..end]);
      FindIn(name[..first], ':', body[first + 1..end]);
    }
  }

  lemma {:induction false} SeparatorInside(name: string, rest: string, depth: int)
    requires Scan(name, depth).None?
    ensures Separator(name + rest, depth) < |name|
  {
    if name != "" && !(name[0] == ',' && depth <= 0) {
      assert (name + rest)[1..] == name[1..] + rest;
      SeparatorInside(name[1..], rest, depth + Nesting(name[0]));
    }
  }

  /** A name with a comma that no bracket encloses: the field is cut off before its colon, and refused. */
  lemma CommaBetrays(name: string)
    requires ':' !in name && Scan(name, 0).None?
    ensures ParseText(SparkText(OneField(name))) == None && Meaning(OneField(name)).Some?
  {
    hide ParseText, ParseFields, ParseField, SparkText, Meaning, Separator, Scan, OneField, Find;
    var body := name + (":" + SparkText(INT));
    OneFieldText(name);
    ContainerText(STRUCT, body);
    SimpleMeanings(name);
    SeparatorInside(name, ":" + SparkText(INT), 0);
    var end := Separator(body, 0);
    assert body[..end] == name[..end];
    NoColonNoField(name, end);
    FirstFieldFails(body, name[..end]);
  }

  lemma OneFieldText(name: string)
    ensures SparkText(OneField(name)) == STRUCT + ((name + (":" + SparkText(INT))) + ">")
  {
    TextOfOne(name, INT);
  }

  lemma NoColonNoField(name: string, end: nat)
    requires ':' !in name && end <= |name|
    ensures ParseField(name[..end]) == None
  {
    assert Find(name[..end], ':') == end by {
      assert ':' !in name[..end] by {
        forall c | c in name[..end] ensures c in name {
        }
      }
    }
  }

  lemma OpenScans(name: string)
    requires Scan(name, 0).Some? && Scan(name, 0).value > 0
    ensures var body := SparkText(OneField(name)) + ",int";
            Separator(body, 0) == |body|
  {
    hide Scan, Separator, OneField, SparkText;
    var depth := Scan(name, 0).value;
    var key, body := SparkText(OneField(name)), SparkText(OneField(name)) + ",int";
    OneFieldText(name);
    IntText(INT);
    ScanDeeper(name, 0, 1);
    IntScans(depth + 1);
    IntScans(depth);
    OpeningWords(0);
    ScanClose(">", depth + 1);
    ScanConcat(name, ":int", 1);
    ScanConcat(name + ":int", ">", 1);
    ScanConcat(STRUCT, (name + ":int") + ">", 0);
    ScanConcat(key, ",int", 0);
    SeparatorAfter(body, "", 0);
    assert body + "" == body;
  }

  lemma IntText(t: DeltaType)
    requires t == INT
    ensures SparkText(t) == "int" && ":" + SparkText(t) == ":int"
  {
  }

  /**
   * A name that opens more than it closes: in a map's key, the comma before the value is taken for a part
   * of the key, and the map is refused for want of a value.
   */
  lemma OpenBetrays(name: string)
    requires Scan(name, 0).Some? && Scan(name, 0).value > 0
    ensures ParseText(SparkText(KeyedBy(name))) == None && Meaning(KeyedBy(name)).Some?
  {
    hide ParseText, ParseTypes, SparkText, Meaning, Scan, Separator, KeyedBy, OneField;
    var body := SparkText(OneField(name)) + ",int";
    OpenScans(name);
    OneType(body);
    TextOfKeyed(name);
    ContainerText(MAP, body);
    SimpleMeanings(name);
  }

  lemma IntScans(depth: int)
    ensures Scan(":int", depth) == Some(depth)
    ensures depth > 0 ==> Scan(",int", depth) == Some(depth)
  {
    ScanPlain(":int", depth);
    ScanPlain("int", depth);
    assert ",int"[1..] == "int";
  }

  lemma OneType(body: string)
    requires Separator(body, 0) == |body|
    ensures ParseTypes(body).Some? ==> |ParseTypes(body).value| == 1
  {
    hide ParseText, Separator;
  }

  lemma CloseCuts(name: string)
    requires Scan(name, 0).Some? && Scan(name, 0).value < 0
    ensures var cut := name + ":map<int";
            Separator(cut + ",int>", 0) == |cut|
  {
    CutScans(Scan(name, 0).value);
    hide Scan, Separator;
    ScanConcat(name, ":map<int", 0);
    SeparatorAfter(name + ":map<int", ",int>", 0);
  }

  lemma MapFieldText(name: string)
    ensures SparkText(MapField(name)) == STRUCT + ((name + ":map<int" + ",int>") + ">")
  {
    assert SparkText(INT) == "int";
    assert SparkText(MapType(INT, INT, true)) == "map<int,int>" by {
      assert SparkText(MapType(INT, INT, true)) == "map<" + (("int" + ("," + "int")) + ">");
    }
    TextOfOne(name, MapType(INT, INT, true));
    hide SparkText;
    assert name + (":" + "map<int,int>") == name + ":map<int" + ",int>";
  }

  lemma CloseLeavesNoType(name: string)
    requires ':' !in name && Scan(name, 0).Some? && Scan(name, 0).value < 0
    ensures ParseFields(name + ":map<int" + ",int>") == None
  {
    hide ParseText, ParseFields, ParseField, Scan, Separator;
    var cut := name + ":map<int";
    CloseCuts(name);
    CutMapFails();
    FieldReadsBack(name, "map<int");
    assert cut == name + (":" + "map<int");
    assert (cut + ",int>")[..|cut|] == cut;
    FirstFieldFails(cut + ",int>", cut);
  }

  /**
   * A name that closes more than it opens: a comma inside its type's brackets ends the field, and
   * leaves no type.
   */
  lemma CloseBetrays(name: string)
    requires ':' !in name && Scan(name, 0).Some? && Scan(name, 0).value < 0
    ensures ParseText(SparkText(MapField(name))) == None && Meaning(MapField(name)).Some?
  {
    hide ParseText, ParseFields, SparkText, Meaning, Scan, MapField;
    MapFieldText(name);
    CloseLeavesNoType(name);
    SimpleMeanings(name);
    ContainerText(STRUCT, name + ":map<int" + ",int>");
  }

  lemma CutScans(depth: int)
    ensures Scan(":map<int", depth) == Some(depth + 1)
  {
    assert Plain(":map") && Plain("int");
    ScanOpen(":map", "<", depth);
    ScanPlain("int", depth + 1);
    assert ":map" + "<" + "int" == ":map<int";
    ScanConcat(":map" + "<", "int", depth);
  }

  lemma CutMapFails()
    ensures ParseText("map<int") == None
  {
    NoPrimitiveStartsSo(MAP, "int");
    OnlyOnePrefix(MAP, "int");
    assert MAP + "int" == "map<int";
    assert '>' !in "int";
    hide PrimitiveFromText, StartsWith;
  }

  lemma FirstFieldFails(body: string, cut: string)
    requires Separator(body, 0) == |cut| <= |body| && body[..|cut|] == cut && ParseField(cut) == None
    ensures ParseFields(body) == None
  {
    hide ParseField, Separator;
  }

  // Delta refuses a struct that has two fields of one name.

  predicate DistinctNames(fields: seq<Field>) {
    forall i, j :: 0 <= i < j < |fields| ==> fields[i].name != fields[j].name
  }

  predicate Legal(t: DeltaType) {
    match t
    case ArrayType(element, _) => Legal(element)
    case MapType(key, value, _) => Legal(key) && Legal(value)
    case StructType(fields) => DistinctNames(fields) && forall i :: 0 <= i < |fields| ==> Legal(fields[i].fieldType)
    case _ => true
  }

  /** The legal types that use no other name than this. */
  ghost predicate UsesOnly(t: DeltaType, name: string) {
    Legal(t) && Names(t) <= {name}
  }

  /**
   * A field name is safe exactly if both parsers agree on every legal type that uses it: so these names,
   * and no others, may be read from either spelling.
   */
  lemma SafeNamesExactly(name: string)
    ensures NameIsSafe(name) <==>
            forall t :: UsesOnly(t, name) ==> ParseText(SparkText(t)) == TypeFromJsonValue(DeltaJson(t))
  {
    if NameIsSafe(name) {
      forall t | UsesOnly(t, name) ensures ParseText(SparkText(t)) == TypeFromJsonValue(DeltaJson(t)) {
        ParsersAgree(t);
      }
    } else {
      UnsafeNameIsBetrayed(name);
    }
  }

  lemma UnsafeNameIsBetrayed(name: string)
    requires !NameIsSafe(name)
    ensures exists t :: UsesOnly(t, name) && ParseText(SparkText(t)) != TypeFromJsonValue(DeltaJson(t))
  {
    hide ParseText, SparkText, Meaning, TypeFromJsonValue, DeltaJson, Scan, UsesOnly, OneField, KeyedBy, MapField;
    var t := if ':' in name || Scan(name, 0).None? then OneField(name)
             else if Scan(name, 0).value > 0 then KeyedBy(name) else MapField(name);
    JsonReadsBack(t);
    SimpleTypes(name);
    if ':' in name {
      ColonBetrays(name);
    } else if Scan(name, 0).None? {
      CommaBetrays(name);
    } else if Scan(name, 0).value > 0 {
      OpenBetrays(name);
    } else {
      CloseBetrays(name);
    }
    assert UsesOnly(t, name);
  }

  lemma SimpleTypes(name: string)
    ensures UsesOnly(OneField(name), name) && UsesOnly(KeyedBy(name), name) && UsesOnly(MapField(name), name)
  {
    hide Names;
    NamesOfInt(OneField(name));
    NamesOfStruct(OneField(name));
    NamesOfStruct(MapField(name));
    assert OneField(name).fields[1..] == [] && MapField(name).fields[1..] == [];
    assert Legal(INT) && Legal(MapType(INT, INT, true)) && Legal(OneField(name));
  }

  lemma NamesOfInt(key: DeltaType)
    ensures Names(INT) == {} && Names(MapType(INT, INT, true)) == {}
    ensures Names(MapType(key, INT, true)) == Names(key)
  {
  }

  lemma NamesOfStruct(t: DeltaType)
    requires t.StructType?
    ensures Names(t) == NamesOf(t, t.fields)
  {
  }
}
