// Delta's data types, the two ways the catalog spells them, and the column types they stand for.
module DeltaTypes {

  import opened Wrappers
  import opened Decimals
  import opened Documents

  /** DuckDB's column types. */
  datatype LogicalType =
    | TinyInt | SmallInt | Integer | BigInt | Varchar | Double | Float | Boolean
    | TimestampTz | Timestamp | Variant | Blob | Date | SqlNull
    | Decimal(precision: nat, scale: nat)
    | List(child: LogicalType)
    | Map(key: LogicalType, value: LogicalType)
    | Struct(children: seq<Child>)

  datatype Child = Child(name: string, childType: LogicalType)

  datatype Primitive =
    | StringType | LongType | IntegerType | ShortType | ByteType | FloatType | DoubleType | BooleanType
    | BinaryType | DateType | TimestampType | TimestampNtzType | VariantType | VoidType

  /** Delta's types; char(n) and varchar(n) are Spark's, which the log keeps as plain strings. */
  datatype DeltaType =
    | Prim(primitive: Primitive)
    | CharType(length: nat)
    | VarcharType(length: nat)
    | DecimalType(precision: nat, scale: nat)
    | ArrayType(element: DeltaType, containsNull: bool)
    | MapType(key: DeltaType, value: DeltaType, valueContainsNull: bool)
    | StructType(fields: seq<Field>)

  datatype Field = Field(name: string, fieldType: DeltaType, nullable: bool)

  // ---------- Meaning ----------

  function PrimitiveMeaning(p: Primitive): (r: LogicalType) {
    match p
    case StringType => Varchar
    case LongType => BigInt
    case IntegerType => Integer
    case ShortType => SmallInt
    case ByteType => TinyInt
    case FloatType => Float
    case DoubleType => Double
    case BooleanType => Boolean
    case BinaryType => Blob
    case DateType => Date
    case TimestampType => TimestampTz
    case TimestampNtzType => Timestamp
    case VariantType => Variant
    case VoidType => SqlNull
  }

  /** The column type a Delta type stands for; a struct needs a field, and a decimal's numbers a byte each. */
  function Meaning(t: DeltaType): (r: Option<LogicalType>) {
    match t
    case Prim(p) => Some(PrimitiveMeaning(p))
    case CharType(_) => Some(Varchar)
    case VarcharType(_) => Some(Varchar)
    case DecimalType(precision, scale) => if precision <= 255 && scale <= 255 then Some(Decimal(precision, scale)) else None
    case ArrayType(element, _) => ListOf(Meaning(element))
    case MapType(key, value, _) => MapOf(Meaning(key), Meaning(value))
    case StructType(fields) => StructOf(if fields == [] then None else MeaningOfFields(t, fields))
  }

  function MeaningOfFields(t: DeltaType, fields: seq<Field>): (r: Option<seq<Child>>)
    requires forall i :: 0 <= i < |fields| ==> fields[i] < t
    decreases t, |fields|
  {
    if fields == [] then Some([])
    else
      Prepend(ChildOf(fields[0].name, Meaning(fields[0].fieldType)), MeaningOfFields(t, fields[1..]))
  }

  // Building a type out of parsed parts, any of which may have failed.

  function ListOf(child: Option<LogicalType>): (r: Option<LogicalType>) {
    if child.None? then None else Some(List(child.value))
  }

  function MapOf(key: Option<LogicalType>, value: Option<LogicalType>): (r: Option<LogicalType>) {
    if key.None? || value.None? then None else Some(Map(key.value, value.value))
  }

  function StructOf(children: Option<seq<Child>>): (r: Option<LogicalType>) {
    if children.None? then None else Some(Struct(children.value))
  }

  function ChildOf(name: string, childType: Option<LogicalType>): (r: Option<Child>) {
    if childType.None? then None else Some(Child(name, childType.value))
  }

  function Prepend<T>(first: Option<T>, rest: Option<seq<T>>): (r: Option<seq<T>>) {
    if first.None? || rest.None? then None else Some([first.value] + rest.value)
  }

  // ---------- Spark's text ----------

  function PrimitiveText(p: Primitive): (r: string) {
    match p
    case StringType => "string"
    case LongType => "bigint"
    case IntegerType => "int"
    case ShortType => "smallint"
    case ByteType => "tinyint"
    case FloatType => "float"
    case DoubleType => "double"
    case BooleanType => "boolean"
    case BinaryType => "binary"
    case DateType => "date"
    case TimestampType => "timestamp"
    case TimestampNtzType => "timestamp_ntz"
    case VariantType => "variant"
    case VoidType => "void"
  }

  function DecimalText(precision: nat, scale: nat): (r: string) {
    "decimal(" + (NatText(precision) + ("," + (NatText(scale) + ")")))
  }

  function SparkText(t: DeltaType): (r: string) {
    match t
    case Prim(p) => PrimitiveText(p)
    case CharType(length) => "char(" + (NatText(length) + ")")
    case VarcharType(length) => "varchar(" + (NatText(length) + ")")
    case DecimalType(precision, scale) => DecimalText(precision, scale)
    case ArrayType(element, _) => "array<" + (SparkText(element) + ">")
    case MapType(key, value, _) => "map<" + ((SparkText(key) + ("," + SparkText(value))) + ">")
    case StructType(fields) => "struct<" + (FieldsText(t, fields) + ">")
  }

  function FieldsText(t: DeltaType, fields: seq<Field>): (r: string)
    requires forall i :: 0 <= i < |fields| ==> fields[i] < t
    decreases t, |fields|
  {
    if fields == [] then ""
    else
      var first := fields[0].name + (":" + SparkText(fields[0].fieldType));
      if |fields| == 1 then first else first + ("," + FieldsText(t, fields[1..]))
  }

  // ---------- Delta's JSON ----------

  function PrimitiveName(p: Primitive): (r: string) {
    match p
    case StringType => "string"
    case LongType => "long"
    case IntegerType => "integer"
    case ShortType => "short"
    case ByteType => "byte"
    case FloatType => "float"
    case DoubleType => "double"
    case BooleanType => "boolean"
    case BinaryType => "binary"
    case DateType => "date"
    case TimestampType => "timestamp"
    case TimestampNtzType => "timestamp_ntz"
    case VariantType => "variant"
    case VoidType => "void"
  }

  function DeltaJson(t: DeltaType): (r: Doc) {
    match t
    case Prim(p) => Str(PrimitiveName(p))
    case CharType(_) => Str("string")
    case VarcharType(_) => Str("string")
    case DecimalType(precision, scale) => Str(DecimalText(precision, scale))
    case ArrayType(element, containsNull) =>
      Obj([Entry("type", Str("array")), Entry("elementType", DeltaJson(element)), Entry("containsNull", Bool(containsNull))])
    case MapType(key, value, valueContainsNull) =>
      Obj([Entry("type", Str("map")), Entry("keyType", DeltaJson(key)), Entry("valueType", DeltaJson(value)),
           Entry("valueContainsNull", Bool(valueContainsNull))])
    case StructType(fields) =>
      Obj([Entry("type", Str("struct")), Entry("fields", Arr(FieldsJson(t, fields)))])
  }

  function FieldsJson(t: DeltaType, fields: seq<Field>): (r: seq<Doc>)
    requires forall i :: 0 <= i < |fields| ==> fields[i] < t
    decreases t, |fields|
  {
    if fields == [] then []
    else
      [FieldEntry(fields[0], DeltaJson(fields[0].fieldType))] + FieldsJson(t, fields[1..])
  }

  /** A StructField: its name, its type, whether it is nullable, and its metadata. */
  function FieldEntry(field: Field, fieldType: Doc): (r: Doc) {
    Obj([Entry("name", Str(field.name)), Entry("type", fieldType), Entry("nullable", Bool(field.nullable)),
         Entry("metadata", Obj([]))])
  }
}
