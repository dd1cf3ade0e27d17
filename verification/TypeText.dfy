// Column types from Spark's type text, where children are split on separators that may also occur
// inside a child, and where a field's name is whatever stands before the first colon.
module TypeText {

  import opened Wrappers
  import opened Decimals
  import opened DeltaTypes
  import opened Texts
  import opened TypeJson

  // ---------- Separators ----------

  function Nesting(c: char): (r: int) {
    if c == '<' || c == '(' then 1 else if c == '>' || c == ')' then -1 else 0
  }

  /** The first comma that no bracket encloses, counting from `depth` open ones, or the end of the text. */
  function Separator(body: string, depth: int): (position: nat)
    ensures position <= |body|
    ensures position < |body| ==> body[position] == ','
  {
    if body == "" || (body[0] == ',' && depth <= 0) then 0
    else 1 + Separator(body[1..], depth + Nesting(body[0]))
  }

  /** How many more brackets a text opens than it closes. */
  function Open(text: string): (r: int) {
    var chars := multiset(text);
    (chars['<'] + chars['(']) as int - (chars['>'] + chars[')']) as int
  }

  /** It is the first comma, if any, before which no more brackets are opened than closed. */
  lemma {:induction false} SeparatorExactly(body: string, depth: int)
    ensures var end := Separator(body, depth);
            && (end < |body| ==> body[end] == ',' && depth + Open(body[..end]) <= 0)
            && forall i :: 0 <= i < end && body[i] == ',' ==> depth + Open(body[..i]) > 0
    decreases |body|
  {
    hide Open, Nesting, Separator;
    OpenNothing();
    assert body[..0] == "";
    SeparatorCons(body, depth);
    if body != "" && !(body[0] == ',' && depth <= 0) {
      var rest := body[1..];
      var end := Separator(rest, depth + Nesting(body[0]));
      SeparatorExactly(rest, depth + Nesting(body[0]));
      OpenAfterFirst(body, end + 1);
      forall i | 0 <= i < end + 1 && body[i] == ',' ensures depth + Open(body[..i]) > 0 {
        if i > 0 {
          OpenAfterFirst(body, i);
          assert rest[i - 1] == ',';
        }
      }
    }
  }

  lemma SeparatorCons(body: string, depth: int)
    ensures Separator(body, depth) ==
            if body == "" || (body[0] == ',' && depth <= 0) then 0 else 1 + Separator(body[1..], depth + Nesting(body[0]))
  {
  }

  lemma OpenAfterFirst(body: string, i: nat)
    requires 0 < i <= |body|
    ensures Open(body[..i]) == Nesting(body[0]) + Open(body[1..][..i - 1])
  {
    hide Open, Nesting;
    OpenCons(body[0], body[1..][..i - 1]);
    assert body[..i] == [body[0]] + body[1..][..i - 1];
  }

  lemma OpenNothing()
    ensures Open("") == 0
  {
  }

  lemma OpenCons(c: char, text: string)
    ensures Open([c] + text) == Nesting(c) + Open(text)
  {
  }

  /** One character of a text gone past, or a separator met. */
  lemma SeparatorStep(text: string, pos: nat, end: nat, depth: int)
    requires pos <= end <= |text|
    ensures Separator(text[pos..end], depth) ==
            if pos == end || (text[pos] == ',' && depth <= 0) then 0
            else 1 + Separator(text[pos + 1..end], depth + Nesting(text[pos]))
  {
    if pos < end {
      assert text[pos..end][1..] == text[pos + 1..end];
    }
  }

  /** Looks for the next separator of `text` from `cur` on, up to `end`. */
  method FindChildSeparator(text: string, cur: nat, end: nat) returns (pos: nat)
    requires cur <= end <= |text|
    ensures cur <= pos <= end && pos == cur + Separator(text[cur..end], 0)
  {
    hide Separator;
    var nestedOpens := 0;
    pos := cur;
    while pos < end && (text[pos] != ',' || nestedOpens > 0)
      invariant cur <= pos <= end
      invariant Separator(text[cur..end], 0) == pos - cur + Separator(text[pos..end], nestedOpens)
    {
      SeparatorStep(text, pos, end, nestedOpens);
      var c := text[pos];
      if c == '<' || c == '(' {
        nestedOpens := nestedOpens + 1;
      } else if c == '>' || c == ')' {
        nestedOpens := nestedOpens - 1;
      }
      pos := pos + 1;
    }
    SeparatorStep(text, pos, end, nestedOpens);
  }

  // ---------- The parser ----------

  function PrimitiveFromText(text: string): (r: Option<LogicalType>) {
    if text == "tinyint" then Some(TinyInt)
    else if text == "smallint" then Some(SmallInt)
    else if text == "bigint" then Some(BigInt)
    else if text == "int" then Some(Integer)
    else if text == "long" then Some(BigInt)
    else if text == "string" || StartsWith(text, "varchar(") || text == "char" || StartsWith(text, "char(") then Some(Varchar)
    else if text == "double" then Some(Double)
    else if text == "float" then Some(Float)
    else if text == "boolean" then Some(Boolean)
    else if text == "timestamp" then Some(TimestampTz)
    else if text == "timestamp_ntz" then Some(Timestamp)
    else if text == "variant" then Some(Variant)
    else if text == "binary" then Some(Blob)
    else if text == "date" then Some(Date)
    else if text == "void" then Some(SqlNull)
    else None
  }

  /** The part of a text from a position, up to another where that is further on. */
  function Part(text: string, start: nat, end: nat): (r: string)
    requires start <= |text|
  {
    if start <= end <= |text| then text[start..end] else text[start..]
  }

  /**
   * Unlike its JSON counterpart this does not look whether there is a comma, or one before the
   * parenthesis: without one the precision takes in the parenthesis, and is then no number.
   */
  function DecimalFromText(text: string): (r: Option<LogicalType>)
    requires StartsWith(text, DECIMAL)
  {
    var end := Find(text, ')');
    if end == |text| then None
    else
      var sep := Find(text, ',');
      assert sep >= 8 by { DecimalHasNoComma(text); }
      var precision := ParseByte(text[8..sep]);
      var scale := ParseByte(if sep == |text| then text[..end] else Part(text, sep + 1, end));
      if precision.None? || scale.None? then None else Some(Decimal(precision.value, scale.value))
  }

  lemma DecimalParsersAgree(text: string)
    requires StartsWith(text, DECIMAL)
    ensures DecimalFromText(text) == ParseDecimal(text)
  {
    DecimalHasNoComma(text);
    var end, sep := Find(text, ')'), Find(text, ',');
    if end < |text| && end < sep {
      assert text[8..sep][end - 8] == ')';
      assert !AllDigits(text[8..sep]);
    }
  }

  const ARRAY := "array<"
  const MAP := "map<"
  const STRUCT := "struct<"

  /** What stands between a prefix and the last '>', if there is one. */
  function Inside(text: string, prefix: string): (inside: Option<string>)
    requires StartsWith(text, prefix)
    ensures inside.Some? ==> |inside.value| + |prefix| < |text|
    ensures inside.Some? ==> text[|prefix|..|prefix| + |inside.value|] == inside.value && text[|prefix| + |inside.value|] == '>'
  {
    var rest := text[|prefix|..];
    var end := FindLast(rest, '>');
    if end == |rest| then None else Some(rest[..end])
  }

  /** The type a text spells, or nothing where the code throws. */
  function ParseText(text: string): (r: Option<LogicalType>)
    decreases |text|, 0
  {
    var primitive := PrimitiveFromText(text);
    if primitive.Some? then primitive
    else if StartsWith(text, DECIMAL) then DecimalFromText(text)
    else if StartsWith(text, ARRAY) then
      var inside := Inside(text, ARRAY);
      if inside.None? then None else ListOf(ParseText(inside.value))
    else if StartsWith(text, MAP) then
      var inside := Inside(text, MAP);
      if inside.None? then None else MapOfAll(ParseTypes(inside.value))
    else if StartsWith(text, STRUCT) then
      var inside := Inside(text, STRUCT);
      if inside.None? then None else StructOf(ParseFields(inside.value))
    else None
  }

  /** A map has a key and a value type, no fewer and no more. */
  function MapOfAll(types: Option<seq<LogicalType>>): (r: Option<LogicalType>) {
    if types.Some? && |types.value| == 2 then Some(Map(types.value[0], types.value[1])) else None
  }

  function ParseTypes(body: string): (r: Option<seq<LogicalType>>)
    decreases |body|, 1
  {
    var end := Separator(body, 0);
    var first := ParseText(body[..end]);
    if end == |body| then Prepend(first, Some([])) else Prepend(first, ParseTypes(body[end + 1..]))
  }

  function ParseField(field: string): (r: Option<Child>)
    decreases |field|, 1
  {
    var colon := Find(field, ':');
    if colon == |field| then None else ChildOf(field[..colon], ParseText(field[colon + 1..]))
  }

  function ParseFields(body: string): (r: Option<seq<Child>>)
    decreases |body|, 2
  {
    var end := Separator(body, 0);
    var first := ParseField(body[..end]);
    if end == |body| then Prepend(first, Some([])) else Prepend(first, ParseFields(body[end + 1..]))
  }

  // ---------- What else is accepted, and what refused ----------

  const WORDS := {"tinyint", "smallint", "bigint", "int", "long", "string", "char", "double", "float", "boolean", "timestamp",
                  "timestamp_ntz", "variant", "binary", "date", "void"}

  /** A text is a type only if it is one of these words, or starts as a type with brackets does. */
  lemma OtherWordsRefused(text: string)
    ensures ParseText(text).Some? ==>
              || text in WORDS || StartsWith(text, "varchar(") || StartsWith(text, "char(") || StartsWith(text, "decimal(")
              || StartsWith(text, "array<") || StartsWith(text, "map<") || StartsWith(text, "struct<")
  {
    hide StartsWith, Inside, DecimalFromText, ParseTypes, ParseFields;
  }

  /** Two words are understood that Spark does not write. */
  lemma OlderWords()
    ensures ParseText("long") == Some(BigInt) && ParseText("char") == Some(Varchar)
  {
    assert "long"[0] == 'l' && "char"[0] == 'c';
  }

  /** Whatever follows the parenthesis, a char or varchar is text. */
  lemma CharsExactly(text: string)
    requires StartsWith(text, "varchar(") || StartsWith(text, "char(")
    ensures ParseText(text) == Some(Varchar)
  {
    hide StartsWith;
    CharOf(text, "varchar(", 0);
    CharOf(text, "varchar(", 7);
    CharOf(text, "char(", 0);
    CharOf(text, "char(", 4);
  }

  /** What follows the last bracket of a container is ignored. */
  lemma TailIsIgnored(text: string, tail: string)
    requires StartsWith(text, ARRAY) || StartsWith(text, MAP) || StartsWith(text, STRUCT)
    requires |text| > 0 && text[|text| - 1] == '>' && '>' !in tail
    ensures ParseText(text + tail) == ParseText(text)
  {
    hide ParseTypes, ParseFields, DecimalFromText, Inside, StartsWith, PrimitiveFromText;
    SameInside(text, tail, ARRAY);
    SameInside(text, tail, MAP);
    SameInside(text, tail, STRUCT);
    ContainersAreNoWords(text);
    ContainersAreNoWords(text + tail);
    OneContainer(text + tail);
  }

  lemma OneContainer(text: string)
    ensures StartsWith(text, STRUCT) ==> !StartsWith(text, ARRAY) && !StartsWith(text, MAP)
  {
    hide StartsWith;
    CharOf(text, ARRAY, 0);
    CharOf(text, MAP, 0);
    CharOf(text, STRUCT, 0);
  }

  lemma SameInside(text: string, tail: string, prefix: string)
    requires |text| > 0 && text[|text| - 1] == '>' && '>' !in tail
    requires prefix != "" && prefix[|prefix| - 1] == '<'
    ensures StartsWith(text, prefix) ==> StartsWith(text + tail, prefix) && Inside(text + tail, prefix) == Inside(text, prefix)
  {
    hide FindLast;
    if StartsWith(text, prefix) {
      var n := |prefix|;
      assert text[n - 1] == '<' by { assert text[..n][n - 1] == '<'; }
      var rest := text[n..];
      assert (text + tail)[..n] == prefix && (text + tail)[n..] == rest + tail;
      LastStays(rest, tail);
      assert (rest + tail)[..|rest| - 1] == rest[..|rest| - 1];
    }
  }

  lemma LastStays(text: string, tail: string)
    requires |text| > 0 && text[|text| - 1] == '>' && '>' !in tail
    ensures FindLast(text, '>') == FindLast(text + tail, '>') == |text| - 1
  {
    LastIs(text, |text| - 1);
    LastIs(text + tail, |text| - 1);
  }

  lemma LastIs(text: string, position: nat)
    requires position < |text| && text[position] == '>' && forall i :: position < i < |text| ==> text[i] != '>'
    ensures FindLast(text, '>') == position
  {
    hide FindLast;
    var last := FindLast(text, '>');
    forall i | last < i < |text| ensures text[i] != '>' {
      assert text[last + 1..][i - last - 1] == text[i];
    }
  }

  /** A container without a closing bracket is refused. */
  lemma UnclosedRefused(text: string)
    requires StartsWith(text, ARRAY) || StartsWith(text, MAP) || StartsWith(text, STRUCT)
    requires '>' !in text
    ensures ParseText(text) == None
  {
    hide ParseTypes, ParseFields, DecimalFromText, Inside, StartsWith, PrimitiveFromText;
    ContainersAreNoWords(text);
    NothingInside(text, ARRAY);
    NothingInside(text, MAP);
    NothingInside(text, STRUCT);
  }

  lemma NothingInside(text: string, prefix: string)
    requires '>' !in text
    ensures StartsWith(text, prefix) ==> Inside(text, prefix) == None
  {
    if StartsWith(text, prefix) {
      var rest := text[|prefix|..];
      assert forall i :: 0 <= i < |rest| ==> rest[i] == text[|prefix| + i];
    }
  }

  lemma CharOf(text: string, prefix: string, i: nat)
    requires i < |prefix|
    ensures StartsWith(text, prefix) ==> i < |text| && text[i] == prefix[i]
  {
    if StartsWith(text, prefix) {
      assert text[..|prefix|][i] == text[i];
    }
  }

  lemma ContainersAreNoWords(text: string)
    requires StartsWith(text, ARRAY) || StartsWith(text, MAP) || StartsWith(text, STRUCT)
    ensures PrimitiveFromText(text) == None && !StartsWith(text, DECIMAL)
    ensures StartsWith(text, MAP) ==> !StartsWith(text, ARRAY)
  {
    hide StartsWith;
    CharOf(text, ARRAY, 0);
    CharOf(text, ARRAY, 5);
    CharOf(text, MAP, 0);
    CharOf(text, MAP, 3);
    CharOf(text, STRUCT, 0);
    CharOf(text, STRUCT, 2);
    CharOf(text, STRUCT, 6);
    CharOf(text, DECIMAL, 0);
    CharOf(text, "varchar(", 0);
    CharOf(text, "char(", 0);
  }

  /** A map has two types between its brackets: with any other number it is refused. */
  lemma MapsHaveTwo(text: string)
    requires StartsWith(text, MAP) && ParseText(text).Some?
    ensures ParseText(text).value.Map? && Inside(text, MAP).Some?
    ensures ParseTypes(Inside(text, MAP).value) == Some([ParseText(text).value.key, ParseText(text).value.value])
  {
    hide ParseTypes, Inside, StartsWith, PrimitiveFromText;
    ContainersAreNoWords(text);
    var types := ParseTypes(Inside(text, MAP).value).value;
    assert types == [types[0], types[1]];
  }

  // ---------- The parser as it runs ----------

  /** It stops on every text: each call gets a strictly shorter one. */
  method TypeToLogicalType(text: string) returns (t: Option<LogicalType>)
    ensures t == ParseText(text)
    decreases |text|
  {
    var primitive := PrimitiveFromText(text);
    if primitive.Some? {
      return primitive;
    }
    if StartsWith(text, DECIMAL) {
      return DecimalFromText(text);
    }
    if StartsWith(text, ARRAY) {
      var inside := Inside(text, ARRAY);
      if inside.None? {
        return None;
      }
      var child := TypeToLogicalType(inside.value);
      return ListOf(child);
    }
    if StartsWith(text, MAP) {
      var inside := Inside(text, MAP);
      if inside.None? {
        return None;
      }
      var types := ReadTypes(text, 4, 4 + |inside.value|);
      return MapOfAll(types);
    }
    if StartsWith(text, STRUCT) {
      var inside := Inside(text, STRUCT);
      if inside.None? {
        return None;
      }
      var children := ReadFields(text, 7, 7 + |inside.value|);
      return StructOf(children);
    }
    return None;
  }

  lemma NextType(text: string, cur: nat, next: nat, end: nat)
    requires cur <= end <= |text| && next == cur + Separator(text[cur..end], 0)
    ensures next <= end
    ensures ParseTypes(text[cur..end]) ==
            Prepend(ParseText(text[cur..next]), if next == end then Some([]) else ParseTypes(text[next + 1..end]))
  {
    hide ParseText;
    assert text[cur..end][..next - cur] == text[cur..next];
    if next < end {
      assert text[cur..end][next - cur + 1..] == text[next + 1..end];
    }
  }

  lemma NextField(text: string, cur: nat, next: nat, end: nat)
    requires cur <= end <= |text| && next == cur + Separator(text[cur..end], 0)
    ensures next <= end
    ensures ParseFields(text[cur..end]) ==
            Prepend(ParseField(text[cur..next]), if next == end then Some([]) else ParseFields(text[next + 1..end]))
  {
    hide ParseField;
    assert text[cur..end][..next - cur] == text[cur..next];
    if next < end {
      assert text[cur..end][next - cur + 1..] == text[next + 1..end];
    }
  }

  method ReadTypes(text: string, start: nat, end: nat) returns (types: Option<seq<LogicalType>>)
    requires 0 < start <= end < |text|
    ensures types == ParseTypes(text[start..end])
    decreases |text|, 0
  {
    hide PrependAll, ParseText, ParseTypes, Separator;
    var read: seq<LogicalType> := [];
    var cur := start;
    PrependAllNone(ParseTypes(text[start..end]));
    while true
      invariant start <= cur <= end
      invariant ParseTypes(text[start..end]) == PrependAll(read, ParseTypes(text[cur..end]))
      decreases end - cur
    {
      var next := FindChildSeparator(text, cur, end);
      NextType(text, cur, next, end);
      var child := TypeToLogicalType(text[cur..next]);
      if child.None? {
        PrependAllFails(read);
        return None;
      }
      if next >= end {
        PrependAllSnoc(read, child.value, Some([]));
        PrependAllLast(read + [child.value]);
        return Some(read + [child.value]);
      }
      PrependAllSnoc(read, child.value, ParseTypes(text[next + 1..end]));
      read := read + [child.value];
      cur := next + 1;
    }
  }

  method ReadFields(text: string, start: nat, end: nat) returns (children: Option<seq<Child>>)
    requires 0 < start <= end < |text|
    ensures children == ParseFields(text[start..end])
    decreases |text|, 0
  {
    hide PrependAll, ParseText, ParseFields, ParseField, Separator;
    var read: seq<Child> := [];
    var cur := start;
    PrependAllNone(ParseFields(text[start..end]));
    while true
      invariant start <= cur <= end
      invariant ParseFields(text[start..end]) == PrependAll(read, ParseFields(text[cur..end]))
      decreases end - cur
    {
      var next := FindChildSeparator(text, cur, end);
      NextField(text, cur, next, end);
      var child := ReadField(text[cur..next]);
      if child.None? {
        PrependAllFails(read);
        return None;
      }
      if next >= end {
        PrependAllSnoc(read, child.value, Some([]));
        PrependAllLast(read + [child.value]);
        return Some(read + [child.value]);
      }
      PrependAllSnoc(read, child.value, ParseFields(text[next + 1..end]));
      read := read + [child.value];
      cur := next + 1;
    }
  }

  /** The name is what stands before the first colon. */
  method ReadField(field: string) returns (child: Option<Child>)
    ensures child == ParseField(field)
    decreases |field|, 1
  {
    hide ParseText, Find;
    var colon := Find(field, ':');
    if colon == |field| {
      return None;
    }
    var childType := TypeToLogicalType(field[colon + 1..]);
    return ChildOf(field[..colon], childType);
  }

  lemma PrependAllFails<T>(first: seq<T>)
    ensures PrependAll(first, None) == None
  {
  }

  lemma PrependAllLast<T>(first: seq<T>)
    ensures PrependAll(first, Some([])) == Some(first)
  {
    assert first + [] == first;
  }
}
