/** The text a scan filter is sent as, built the way the source builds it, and read back. */
module IrcText {
  import opened Wrappers
  import opened Json
  import opened Decimals
  import opened IrcFilter

  datatype Text = Threw | Wrote(text: string)

  function OperatorName(op: TermOperator): (r: string) {
    match op
    case Equal => "eq"
    case NotEqual => "not-eq"
    case Less => "lt"
    case Greater => "gt"
    case LessEqual => "lt-eq"
    case GreaterEqual => "gt-eq"
  }

  function LiteralText(l: Literal): (r: string)
    ensures r != ""
  {
    match l
    case NumberLiteral(token) => token
    case BooleanLiteral(b) => if b then "true" else "false"
    case StringLiteral(s) => Quote(s)
  }

  function TermText(kind: string, term: string, value: string): (r: string) {
    "{\"type\":\"" + kind + "\",\"term\":" + term + ",\"value\":" + value + "}"
  }

  function NullText(kind: string, term: string): (r: string) {
    "{\"type\":\"" + kind + "\",\"term\":" + term + "}"
  }

  function JoinText(isAnd: bool, left: string, right: string): (r: string) {
    "{\"type\":\"" + (if isAnd then "and" else "or") + "\",\"left\":" + left + ",\"right\":" + right + "}"
  }

  /** The text of a filter, piece by piece. */
  function FilterText(f: Filter): (r: string)
    ensures r != ""
  {
    match f
    case Term(op, term, value) => TermText(OperatorName(op), Quote(term), LiteralText(value))
    case NullTerm(isNull, term) => NullText(if isNull then "is-null" else "not-null", Quote(term))
    case Both(left, right) => JoinText(true, FilterText(left), FilterText(right))
    case Either(left, right) => JoinText(false, FilterText(left), FilterText(right))
  }

  /** What the serializer should write for an emission: nothing at all for a dropped predicate. */
  function TextOf(e: Emission<Filter>): (r: Text) {
    match e
    case Thrown => Threw
    case Dropped => Wrote("")
    case Emitted(f) => Wrote(FilterText(f))
  }

  /** The catalog's words for the operators. */
  lemma OperatorWords()
    ensures OperatorName(Equal) == "eq" && OperatorName(NotEqual) == "not-eq"
    ensures OperatorName(Less) == "lt" && OperatorName(LessEqual) == "lt-eq"
    ensures OperatorName(Greater) == "gt" && OperatorName(GreaterEqual) == "gt-eq"
  {
  }

  /** The documents sent for one term and for one NULL test, and how three filters are nested. */
  lemma TermsSpelledOut(op: TermOperator, isNull: bool, term: string, value: Literal)
    ensures FilterText(Term(op, term, value)) ==
            "{\"type\":\"" + OperatorName(op) + "\",\"term\":" + Quote(term) + ",\"value\":" +
            (if value.StringLiteral? then Quote(value.s) else if value.NumberLiteral? then value.token
             else if value == BooleanLiteral(true) then "true" else "false") + "}"
    ensures FilterText(NullTerm(isNull, term)) ==
            "{\"type\":\"" + (if isNull then "is-null" else "not-null") + "\",\"term\":" + Quote(term) + "}"
  {
    hide Quote, OperatorName;
  }

  lemma NestingSpelledOut(a: Filter, b: Filter, c: Filter)
    ensures var left := "{\"type\":\"and\",\"left\":" + FilterText(a) + ",\"right\":" + FilterText(b) + "}";
            FilterText(Fold(true, [a, b, c])) == "{\"type\":\"and\",\"left\":" + left + ",\"right\":" + FilterText(c) + "}"
    ensures var left := "{\"type\":\"or\",\"left\":" + FilterText(a) + ",\"right\":" + FilterText(b) + "}";
            FilterText(Fold(false, [a, b, c])) == "{\"type\":\"or\",\"left\":" + left + ",\"right\":" + FilterText(c) + "}"
  {
    hide JoinText;
    assert [a, b, c][..2] == [a, b] && [a, b][..1] == [a];
    FoldText(true, [a, b], c);
    FoldText(true, [a], b);
    FoldText(false, [a, b], c);
    FoldText(false, [a], b);
    assert [a, b] + [c] == [a, b, c] && [a] + [b] == [a, b];
    JoinSpelledOut(FilterText(a), FilterText(b));
    hide FilterText, Fold;
    JoinSpelledOut(JoinText(true, FilterText(a), FilterText(b)), FilterText(c));
    JoinSpelledOut(JoinText(false, FilterText(a), FilterText(b)), FilterText(c));
  }

  lemma JoinSpelledOut(left: string, right: string)
    ensures JoinText(true, left, right) == "{\"type\":\"and\",\"left\":" + left + ",\"right\":" + right + "}"
    ensures JoinText(false, left, right) == "{\"type\":\"or\",\"left\":" + left + ",\"right\":" + right + "}"
  {
  }

  // ---- The serializer ----

  lemma EscapeEmpty()
    ensures Escape("") == ""
  {
  }

  method JsonQuote(s: string) returns (result: string)
    ensures result == Quote(s)
  {
    hide Escape;
    result := "\"";
    assert Escape(s[..0]) == "" by {
      EscapeEmpty();
      assert s[..0] == "";
    }
    for i := 0 to |s|
      invariant result == "\"" + Escape(s[..i])
    {
      EscapeSnoc(s[..i], s[i]);
      assert s[..i + 1] == s[..i] + [s[i]];
      var c := s[i];
      if c == '"' {
        result := result + "\\\"";
      } else if c == '\\' {
        result := result + "\\\\";
      } else if c == '\n' {
        result := result + "\\n";
      } else if c == '\r' {
        result := result + "\\r";
      } else if c == '\t' {
        result := result + "\\t";
      } else {
        result := result + [c];
      }
    }
    assert s[..|s|] == s;
    result := result + "\"";
  }

  method ValueToJson(c: Constant) returns (r: Text)
    ensures r == match LiteralOf(c)
                 case Thrown => Threw
                 case Dropped => Wrote("")
                 case Emitted(l) => Wrote(LiteralText(l))
    ensures r.Threw? <==> NullOther(c)
    ensures r == Wrote("") <==> !NullOther(c) && !SupportedConstant(c) && c != Varchar(None)
    ensures c.SignedInteger? && c.n.Some? ==> r == Wrote(IntText(c.n.value))
    ensures c.UnsignedInteger? && c.u.Some? ==> r == Wrote(IntText(c.u.value))
    ensures c.Floating? && c.d.Some? && c.d.value.Finite? ==> r == Wrote(c.d.value.text)
    ensures c.Varchar? ==> r == Wrote(Quote(if c.s.Some? then c.s.value else "NULL"))
  {
    match c
    case SignedInteger(n) =>
      r := if n.None? then Threw else Wrote(IntText(n.value));
    case UnsignedInteger(u) =>
      r := if u.None? then Threw else Wrote(IntText(u.value));
    case Floating(d) =>
      r := if d.None? then Threw else if d.value.NonFinite? then Wrote("") else Wrote(d.value.text);
    case Boolean(b) =>
      r := if b.None? then Threw else Wrote(if b.value then "true" else "false");
    case Varchar(s) =>
      var quoted := JsonQuote(if s.None? then "NULL" else s.value);
      r := Wrote(quoted);
    case OtherConstant(_) =>
      r := Wrote("");
  }

  method ComparisonToJson(op: Operator, name: string, c: Constant) returns (r: Text)
    ensures r == TextOf(WeakenComparison(op, name, c))
  {
    hide LiteralOf, LiteralText, Quote, OperatorName, TermText;
    if op == Distinct || op == NotDistinct || name == "" {
      return Wrote("");
    }
    var term := JsonQuote(name);
    var value := ValueToJson(c);
    if value.Threw? || value.text == "" {
      return value;
    }
    r := Wrote(TermText(OperatorName(op), term, value.text));
  }

  /** Joins the texts of the parts, nesting to the left. */
  method Join(isAnd: bool, ghost parts: seq<Filter>, texts: seq<string>) returns (result: string)
    requires |texts| == |parts| && forall i :: 0 <= i < |parts| ==> texts[i] == FilterText(parts[i])
    ensures result == if parts == [] then "" else FilterText(Fold(isAnd, parts))
  {
    hide FilterText, JoinText, Fold;
    if |texts| == 0 {
      return "";
    }
    result := texts[0];
    FoldOne(isAnd, parts[0]);
    assert parts[..1] == [parts[0]];
    for i := 1 to |texts|
      invariant result == FilterText(Fold(isAnd, parts[..i]))
    {
      FoldText(isAnd, parts[..i], parts[i]);
      assert parts[..i + 1] == parts[..i] + [parts[i]];
      result := JoinText(isAnd, result, texts[i]);
    }
    assert parts[..|texts|] == parts;
  }

  lemma FoldOne(isAnd: bool, f: Filter)
    ensures Fold(isAnd, [f]) == f
  {
  }

  lemma FoldText(isAnd: bool, parts: seq<Filter>, f: Filter)
    requires parts != []
    ensures FilterText(Fold(isAnd, parts + [f])) == JoinText(isAnd, FilterText(Fold(isAnd, parts)), FilterText(f))
  {
    hide JoinText;
    assert (parts + [f])[..|parts|] == parts;
  }

  lemma PartsSplit(isAnd: bool, children: seq<Expr>, i: nat, done: seq<Filter>)
    requires i < |children|
    ensures WeakenParts(isAnd, children[i..]) ==
      match Weaken(children[i])
      case Thrown => Thrown
      case Dropped => if isAnd then WeakenParts(isAnd, children[i + 1..]) else Dropped
      case Emitted(f) =>
        match WeakenParts(isAnd, children[i + 1..])
        case Thrown => Thrown
        case Dropped => Dropped
        case Emitted(parts) => Emitted([f] + parts)
  {
    assert children[i..][0] == children[i] && children[i..][1..] == children[i + 1..];
  }

  /** Parts found so far, then those of the remaining children. */
  function Extend(done: seq<Filter>, rest: Emission<seq<Filter>>): (r: Emission<seq<Filter>>) {
    match rest
    case Thrown => Thrown
    case Dropped => Dropped
    case Emitted(parts) => Emitted(done + parts)
  }

  /** The loop over the children of a conjunction or disjunction, and over the pushed filters. */
  method PartsToJson(isAnd: bool, children: seq<Expr>) returns (r: Text)
    ensures r == TextOf(WeakenAll(isAnd, children))
    decreases children, 1
  {
    hide Weaken, WeakenParts, Fold, FilterText;
    var texts: seq<string> := [];
    ghost var parts: seq<Filter> := [];
    var i := 0;
    assert children[0..] == children;
    NoMore(isAnd, children[|children|..]);
    assert WeakenParts(isAnd, children) == Extend([], WeakenParts(isAnd, children[0..])) by {
      ExtendNothing(WeakenParts(isAnd, children));
    }
    while i < |children|
      invariant 0 <= i <= |children| && |texts| == |parts|
      invariant forall k :: 0 <= k < |parts| ==> texts[k] == FilterText(parts[k])
      invariant WeakenParts(isAnd, children) == Extend(parts, WeakenParts(isAnd, children[i..]))
    {
      PartsSplit(isAnd, children, i, parts);
      var s := ExprToJson(children[i]);
      if s.Threw? {
        return Threw;
      }
      if s.text == "" {
        if !isAnd {
          return Wrote("");
        }
      } else {
        ghost var f := Weaken(children[i]).value;
        ExtendOne(parts, f, WeakenParts(isAnd, children[i + 1..]));
        texts, parts := texts + [s.text], parts + [f];
      }
      i := i + 1;
    }
    ExtendEnd(parts);
    var result := Join(isAnd, parts, texts);
    r := Wrote(result);
  }

  lemma NoMore(isAnd: bool, children: seq<Expr>)
    requires children == []
    ensures WeakenParts(isAnd, children) == Emitted([])
  {
  }

  lemma ExtendNothing(rest: Emission<seq<Filter>>)
    ensures Extend([], rest) == rest
  {
    if rest.Emitted? {
      assert [] + rest.value == rest.value;
    }
  }

  lemma ExtendEnd(done: seq<Filter>)
    ensures Extend(done, Emitted([])) == Emitted(done)
  {
    assert done + [] == done;
  }

  lemma ExtendOne(done: seq<Filter>, f: Filter, rest: Emission<seq<Filter>>)
    ensures Extend(done, Extend([f], rest)) == Extend(done + [f], rest)
  {
    if rest.Emitted? {
      assert done + ([f] + rest.value) == done + [f] + rest.value;
    }
  }

  /** A predicate as filter text, empty when it is dropped. */
  method ExprToJson(e: Expr) returns (r: Text)
    ensures r == TextOf(Weaken(e))
    decreases e, 0
  {
    hide WeakenComparison, WeakenAll, Quote, NullText;
    match e
    case Comparison(op, left, right) =>
      if left.ColumnRef? && right.Const? {
        r := ComparisonToJson(op, left.name, right.value);
      } else if right.ColumnRef? && left.Const? {
        r := ComparisonToJson(Flip(op), right.name, left.value);
      } else {
        r := Wrote("");
      }
    case Conjunction(isAnd, children) =>
      r := PartsToJson(isAnd, children);
    case NullTest(isNull, operands) =>
      if |operands| == 1 && operands[0].ColumnRef? && operands[0].name != "" {
        var term := JsonQuote(operands[0].name);
        r := Wrote(NullText(if isNull then "is-null" else "not-null", term));
      } else {
        r := Wrote("");
      }
    case _ =>
      r := Wrote("");
  }

  method SerializeFilters(filters: seq<Expr>) returns (r: Text)
    ensures r == TextOf(WeakenFilters(filters))
  {
    r := PartsToJson(true, filters);
  }

  /** What a scan remembers of its predicate. */
  class BindData {
    var filterJson: string

    constructor ()
      ensures filterJson == ""
    {
      filterJson := "";
    }

    /** The optimizer's callback. It is called again with nothing left to push, which must keep what the
        first call captured; a serialization that throws leaves the scan unfiltered. */
    method PushdownFilter(filters: seq<Expr>)
      modifies this
      ensures filters == [] ==> filterJson == old(filterJson)
      ensures filters != [] ==>
        filterJson == if WeakenFilters(filters).Emitted? then FilterText(WeakenFilters(filters).value) else ""
    {
      if filters == [] {
        return;
      }
      var text := SerializeFilters(filters);
      filterJson := if text.Threw? then "" else text.text;
    }
  }

  // ---- Reading the text back ----

  function Fields(kind: string, more: Members): (r: Json) {
    Object(Member("type", String(kind), more))
  }

  function LiteralJson(l: Literal): (r: Json) {
    match l
    case NumberLiteral(token) => Number(token)
    case BooleanLiteral(b) => Json.Boolean(b)
    case StringLiteral(s) => String(s)
  }

  /** The JSON document a filter stands for. */
  function FilterJson(f: Filter): (r: Json) {
    match f
    case Term(op, term, value) =>
      Fields(OperatorName(op), Member("term", String(term), Member("value", LiteralJson(value), End)))
    case NullTerm(isNull, term) =>
      Fields(if isNull then "is-null" else "not-null", Member("term", String(term), End))
    case Both(left, right) =>
      Fields("and", Member("left", FilterJson(left), Member("right", FilterJson(right), End)))
    case Either(left, right) =>
      Fields("or", Member("left", FilterJson(left), Member("right", FilterJson(right), End)))
  }

  function OperatorOf(name: string): (r: Option<TermOperator>) {
    if name == "eq" then Some(Equal) else if name == "not-eq" then Some(NotEqual)
    else if name == "lt" then Some(Less) else if name == "gt" then Some(Greater)
    else if name == "lt-eq" then Some(LessEqual) else if name == "gt-eq" then Some(GreaterEqual) else None
  }

  function LiteralFrom(j: Json): (r: Option<Literal>) {
    match j
    case Number(token) => if NumberToken(token) then Some(NumberLiteral(token)) else None
    case Boolean(b) => Some(BooleanLiteral(b))
    case String(s) => Some(StringLiteral(s))
    case Object(_) => None
  }

  /** A reader of filter documents. */
  function FilterFrom(j: Json): (r: Option<Filter>) {
    match j
    case Object(Member("type", String(kind), Member("term", String(term), End))) =>
      if kind == "is-null" then Some(NullTerm(true, term))
      else if kind == "not-null" then Some(NullTerm(false, term)) else None
    case Object(Member("type", String(kind), Member("term", String(term), Member("value", value, End)))) =>
      if OperatorOf(kind).None? || LiteralFrom(value).None? then None
      else Some(Term(OperatorOf(kind).value, term, LiteralFrom(value).value))
    case Object(Member("type", String(kind), Member("left", left, Member("right", right, End)))) =>
      var l, r := FilterFrom(left), FilterFrom(right);
      if l.None? || r.None? then None
      else if kind == "and" then Some(Both(l.value, r.value))
      else if kind == "or" then Some(Either(l.value, r.value)) else None
    case _ => None
  }

  /** A filter sent and read back: parse the text, then read the document. */
  function ReadFilter(text: string, strict: bool): (r: Option<Filter>) {
    var parsed := ParseJson(text, strict);
    if parsed.None? || parsed.value.1 != "" then None else FilterFrom(parsed.value.0)
  }

  predicate PlainChar(c: char) {
    c >= ' ' && c != '"' && c != '\\'
  }

  predicate PlainWord(s: string) {
    forall i :: 0 <= i < |s| ==> PlainChar(s[i])
  }

  lemma PlainQuote(s: string)
    requires PlainWord(s)
    ensures Quote(s) == "\"" + s + "\"" && Clean(s)
  {
    PlainEscape(s);
  }

  lemma {:induction false} PlainEscape(s: string)
    requires PlainWord(s)
    ensures Escape(s) == s
  {
    if s != "" {
      assert PlainChar(s[0]);
      PlainEscape(s[1..]);
    }
  }

  /** The words a filter is written in need no escape. */
  lemma Keywords()
    ensures Quote("type") == "\"type\"" && Clean("type")
    ensures Quote("term") == "\"term\"" && Clean("term")
    ensures Quote("value") == "\"value\"" && Clean("value")
    ensures Quote("left") == "\"left\"" && Clean("left")
    ensures Quote("right") == "\"right\"" && Clean("right")
    ensures Quote("and") == "\"and\"" && Clean("and")
    ensures Quote("or") == "\"or\"" && Clean("or")
    ensures Quote("is-null") == "\"is-null\"" && Clean("is-null")
    ensures Quote("not-null") == "\"not-null\"" && Clean("not-null")
  {
    hide Quote, Clean;
    PlainQuote("type");
    PlainQuote("term");
    PlainQuote("value");
    PlainQuote("left");
    PlainQuote("right");
    Connectives();
  }

  lemma Connectives()
    ensures Quote("and") == "\"and\"" && Clean("and")
    ensures Quote("or") == "\"or\"" && Clean("or")
    ensures Quote("is-null") == "\"is-null\"" && Clean("is-null")
    ensures Quote("not-null") == "\"not-null\"" && Clean("not-null")
  {
    hide Quote, Clean;
    PlainQuote("and");
    PlainQuote("or");
    PlainQuote("is-null");
    PlainQuote("not-null");
  }

  lemma OperatorQuote(op: TermOperator)
    ensures Quote(OperatorName(op)) == "\"" + OperatorName(op) + "\"" && Clean(OperatorName(op))
  {
    hide Quote, Clean;
    PlainQuote(OperatorName(op));
  }

  /** A member, and what follows it. */
  lemma OneMember(key: string, value: Json, rest: Members)
    ensures PrintMembers(Member(key, value, rest)) ==
            Quote(key) + ":" + PrintJson(value) + (if rest.End? then "" else "," + PrintMembers(rest))
  {
  }

  lemma TypedObject(kind: string, key: string, value: Json, more: Members, tail: string)
    requires Quote(kind) == "\"" + kind + "\"" && Quote("type") == "\"type\""
    requires tail == PrintMembers(Member(key, value, more))
    ensures PrintJson(Fields(kind, Member(key, value, more))) == "{\"type\":\"" + kind + "\"," + tail + "}"
  {
    hide Quote, PrintMembers;
    LeafDocument(kind);
    OneMember("type", String(kind), Member(key, value, more));
    PrintedObject(Member("type", String(kind), Member(key, value, more)));
    hide PrintJson;
    assert "\"type\"" + ":" + ("\"" + kind + "\"") == "\"type\":\"" + kind + "\"";
    assert "{" + ("\"type\":\"" + kind + "\"" + ("," + tail)) + "}" == "{\"type\":\"" + kind + "\"," + tail + "}";
  }

  lemma PrintedObject(m: Members)
    ensures PrintJson(Object(m)) == "{" + PrintMembers(m) + "}"
  {
  }

  lemma JoinDocument(isAnd: bool, left: Json, right: Json)
    ensures PrintJson(Fields(if isAnd then "and" else "or", Member("left", left, Member("right", right, End))))
         == JoinText(isAnd, PrintJson(left), PrintJson(right))
  {
    hide Quote, PrintJson, PrintMembers;
    Keywords();
    var kind := if isAnd then "and" else "or";
    var l, r := PrintJson(left), PrintJson(right);
    OneMember("right", right, End);
    OneMember("left", left, Member("right", right, End));
    var tail := PrintMembers(Member("left", left, Member("right", right, End)));
    TypedObject(kind, "left", left, Member("right", right, End), tail);
    assert tail == "\"left\":" + l + ",\"right\":" + r;
    JoinPieces(kind, l, r);
  }

  lemma JoinPieces(kind: string, l: string, r: string)
    ensures "{\"type\":\"" + kind + "\"," + ("\"left\":" + l + ",\"right\":" + r) + "}" ==
            "{\"type\":\"" + kind + "\",\"left\":" + l + ",\"right\":" + r + "}"
  {
    assert "\"," + "\"left\":" == "\",\"left\":";
  }

  lemma TermDocument(op: TermOperator, term: string, value: Literal)
    ensures PrintJson(FilterJson(Term(op, term, value))) ==
            TermText(OperatorName(op), Quote(term), LiteralText(value))
  {
    hide Quote, PrintJson, PrintMembers, LiteralJson, LiteralText, OperatorName;
    Keywords();
    OperatorQuote(op);
    LeafDocument(term);
    LiteralDocument(value);
    var kind, t, v := OperatorName(op), Quote(term), LiteralText(value);
    var more := Member("value", LiteralJson(value), End);
    OneMember("value", LiteralJson(value), End);
    OneMember("term", String(term), more);
    var tail := PrintMembers(Member("term", String(term), more));
    TypedObject(kind, "term", String(term), more, tail);
    assert tail == "\"term\":" + t + ",\"value\":" + v;
    assert "{\"type\":\"" + kind + "\"," + tail + "}" ==
           "{\"type\":\"" + kind + "\",\"term\":" + t + ",\"value\":" + v + "}";
  }

  lemma NullDocument(isNull: bool, term: string)
    ensures PrintJson(FilterJson(NullTerm(isNull, term))) == NullText(if isNull then "is-null" else "not-null", Quote(term))
  {
    hide Quote, PrintJson, PrintMembers;
    Keywords();
    LeafDocument(term);
    var kind, t := if isNull then "is-null" else "not-null", Quote(term);
    OneMember("term", String(term), End);
    var tail := PrintMembers(Member("term", String(term), End));
    TypedObject(kind, "term", String(term), End, tail);
    assert tail == "\"term\":" + t;
    assert "{\"type\":\"" + kind + "\"," + tail + "}" == "{\"type\":\"" + kind + "\",\"term\":" + t + "}";
  }

  /** The pieced-together text is the printed document. */
  lemma {:induction false} TextIsDocument(f: Filter)
    ensures FilterText(f) == PrintJson(FilterJson(f))
  {
    hide Quote, PrintJson, PrintMembers, TermText, NullText, JoinText;
    match f
    case Term(op, term, value) => TermDocument(op, term, value);
    case NullTerm(isNull, term) => NullDocument(isNull, term);
    case Both(left, right) =>
      TextIsDocument(left);
      TextIsDocument(right);
      JoinDocument(true, FilterJson(left), FilterJson(right));
    case Either(left, right) =>
      TextIsDocument(left);
      TextIsDocument(right);
      JoinDocument(false, FilterJson(left), FilterJson(right));
  }

  lemma LeafDocument(s: string)
    ensures PrintJson(String(s)) == Quote(s)
  {
  }

  lemma LiteralDocument(l: Literal)
    ensures PrintJson(LiteralJson(l)) == LiteralText(l)
  {
  }

  lemma ThreePrintable(kind: string, k1: string, v1: Json, k2: string, v2: Json)
    ensures Printable(Fields(kind, Member(k1, v1, Member(k2, v2, End)))) <==> Printable(v1) && Printable(v2)
    ensures CleanJson(Fields(kind, Member(k1, v1, Member(k2, v2, End)))) <==>
            Clean("type") && Clean(kind) && Clean(k1) && CleanJson(v1) && Clean(k2) && CleanJson(v2)
    ensures Printable(Fields(kind, Member(k1, v1, End))) <==> Printable(v1)
    ensures CleanJson(Fields(kind, Member(k1, v1, End))) <==>
            Clean("type") && Clean(kind) && Clean(k1) && CleanJson(v1)
  {
    hide Clean;
    var two := Member(k2, v2, End);
    assert PrintableMembers(two) <==> Printable(v2);
    assert CleanMembers(two) <==> Clean(k2) && CleanJson(v2);
    var one := Member(k1, v1, two);
    assert PrintableMembers(one) <==> Printable(v1) && Printable(v2);
    assert CleanMembers(one) <==> Clean(k1) && CleanJson(v1) && Clean(k2) && CleanJson(v2);
    var last := Member(k1, v1, End);
    assert PrintableMembers(last) <==> Printable(v1);
    assert CleanMembers(last) <==> Clean(k1) && CleanJson(v1);
    TypedMembers(kind, one);
    TypedMembers(kind, last);
  }

  lemma TypedMembers(kind: string, m: Members)
    ensures Printable(Fields(kind, m)) <==> PrintableMembers(m)
    ensures CleanJson(Fields(kind, m)) <==> Clean("type") && Clean(kind) && CleanMembers(m)
  {
    hide Clean;
    var typed := Member("type", String(kind), m);
    assert PrintableMembers(typed) <==> Printable(String(kind)) && PrintableMembers(m);
    assert CleanMembers(typed) <==> Clean("type") && CleanJson(String(kind)) && CleanMembers(m);
  }

  lemma {:induction false} DocumentPrintable(f: Filter)
    ensures Printable(FilterJson(f))
  {
    hide Fields, OperatorName, NumberToken;
    match f
    case Term(op, term, value) =>
      ThreePrintable(OperatorName(op), "term", String(term), "value", LiteralJson(value));
    case NullTerm(isNull, term) =>
      ThreePrintable(if isNull then "is-null" else "not-null", "term", String(term), "", String(""));
    case Both(left, right) =>
      DocumentPrintable(left);
      DocumentPrintable(right);
      ThreePrintable("and", "left", FilterJson(left), "right", FilterJson(right));
    case Either(left, right) =>
      DocumentPrintable(left);
      DocumentPrintable(right);
      ThreePrintable("or", "left", FilterJson(left), "right", FilterJson(right));
  }

  lemma LeavesRead(op: TermOperator, l: Literal)
    ensures OperatorOf(OperatorName(op)) == Some(op) && LiteralFrom(LiteralJson(l)) == Some(l)
  {
  }

  lemma {:induction false} DocumentReads(f: Filter)
    ensures FilterFrom(FilterJson(f)) == Some(f)
  {
    hide OperatorOf, OperatorName, LiteralFrom, LiteralJson;
    match f
    case Term(op, term, value) => LeavesRead(op, value);
    case NullTerm(_, _) =>
    case Both(left, right) =>
      DocumentReads(left);
      DocumentReads(right);
    case Either(left, right) =>
      DocumentReads(left);
      DocumentReads(right);
  }

  /** No string of the filter holds a control character other than newline, return and tab. */
  predicate CleanFilter(f: Filter) {
    match f
    case Term(_, term, value) => Clean(term) && (value.StringLiteral? ==> Clean(value.s))
    case NullTerm(_, term) => Clean(term)
    case Both(left, right) => CleanFilter(left) && CleanFilter(right)
    case Either(left, right) => CleanFilter(left) && CleanFilter(right)
  }

  lemma CleanKeys()
    ensures Clean("type") && Clean("term") && Clean("value") && Clean("left") && Clean("right")
    ensures Clean("and") && Clean("or") && Clean("is-null") && Clean("not-null")
  {
    hide Clean, Quote;
    Keywords();
  }

  lemma {:induction false} CleanDocument(f: Filter)
    ensures CleanJson(FilterJson(f)) <==> CleanFilter(f)
  {
    hide Fields, Clean, OperatorName;
    CleanKeys();
    match f
    case Term(op, term, value) =>
      OperatorQuote(op);
      ThreePrintable(OperatorName(op), "term", String(term), "value", LiteralJson(value));
    case NullTerm(isNull, term) =>
      ThreePrintable(if isNull then "is-null" else "not-null", "term", String(term), "", String(""));
    case Both(left, right) =>
      CleanDocument(left);
      CleanDocument(right);
      ThreePrintable("and", "left", FilterJson(left), "right", FilterJson(right));
    case Either(left, right) =>
      CleanDocument(left);
      CleanDocument(right);
      ThreePrintable("or", "left", FilterJson(left), "right", FilterJson(right));
  }

  /** The filter text is unambiguous: read back, at any nesting depth and whatever the strings hold, it is
      the filter; under the strict rules of section 7 of RFC 8259, exactly when its strings are clean. */
  lemma TextReadsBack(f: Filter, strict: bool)
    ensures ReadFilter(FilterText(f), strict) == if !strict || CleanFilter(f) then Some(f) else None
  {
    hide FilterText, FilterJson, FilterFrom, ParseJson, PrintJson, CleanJson, CleanFilter;
    TextIsDocument(f);
    DocumentPrintable(f);
    CleanDocument(f);
    DocumentReads(f);
    assert PrintJson(FilterJson(f)) + "" == PrintJson(FilterJson(f));
    PrintReadsBack(FilterJson(f), "", strict);
  }

  /** Different filters have different texts. */
  lemma TextInjective(f: Filter, g: Filter)
    requires FilterText(f) == FilterText(g)
    ensures f == g
  {
    hide FilterText, ReadFilter;
    TextReadsBack(f, false);
    TextReadsBack(g, false);
  }
}
