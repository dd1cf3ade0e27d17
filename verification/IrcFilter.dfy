/** Scan predicates, weakened to the filters the Iceberg REST catalog understands and printed as JSON. */
module IrcFilter {
  import opened Wrappers
  import opened Json
  import opened Decimals

  // ---- Predicates and their meaning ----

  datatype Operator = Equal | NotEqual | Less | Greater | LessEqual | GreaterEqual | Distinct | NotDistinct

  /** The text `%.17g` gives a finite double. */
  type NumberText = t: string | NumberToken(t) witness "0"

  datatype Special = MinusInfinity | PlusInfinity | NaN

  datatype Double = Finite(text: NumberText) | NonFinite(special: Special)

  /** A constant by the kind of its type; None is a NULL of that type. */
  datatype Constant =
    | SignedInteger(n: Option<int>)
    | UnsignedInteger(u: Option<nat>)
    | Floating(d: Option<Double>)
    | Boolean(b: Option<bool>)
    | Varchar(s: Option<string>)
    | OtherConstant(id: nat)

  datatype Expr =
    | ColumnRef(name: string)
    | Const(value: Constant)
    | Comparison(op: Operator, left: Expr, right: Expr)
    | Conjunction(isAnd: bool, children: seq<Expr>)
    | NullTest(isNull: bool, operands: seq<Expr>)
    | OtherExpr(id: nat)

  datatype Datum = Num(value: real) | Extreme(special: Special) | Text(text: string) | Bool(truth: bool)

  /** A row, and what is left abstract: how a decimal or exponent literal reads, and the values of
      constants, operands and predicates no filter is made from. */
  datatype Env = Env(
    columns: string -> Option<Datum>,
    literal: string -> real,
    constant: nat -> Option<Datum>,
    operand: Expr -> Option<Datum>,
    other: Expr -> Truth)

  datatype Truth = True | False | Unknown

  function And(a: Truth, b: Truth): (r: Truth) {
    if a == False || b == False then False else if a == True && b == True then True else Unknown
  }

  function Or(a: Truth, b: Truth): (r: Truth) {
    if a == True || b == True then True else if a == False && b == False then False else Unknown
  }

  function TextLess(a: string, b: string): (r: bool) {
    b != "" && (a == "" || a[0] < b[0] || (a[0] == b[0] && TextLess(a[1..], b[1..])))
  }

  predicate Numeric(d: Datum) {
    d.Num? || d.Extreme?
  }

  predicate SameKind(a: Datum, b: Datum) {
    (Numeric(a) && Numeric(b)) || (a.Text? && b.Text?) || (a.Bool? && b.Bool?)
  }

  /** Where a number stands among the infinities and NaN: finite ones between the infinities, NaN above all. */
  function Rank(d: Datum): (r: int) {
    if d == Extreme(MinusInfinity) then -1 else if d == Extreme(PlusInfinity) then 1 else if d == Extreme(NaN) then 2 else 0
  }

  /** DuckDB's order, which is total on numbers. */
  predicate Before(a: Datum, b: Datum)
    requires SameKind(a, b)
  {
    match a
    case Num(x) => if b.Num? then x < b.value else Rank(a) < Rank(b)
    case Extreme(_) => Rank(a) < Rank(b)
    case Text(s) => TextLess(s, b.text)
    case Bool(p) => !p && b.truth
  }

  function Known(b: bool): (r: Truth) {
    if b then True else False
  }

  function Compare(op: Operator, a: Option<Datum>, b: Option<Datum>): (r: Truth) {
    if op == Distinct then Known(a != b)
    else if op == NotDistinct then Known(a == b)
    else if a.None? || b.None? || !SameKind(a.value, b.value) then Unknown
    else
      match op
      case Equal => Known(a == b)
      case NotEqual => Known(a != b)
      case Less => Known(Before(a.value, b.value))
      case Greater => Known(Before(b.value, a.value))
      case LessEqual => Known(Before(a.value, b.value) || a == b)
      case GreaterEqual => Known(Before(b.value, a.value) || a == b)
      case Distinct => Known(a != b)
      case NotDistinct => Known(a == b)
  }

  /** A number literal: an integer literal is that integer. */
  function NumberOf(token: string, env: Env): (r: Datum) {
    Num(if IsIntText(token) then IntValue(token) as real else env.literal(token))
  }

  function ConstantDatum(c: Constant, env: Env): (r: Option<Datum>) {
    match c
    case SignedInteger(n) => if n.None? then None else Some(Num(n.value as real))
    case UnsignedInteger(u) => if u.None? then None else Some(Num(u.value as real))
    case Floating(d) =>
      if d.None? then None
      else if d.value.NonFinite? then Some(Extreme(d.value.special))
      else Some(NumberOf(d.value.text, env))
    case Boolean(b) => if b.None? then None else Some(Bool(b.value))
    case Varchar(s) => if s.None? then None else Some(Text(s.value))
    case OtherConstant(id) => env.constant(id)
  }

  function Operand(e: Expr, env: Env): (r: Option<Datum>) {
    match e
    case ColumnRef(name) => env.columns(name)
    case Const(value) => ConstantDatum(value, env)
    case _ => env.operand(e)
  }

  /** A predicate on a row, in three-valued logic. */
  function Eval(e: Expr, env: Env): (r: Truth)
    decreases e
  {
    match e
    case Comparison(op, left, right) => Compare(op, Operand(left, env), Operand(right, env))
    case Conjunction(isAnd, children) => EvalAll(isAnd, children, env)
    case NullTest(isNull, operands) =>
      if |operands| != 1 then env.other(e) else Known(Operand(operands[0], env).None? == isNull)
    case _ => env.other(e)
  }

  function EvalAll(isAnd: bool, children: seq<Expr>, env: Env): (r: Truth)
    decreases children
  {
    if children == [] then Known(isAnd)
    else if isAnd then And(Eval(children[0], env), EvalAll(isAnd, children[1..], env))
    else Or(Eval(children[0], env), EvalAll(isAnd, children[1..], env))
  }

  // ---- Filters and their meaning ----

  datatype Literal = NumberLiteral(token: NumberText) | BooleanLiteral(b: bool) | StringLiteral(s: string)

  type TermOperator = op: Operator | op != Distinct && op != NotDistinct witness Equal

  datatype Filter =
    | Term(op: TermOperator, term: string, value: Literal)
    | NullTerm(isNull: bool, term: string)
    | Both(left: Filter, right: Filter)
    | Either(left: Filter, right: Filter)

  function LiteralDatum(l: Literal, env: Env): (r: Datum) {
    match l
    case NumberLiteral(token) => NumberOf(token, env)
    case BooleanLiteral(b) => Bool(b)
    case StringLiteral(s) => Text(s)
  }

  function EvalFilter(f: Filter, env: Env): (r: Truth) {
    match f
    case Term(op, term, value) => Compare(op, env.columns(term), Some(LiteralDatum(value, env)))
    case NullTerm(isNull, term) => Known(env.columns(term).None? == isNull)
    case Both(left, right) => And(EvalFilter(left, env), EvalFilter(right, env))
    case Either(left, right) => Or(EvalFilter(left, env), EvalFilter(right, env))
  }

  // ---- Weakening ----

  /** Serialization throws, drops the predicate, or emits a filter. */
  datatype Emission<T> = Thrown | Dropped | Emitted(value: T)

  function Flip(op: Operator): (r: Operator) {
    match op
    case Less => Greater
    case Greater => Less
    case LessEqual => GreaterEqual
    case GreaterEqual => LessEqual
    case _ => op
  }

  /** Reading a NULL as a number or truth value throws; printing a NULL string does not. */
  function LiteralOf(c: Constant): (r: Emission<Literal>) {
    match c
    case SignedInteger(n) => if n.None? then Thrown else Emitted(NumberLiteral(NumberTextOf(n.value)))
    case UnsignedInteger(u) => if u.None? then Thrown else Emitted(NumberLiteral(NumberTextOf(u.value)))
    case Floating(d) =>
      if d.None? then Thrown else if d.value.NonFinite? then Dropped else Emitted(NumberLiteral(d.value.text))
    case Boolean(b) => if b.None? then Thrown else Emitted(BooleanLiteral(b.value))
    case Varchar(s) => Emitted(StringLiteral(if s.None? then "NULL" else s.value))
    case OtherConstant(_) => Dropped
  }

  function NumberTextOf(n: int): (r: NumberText)
    ensures r == IntText(n)
  {
    assert forall i :: 0 <= i < |IntText(n)| ==> NumberChar(IntText(n)[i]);
    IntText(n)
  }

  function WeakenComparison(op: Operator, name: string, c: Constant): (r: Emission<Filter>) {
    if op == Distinct || op == NotDistinct || name == "" then Dropped
    else
      match LiteralOf(c)
      case Thrown => Thrown
      case Dropped => Dropped
      case Emitted(literal) => Emitted(Term(op, name, literal))
  }

  /** The parts of a conjunction or disjunction, left to right: an unsupported part ends a disjunction. */
  function WeakenParts(isAnd: bool, children: seq<Expr>): (r: Emission<seq<Filter>>)
    decreases children, 0
  {
    if children == [] then Emitted([])
    else
      match Weaken(children[0])
      case Thrown => Thrown
      case Dropped => if isAnd then WeakenParts(isAnd, children[1..]) else Dropped
      case Emitted(f) =>
        match WeakenParts(isAnd, children[1..])
        case Thrown => Thrown
        case Dropped => Dropped
        case Emitted(parts) => Emitted([f] + parts)
  }

  /** Parts combined two at a time, nesting to the left. */
  function Fold(isAnd: bool, parts: seq<Filter>): (r: Filter)
    requires parts != []
  {
    if |parts| == 1 then parts[0]
    else
      var before, last := Fold(isAnd, parts[..|parts| - 1]), parts[|parts| - 1];
      if isAnd then Both(before, last) else Either(before, last)
  }

  function WeakenAll(isAnd: bool, children: seq<Expr>): (r: Emission<Filter>)
    decreases children, 1
  {
    match WeakenParts(isAnd, children)
    case Thrown => Thrown
    case Dropped => Dropped
    case Emitted(parts) => if parts == [] then Dropped else Emitted(Fold(isAnd, parts))
  }

  /** The filter a predicate is weakened to. */
  function Weaken(e: Expr): (r: Emission<Filter>)
    decreases e
  {
    match e
    case Comparison(op, left, right) =>
      if left.ColumnRef? && right.Const? then WeakenComparison(op, left.name, right.value)
      else if right.ColumnRef? && left.Const? then WeakenComparison(Flip(op), right.name, left.value)
      else Dropped
    case Conjunction(isAnd, children) => WeakenAll(isAnd, children)
    case NullTest(isNull, operands) =>
      if |operands| == 1 && operands[0].ColumnRef? && operands[0].name != "" then
        Emitted(NullTerm(isNull, operands[0].name))
      else Dropped
    case _ => Dropped
  }

  // ---- Weakening is sound ----

  lemma {:induction false} FoldEval(isAnd: bool, parts: seq<Filter>, env: Env)
    requires parts != []
    ensures EvalFilter(Fold(isAnd, parts), env) == EvalParts(isAnd, parts, env)
  {
    if |parts| == 1 {
      assert parts[1..] == [];
    } else {
      FoldEval(isAnd, parts[..|parts| - 1], env);
      EvalPartsSnoc(isAnd, parts[..|parts| - 1], parts[|parts| - 1], env);
      assert parts == parts[..|parts| - 1] + [parts[|parts| - 1]];
    }
  }

  /** The parts together, as a conjunction or disjunction of any number. */
  function EvalParts(isAnd: bool, parts: seq<Filter>, env: Env): (r: Truth) {
    if parts == [] then Known(isAnd)
    else if isAnd then And(EvalFilter(parts[0], env), EvalParts(isAnd, parts[1..], env))
    else Or(EvalFilter(parts[0], env), EvalParts(isAnd, parts[1..], env))
  }

  lemma {:induction false} EvalPartsSnoc(isAnd: bool, parts: seq<Filter>, f: Filter, env: Env)
    ensures EvalParts(isAnd, parts + [f], env) ==
            if isAnd then And(EvalParts(isAnd, parts, env), EvalFilter(f, env))
            else Or(EvalParts(isAnd, parts, env), EvalFilter(f, env))
  {
    if parts == [] {
      assert parts + [f] == [f] && [f][1..] == [];
    } else {
      assert (parts + [f])[1..] == parts[1..] + [f] && (parts + [f])[0] == parts[0];
      EvalPartsSnoc(isAnd, parts[1..], f, env);
    }
  }

  /** A literal stands for its constant, except that a NULL string is sent as text. */
  lemma LiteralStands(c: Constant, env: Env)
    requires LiteralOf(c).Emitted?
    ensures c == Varchar(None) || ConstantDatum(c, env) == Some(LiteralDatum(LiteralOf(c).value, env))
  {
    match c
    case SignedInteger(n) => IntTextValue(n.value);
    case UnsignedInteger(u) => IntTextValue(u.value);
    case _ =>
  }

  lemma FlipCompares(op: Operator, a: Option<Datum>, b: Option<Datum>)
    ensures Compare(Flip(op), b, a) == Compare(op, a, b)
  {
  }

  predicate NullString(e: Expr) {
    e.Comparison? && ((e.left.Const? && e.left.value == Varchar(None)) || (e.right.Const? && e.right.value == Varchar(None)))
  }

  /** A term has the truth of its comparison, unless it compares with a NULL string, which is never true. */
  lemma ComparisonWeakens(e: Expr, env: Env)
    requires e.Comparison? && Weaken(e).Emitted?
    ensures if NullString(e) then Eval(e, env) == Unknown else EvalFilter(Weaken(e).value, env) == Eval(e, env)
  {
    hide LiteralOf, ConstantDatum, LiteralDatum;
    if e.left.ColumnRef? && e.right.Const? {
      LiteralStands(e.right.value, env);
      NullStringDatum(env);
    } else {
      LiteralStands(e.left.value, env);
      NullStringDatum(env);
      FlipCompares(e.op, Operand(e.left, env), Operand(e.right, env));
    }
  }

  lemma NullStringDatum(env: Env)
    ensures ConstantDatum(Varchar(None), env) == None
  {
  }

  /** On every row where a predicate is true, the filter it is weakened to is true. */
  lemma {:induction false} WeakenSound(e: Expr, env: Env)
    requires Weaken(e).Emitted? && Eval(e, env) == True
    ensures EvalFilter(Weaken(e).value, env) == True
    decreases e
  {
    match e
    case Comparison(_, _, _) => ComparisonWeakens(e, env);
    case Conjunction(isAnd, children) =>
      var parts := WeakenParts(isAnd, children).value;
      PartsSound(isAnd, children, env);
      FoldEval(isAnd, parts, env);
    case NullTest(_, _) =>
    case _ =>
  }

  lemma {:induction false} PartsSound(isAnd: bool, children: seq<Expr>, env: Env)
    requires WeakenParts(isAnd, children).Emitted? && EvalAll(isAnd, children, env) == True
    ensures EvalParts(isAnd, WeakenParts(isAnd, children).value, env) == True
    decreases children
  {
    if children != [] {
      var first := Weaken(children[0]);
      if Eval(children[0], env) == True && first.Emitted? {
        WeakenSound(children[0], env);
      }
      if isAnd || EvalAll(isAnd, children[1..], env) == True {
        PartsSound(isAnd, children[1..], env);
      }
      if first.Emitted? {
        var rest := WeakenParts(isAnd, children[1..]).value;
        assert ([first.value] + rest)[1..] == rest;
      }
    }
  }

  // ---- When nothing is lost ----

  /** Non-NULL integers, finite doubles, truth values and strings. */
  predicate SupportedConstant(c: Constant) {
    match c
    case SignedInteger(n) => n.Some?
    case UnsignedInteger(u) => u.Some?
    case Floating(d) => d.Some? && d.value.Finite?
    case Boolean(b) => b.Some?
    case Varchar(s) => s.Some?
    case OtherConstant(_) => false
  }

  /** A NULL number or truth value. */
  predicate NullOther(c: Constant) {
    c == SignedInteger(None) || c == UnsignedInteger(None) || c == Floating(None) || c == Constant.Boolean(None)
  }

  /** Supported constants and NULL strings are sent, other NULLs throw, and the rest is dropped. */
  lemma ConstantsSent(c: Constant)
    ensures LiteralOf(c).Emitted? <==> SupportedConstant(c) || c == Varchar(None)
    ensures LiteralOf(c).Thrown? <==> NullOther(c)
  {
  }

  /** The comparison is of a named column with a constant, either way round. */
  predicate ComparesWith(e: Expr, name: string, c: Constant) {
    && e.Comparison? && name != ""
    && ((e.left == ColumnRef(name) && e.right == Const(c)) || (e.left == Const(c) && e.right == ColumnRef(name)))
  }

  /** Which comparisons are sent, and which throw. */
  lemma ComparisonsSent(e: Expr)
    requires e.Comparison?
    ensures Weaken(e).Emitted? <==>
            && e.op != Distinct && e.op != NotDistinct
            && exists name, c :: ComparesWith(e, name, c) && (SupportedConstant(c) || c == Varchar(None))
    ensures Weaken(e).Thrown? <==>
            e.op != Distinct && e.op != NotDistinct && exists name, c :: ComparesWith(e, name, c) && NullOther(c)
  {
    hide LiteralOf;
    if e.left.ColumnRef? && e.right.Const? {
      ConstantsSent(e.right.value);
      assert e.left.name != "" ==> ComparesWith(e, e.left.name, e.right.value);
    } else if e.right.ColumnRef? && e.left.Const? {
      ConstantsSent(e.left.value);
      assert e.right.name != "" ==> ComparesWith(e, e.right.name, e.left.value);
    }
  }

  /** An AND is sent exactly if some part of it is and none throws; it throws exactly if some part does. */
  lemma {:induction false} ConjunctionsSent(children: seq<Expr>)
    ensures WeakenParts(true, children).Thrown? <==> exists i :: 0 <= i < |children| && Weaken(children[i]).Thrown?
    ensures !WeakenParts(true, children).Dropped?
    ensures WeakenParts(true, children).Emitted? ==>
              (WeakenParts(true, children).value != [] <==> exists i :: 0 <= i < |children| && Weaken(children[i]).Emitted?)
    decreases children
  {
    hide Weaken;
    if children != [] {
      ConjunctionsSent(children[1..]);
      SomeChild(children);
    }
  }

  /** The first child or a later one. */
  lemma SomeChild(children: seq<Expr>)
    requires children != []
    ensures (exists i :: 0 <= i < |children| && Weaken(children[i]).Thrown?) <==>
            Weaken(children[0]).Thrown? || exists i :: 0 <= i < |children[1..]| && Weaken(children[1..][i]).Thrown?
    ensures (exists i :: 0 <= i < |children| && Weaken(children[i]).Emitted?) <==>
            Weaken(children[0]).Emitted? || exists i :: 0 <= i < |children[1..]| && Weaken(children[1..][i]).Emitted?
  {
    hide Weaken;
    var rest := children[1..];
    if i :| 0 <= i < |children| && Weaken(children[i]).Thrown? {
      assert i > 0 ==> rest[i - 1] == children[i];
    }
    if i :| 0 <= i < |rest| && Weaken(rest[i]).Thrown? {
      assert children[i + 1] == rest[i];
    }
    if i :| 0 <= i < |children| && Weaken(children[i]).Emitted? {
      assert i > 0 ==> rest[i - 1] == children[i];
    }
    if i :| 0 <= i < |rest| && Weaken(rest[i]).Emitted? {
      assert children[i + 1] == rest[i];
    }
  }

  /** An OR is sent exactly if all of its parts are; it throws exactly if a part does after only such. */
  lemma {:induction false} DisjunctionsSent(children: seq<Expr>)
    ensures WeakenParts(false, children).Emitted? <==> forall i :: 0 <= i < |children| ==> Weaken(children[i]).Emitted?
    ensures WeakenParts(false, children).Emitted? ==> |WeakenParts(false, children).value| == |children|
    ensures WeakenParts(false, children).Thrown? <==>
            exists i :: 0 <= i < |children| && Weaken(children[i]).Thrown?
                        && forall j :: 0 <= j < i ==> Weaken(children[j]).Emitted?
    decreases children
  {
    hide Weaken;
    if children != [] {
      var rest := children[1..];
      DisjunctionsSent(rest);
      assert forall i :: 0 <= i < |rest| ==> rest[i] == children[i + 1];
      assert forall i :: 0 < i < |children| ==> children[i] == rest[i - 1];
      if Weaken(children[0]).Emitted? {
        if i :| 0 <= i < |rest| && Weaken(rest[i]).Thrown? && forall j :: 0 <= j < i ==> Weaken(rest[j]).Emitted? {
          assert Weaken(children[i + 1]).Thrown?;
        }
        if i :| 0 <= i < |children| && Weaken(children[i]).Thrown? && forall j :: 0 <= j < i ==> Weaken(children[j]).Emitted? {
          assert Weaken(rest[i - 1]).Thrown?;
        }
      }
    }
  }

  /**
   * A conjunction or disjunction sent is true exactly where all, or some, of its parts that are sent are
   * true: no part that can be sent is left out.
   */
  lemma {:induction false} PartsAreAll(isAnd: bool, children: seq<Expr>, env: Env)
    requires WeakenParts(isAnd, children).Emitted?
    ensures isAnd ==>
              (EvalParts(isAnd, WeakenParts(isAnd, children).value, env) == True <==>
               forall i :: 0 <= i < |children| && Weaken(children[i]).Emitted? ==>
                 EvalFilter(Weaken(children[i]).value, env) == True)
    ensures !isAnd ==>
              (EvalParts(isAnd, WeakenParts(isAnd, children).value, env) == True <==>
               exists i :: 0 <= i < |children| && Weaken(children[i]).Emitted? &&
                 EvalFilter(Weaken(children[i]).value, env) == True)
    decreases children
  {
    hide Weaken, EvalFilter;
    if children != [] {
      var rest := children[1..];
      PartsAreAll(isAnd, rest, env);
      assert forall i :: 0 <= i < |rest| ==> rest[i] == children[i + 1];
      assert forall i :: 0 < i < |children| ==> children[i] == rest[i - 1];
      if Weaken(children[0]).Emitted? {
        var parts := WeakenParts(isAnd, rest).value;
        assert ([Weaken(children[0]).value] + parts)[1..] == parts;
      }
      if !isAnd {
        if i :| 0 <= i < |rest| && Weaken(rest[i]).Emitted? && EvalFilter(Weaken(rest[i]).value, env) == True {
          assert children[i + 1] == rest[i];
        }
      }
    }
  }

  /** The same of the filter as it is sent. */
  lemma JoinedIsSent(isAnd: bool, children: seq<Expr>, env: Env)
    ensures isAnd ==>
              (WeakenAll(isAnd, children).Emitted? <==>
                (exists i :: 0 <= i < |children| && Weaken(children[i]).Emitted?)
                && forall i :: 0 <= i < |children| ==> !Weaken(children[i]).Thrown?)
    ensures !isAnd ==>
              (WeakenAll(isAnd, children).Emitted? <==>
                children != [] && forall i :: 0 <= i < |children| ==> Weaken(children[i]).Emitted?)
    ensures isAnd && WeakenAll(isAnd, children).Emitted? ==>
              (EvalFilter(WeakenAll(isAnd, children).value, env) == True <==>
               forall i :: 0 <= i < |children| && Weaken(children[i]).Emitted? ==>
                 EvalFilter(Weaken(children[i]).value, env) == True)
    ensures !isAnd && WeakenAll(isAnd, children).Emitted? ==>
              (EvalFilter(WeakenAll(isAnd, children).value, env) == True <==>
               exists i :: 0 <= i < |children| && Weaken(children[i]).Emitted? &&
                 EvalFilter(Weaken(children[i]).value, env) == True)
  {
    hide Weaken, WeakenParts, Fold, EvalParts, EvalFilter;
    if isAnd {
      ConjunctionsSent(children);
    } else {
      DisjunctionsSent(children);
    }
    if WeakenAll(isAnd, children).Emitted? {
      FoldEval(isAnd, WeakenParts(isAnd, children).value, env);
      PartsAreAll(isAnd, children, env);
    }
  }

  /** The operators fit together: each value is before, the same as or after another of its kind. */
  lemma OperatorsPartition(a: Datum, b: Datum)
    requires SameKind(a, b)
    ensures (Compare(Less, Some(a), Some(b)) == True) != (Compare(GreaterEqual, Some(a), Some(b)) == True)
    ensures (Compare(Greater, Some(a), Some(b)) == True) != (Compare(LessEqual, Some(a), Some(b)) == True)
    ensures (Compare(Equal, Some(a), Some(b)) == True) != (Compare(NotEqual, Some(a), Some(b)) == True)
    ensures Compare(LessEqual, Some(a), Some(b)) == True <==>
            Compare(Less, Some(a), Some(b)) == True || Compare(Equal, Some(a), Some(b)) == True
    ensures Compare(Greater, Some(a), Some(b)) == Compare(Less, Some(b), Some(a))
  {
    hide TextLess;
    match a
    case Text(text) => TextsAreOrdered(text, b.text);
    case Extreme(special) =>
      assert special.MinusInfinity? || special.PlusInfinity? || special.NaN?;
      assert b.Extreme? ==> b.special.MinusInfinity? || b.special.PlusInfinity? || b.special.NaN?;
    case Num(_) =>
      assert b.Extreme? ==> b.special.MinusInfinity? || b.special.PlusInfinity? || b.special.NaN?;
    case Bool(_) =>
  }

  lemma {:induction false} TextsAreOrdered(a: string, b: string)
    ensures TextLess(a, b) || TextLess(b, a) || a == b
    ensures !(TextLess(a, b) && TextLess(b, a)) && !(TextLess(a, b) && a == b)
  {
    if a != "" && b != "" && a[0] == b[0] {
      TextsAreOrdered(a[1..], b[1..]);
      assert a == [a[0]] + a[1..] && b == [b[0]] + b[1..];
    }
  }

  /** Every leaf compares a named column with a non-NULL constant of a supported type, or tests one for
      NULL, and no conjunction is empty. */
  predicate Supported(e: Expr)
    decreases e
  {
    match e
    case Comparison(op, left, right) =>
      op != Distinct && op != NotDistinct &&
      ((left.ColumnRef? && left.name != "" && right.Const? && SupportedConstant(right.value))
       || (right.ColumnRef? && right.name != "" && left.Const? && SupportedConstant(left.value)))
    case Conjunction(_, children) => children != [] && forall c :: c in children ==> Supported(c)
    case NullTest(_, operands) => |operands| == 1 && operands[0].ColumnRef? && operands[0].name != ""
    case _ => false
  }

  /** A supported predicate is emitted, and its filter has the same truth value on every row. */
  lemma {:induction false} SupportedExact(e: Expr, env: Env)
    requires Supported(e)
    ensures Weaken(e).Emitted? && EvalFilter(Weaken(e).value, env) == Eval(e, env)
    decreases e
  {
    match e
    case Comparison(_, _, _) => ComparisonWeakens(e, env);
    case Conjunction(isAnd, children) =>
      PartsExact(isAnd, children, env);
      FoldEval(isAnd, WeakenParts(isAnd, children).value, env);
    case NullTest(_, _) =>
    case _ => assert false;
  }

  lemma {:induction false} PartsExact(isAnd: bool, children: seq<Expr>, env: Env)
    requires forall c :: c in children ==> Supported(c)
    ensures WeakenParts(isAnd, children).Emitted? && |WeakenParts(isAnd, children).value| == |children|
    ensures EvalParts(isAnd, WeakenParts(isAnd, children).value, env) == EvalAll(isAnd, children, env)
    decreases children
  {
    if children != [] {
      SupportedExact(children[0], env);
      PartsExact(isAnd, children[1..], env);
      var first, rest := Weaken(children[0]).value, WeakenParts(isAnd, children[1..]).value;
      assert ([first] + rest)[1..] == rest;
    }
  }

  /** Pushed filters are joined by AND. */
  function WeakenFilters(filters: seq<Expr>): (r: Emission<Filter>) {
    WeakenAll(true, filters)
  }

  /** On every row where all pushed filters are true, the filter sent is true. */
  lemma FiltersSound(filters: seq<Expr>, env: Env)
    requires WeakenFilters(filters).Emitted? && forall f :: f in filters ==> Eval(f, env) == True
    ensures EvalFilter(WeakenFilters(filters).value, env) == True
  {
    AllTrue(filters, env);
    PartsSound(true, filters, env);
    FoldEval(true, WeakenParts(true, filters).value, env);
  }

  lemma {:induction false} AllTrue(filters: seq<Expr>, env: Env)
    requires forall f :: f in filters ==> Eval(f, env) == True
    ensures EvalAll(true, filters, env) == True
  {
    if filters != [] {
      AllTrue(filters[1..], env);
    }
  }

  /** When every pushed filter is supported, the filter sent is true on exactly the rows they all hold on. */
  lemma FiltersExact(filters: seq<Expr>, env: Env)
    requires filters != [] && forall f :: f in filters ==> Supported(f)
    ensures WeakenFilters(filters).Emitted?
    ensures EvalFilter(WeakenFilters(filters).value, env) == EvalAll(true, filters, env)
  {
    PartsExact(true, filters, env);
    FoldEval(true, WeakenParts(true, filters).value, env);
  }

  lemma {:induction false} TextLessLonger(s: string, c: char)
    ensures TextLess(s, s + [c])
  {
    if s != "" {
      assert (s + [c])[1..] == s[1..] + [c];
      TextLessLonger(s[1..], c);
    }
  }

  /** A row on which a term that compares with the text NULL is true, whatever its operator. */
  function NullTextRow(op: TermOperator): (r: Env) {
    var text := match op
      case Equal => "NULL"
      case NotEqual => ""
      case Less => ""
      case Greater => "NULL" + "!"
      case LessEqual => "NULL"
      case GreaterEqual => "NULL";
    Env(_ => Some(Text(text)), _ => 0.0, _ => None, _ => None, _ => Unknown)
  }

  lemma NullTextIsTrue(op: TermOperator, term: string)
    ensures EvalFilter(Term(op, term, StringLiteral("NULL")), NullTextRow(op)) == True
  {
    TextLessLonger("NULL", '!');
    hide TextLess;
    assert TextLess("", "NULL") by { EmptyIsLess(); }
  }

  lemma EmptyIsLess()
    ensures TextLess("", "NULL")
  {
  }

  /**
   * The filter of an emitted comparison is exact on every row exactly if the comparison is not with a
   * NULL string. With one it is true on some row, where the comparison itself is unknown: sound still.
   */
  lemma NullStringsAreNotExact(e: Expr)
    requires e.Comparison? && Weaken(e).Emitted?
    ensures (forall env :: EvalFilter(Weaken(e).value, env) == Eval(e, env)) <==> !NullString(e)
    ensures NullString(e) ==> exists env :: EvalFilter(Weaken(e).value, env) == True && Eval(e, env) == Unknown
  {
    if NullString(e) {
      var f := Weaken(e).value;
      assert f == Term(f.op, f.term, StringLiteral("NULL"));
      var env := NullTextRow(f.op);
      NullTextIsTrue(f.op, f.term);
      ComparisonWeakens(e, env);
      assert EvalFilter(f, env) == True && Eval(e, env) == Unknown;
    } else {
      forall env ensures EvalFilter(Weaken(e).value, env) == Eval(e, env) {
        ComparisonWeakens(e, env);
      }
    }
  }

  // ---- Servers that leave NaN out of their bounds ----

  /** The filter as a server decides it that knows of a column no more than bounds without NaN: no term
      is taken to match a NaN. */
  function EvalByBounds(f: Filter, env: Env): (r: Truth) {
    match f
    case Term(_, term, _) => if env.columns(term) == Some(Extreme(NaN)) then False else EvalFilter(f, env)
    case NullTerm(_, _) => EvalFilter(f, env)
    case Both(left, right) => And(EvalByBounds(left, env), EvalByBounds(right, env))
    case Either(left, right) => Or(EvalByBounds(left, env), EvalByBounds(right, env))
  }

  /** No number is asked for that a NaN satisfies: none is to be exceeded, reached from above or avoided. */
  predicate BoundsSafe(f: Filter) {
    match f
    case Term(op, _, value) => value.NumberLiteral? ==> op == Equal || op == Less || op == LessEqual
    case NullTerm(_, _) => true
    case Both(left, right) => BoundsSafe(left) && BoundsSafe(right)
    case Either(left, right) => BoundsSafe(left) && BoundsSafe(right)
  }

  /** Such a server takes a filter of this kind to be true on exactly the rows it is true on. */
  lemma {:induction false} SafeByBounds(f: Filter, env: Env)
    requires BoundsSafe(f)
    ensures EvalByBounds(f, env) == True <==> EvalFilter(f, env) == True
  {
    match f
    case Both(left, right) =>
      SafeByBounds(left, env);
      SafeByBounds(right, env);
    case Either(left, right) =>
      SafeByBounds(left, env);
      SafeByBounds(right, env);
    case _ =>
  }

  /** With such a server too, a filter of this kind loses no row of its predicate. */
  lemma SoundByBounds(e: Expr, env: Env)
    requires Weaken(e).Emitted? && BoundsSafe(Weaken(e).value) && Eval(e, env) == True
    ensures EvalByBounds(Weaken(e).value, env) == True
  {
    WeakenSound(e, env);
    SafeByBounds(Weaken(e).value, env);
  }

  /** A row that is NaN throughout. */
  const NAN_ROW := Env(_ => Some(Extreme(NaN)), _ => 0.0, _ => None, _ => None, _ => Unknown)

  /** And among comparisons only these: the filter of any other loses the rows where the column is NaN. */
  lemma SoundByBoundsExactly(e: Expr)
    requires e.Comparison? && Weaken(e).Emitted?
    ensures (forall env :: Eval(e, env) == True ==> EvalByBounds(Weaken(e).value, env) == True) <==>
            BoundsSafe(Weaken(e).value)
  {
    var f := Weaken(e).value;
    if BoundsSafe(f) {
      forall env | Eval(e, env) == True ensures EvalByBounds(f, env) == True {
        SoundByBounds(e, env);
      }
    } else {
      ComparisonWeakens(e, NAN_ROW);
      if NullString(e) {
        NullIsText(e);
      }
      assert Eval(e, NAN_ROW) == EvalFilter(f, NAN_ROW) == True;
      assert EvalByBounds(f, NAN_ROW) == False;
    }
  }

  lemma NullIsText(e: Expr)
    requires e.Comparison? && Weaken(e).Emitted? && NullString(e)
    ensures Weaken(e).value.value.StringLiteral?
  {
  }
}
