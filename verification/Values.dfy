/** Cell values, column kinds, the order of values, literal coercion and SQL's
    three-valued logic. */
module Values {
  import opened Wrappers
  import opened Order
  import opened Utf8
  import opened Sql

  // --- Three-valued logic ---------------------------------------------------------

  datatype Tri = True | False | Unknown

  function Both(a: Tri, b: Tri): Tri {
    if a == False || b == False then False else if a == True && b == True then True else Unknown
  }

  function Either(a: Tri, b: Tri): Tri {
    if a == True || b == True then True else if a == False && b == False then False else Unknown
  }

  function Negate(a: Tri): Tri {
    match a case True => False case False => True case Unknown => Unknown
  }

  function Truth(b: bool): Tri { if b then True else False }

  // --- Values and kinds -----------------------------------------------------------

  /** Column kinds, as rugo's and Draken's type names are reduced to. */
  datatype Kind =
    KInt | KFloat | KBool | KStr | KBytes | KDate | KDatetime | KDecimal | KOther

  /** A value of a cell. Text is held as bytes; `Opaque` stands for lists and objects. */
  datatype Scalar =
    | Num(r: real) | Flag(b: bool) | Text(bytes: seq<Byte>)
    | Day(day: int) | Instant(at: int) | Opaque(id: int)

  /** A cell; None is NULL. */
  type Cell = Option<Scalar>

  /** A column of this kind holds values of one sort, within which all are ordered. */
  function SortOf(k: Kind): nat {
    match k
    case KInt => 0 case KFloat => 0 case KDecimal => 0
    case KBool => 1
    case KStr => 2 case KBytes => 2
    case KDate => 3
    case KDatetime => 4
    case KOther => 5
  }

  function Sort(x: Scalar): nat {
    match x
    case Num(_) => 0 case Flag(_) => 1 case Text(_) => 2
    case Day(_) => 3 case Instant(_) => 4 case Opaque(_) => 5
  }

  predicate Fits(x: Scalar, k: Kind) { Sort(x) == SortOf(k) && k != KOther }

  predicate Smaller(a: Scalar, b: Scalar) {
    match (a, b)
    case (Num(x), Num(y)) => x < y
    case (Flag(x), Flag(y)) => !x && y
    case (Text(x), Text(y)) => BytesBefore(x, y)
    case (Day(x), Day(y)) => x < y
    case (Instant(x), Instant(y)) => x < y
    case (Opaque(x), Opaque(y)) => x < y
    case _ => Sort(a) < Sort(b)
  }

  predicate Holds(op: Op, a: Scalar, b: Scalar) {
    match op
    case Eq => a == b
    case Ne => a != b
    case Gt => Smaller(b, a)
    case Ge => Smaller(b, a) || a == b
    case Lt => Smaller(a, b)
    case Le => Smaller(a, b) || a == b
  }

  /** Comparing with NULL is unknown. */
  function CompareCells(op: Op, a: Cell, b: Cell): Tri {
    if a.None? || b.None? then Unknown else Truth(Holds(op, a.value, b.value))
  }

  /** Exactly one of smaller, equal and greater holds: this is what makes inverting a
      comparison sound, and what NaN would break. */
  lemma Trichotomy(a: Scalar, b: Scalar)
    ensures Smaller(a, b) || a == b || Smaller(b, a)
    ensures !(Smaller(a, b) && Smaller(b, a))
    ensures Smaller(a, b) ==> a != b
  {
    if a.Text? && b.Text? {
      Total(Rank, a.bytes, b.bytes);
      if BytesBefore(a.bytes, b.bytes) {
        Asymmetric(Rank, a.bytes, b.bytes);
      }
    }
  }

  /** a op b == b Flipped(op) a */
  function Flipped(op: Op): Op {
    match op
    case Eq => Eq case Ne => Ne case Lt => Gt case Le => Ge case Gt => Lt case Ge => Le
  }

  /** NOT (a op b) == a Inverse(op) b, for values that are not NULL. */
  function Inverse(op: Op): Op {
    match op
    case Eq => Ne case Ne => Eq case Lt => Ge case Le => Gt case Gt => Le case Ge => Lt
  }

  lemma FlippingSwapsOperands(op: Op, a: Cell, b: Cell)
    ensures CompareCells(Flipped(op), b, a) == CompareCells(op, a, b)
  {}

  lemma InvertingNegates(op: Op, a: Cell, b: Cell)
    ensures CompareCells(Inverse(op), a, b) == Negate(CompareCells(op, a, b))
  {
    if a.Some? && b.Some? {
      Trichotomy(a.value, b.value);
    }
  }

  /** What an operator accepts, as the sign of the comparison. */
  function Accepts(op: Op): set<int> {
    match op
    case Eq => {0} case Ne => {-1, 1} case Lt => {-1} case Le => {-1, 0} case Gt => {1} case Ge => {0, 1}
  }

  /** Numbers and moments compare by size, false is below true, and texts compare by code points. */
  lemma ComparisonsMean(op: Op, x: real, y: real, m: int, n: int, b: bool, c: bool, s: string, t: string)
    ensures CompareCells(op, Some(Num(x)), Some(Num(y))) ==
            Truth((if x < y then -1 else if x == y then 0 else 1) in Accepts(op))
    ensures CompareCells(op, Some(Day(m)), Some(Day(n))) == CompareCells(op, Some(Instant(m)), Some(Instant(n))) ==
            Truth((if m < n then -1 else if m == n then 0 else 1) in Accepts(op))
    ensures CompareCells(op, Some(Flag(b)), Some(Flag(c))) ==
            Truth((if b == c then 0 else if c then -1 else 1) in Accepts(op))
    ensures CompareCells(op, Some(Text(Encode(s))), Some(Text(Encode(t)))) ==
            Truth((if Before(s, t) then -1 else if s == t then 0 else 1) in Accepts(op))
  {
    TextsCompare(s, t);
  }

  lemma TextsCompare(s: string, t: string)
    ensures Smaller(Text(Encode(s)), Text(Encode(t))) <==> Before(s, t)
    ensures Smaller(Text(Encode(t)), Text(Encode(s))) <==> !Before(s, t) && s != t
    ensures Encode(s) == Encode(t) <==> s == t
    ensures Before(s, t) ==> s != t
  {
    EncodeKeepsOrder(s, t);
    EncodeKeepsOrder(t, s);
    CodeInjective();
    Total(Code, s, t);
    if Before(s, t) { Asymmetric(Code, s, t); }
    if Before(t, s) { Asymmetric(Code, t, s); }
    if Encode(s) == Encode(t) { EncodeInjective(s, t); }
  }

  /** From false over unknown to true. */
  function Rank3(a: Tri): int { match a case False => 0 case Unknown => 1 case True => 2 }

  /** AND is the least, OR the greatest, and NOT turns the order around. */
  lemma KleeneLogic(a: Tri, b: Tri)
    ensures Rank3(Both(a, b)) == if Rank3(a) < Rank3(b) then Rank3(a) else Rank3(b)
    ensures Rank3(Either(a, b)) == if Rank3(a) < Rank3(b) then Rank3(b) else Rank3(a)
    ensures Rank3(Negate(a)) == 2 - Rank3(a)
  {}

  // --- The host language and its libraries ----------------------------------------

  /** What is left to Python and to the readers, as functions the model does not look into:
      `float` reads a numeral, `number` and `moment` convert a literal to a number or a date,
      `show` is `str()`, `lower` is `str.lower`. */
  datatype Host = Host(
    float: string -> real,
    number: (string, Kind) -> Option<real>,
    moment: (Value, Kind) -> Option<int>,
    show: Value -> string,
    lower: string -> string)

  function Numeric(h: Host, v: Value): Option<real> {
    match v
    case Bool(b) => Some(if b then 1.0 else 0.0)
    case Int(n) => Some(n as real)
    case Float(t) => Some(h.float(t))
    case _ => None
  }

  /** A literal converted to the kind of a column; None is the error. */
  function Coerce(h: Host, v: Value, k: Kind): (r: Option<Scalar>)
    requires !v.Null?
    ensures r.Some? ==> Fits(r.value, k)
  {
    match k
    case KOther => None
    case KBool =>
      (match v
       case Bool(b) => Some(Flag(b))
       case Str(s) => if h.lower(s) == "true" then Some(Flag(true))
                      else if h.lower(s) == "false" then Some(Flag(false)) else None
       case _ => None)
    case KStr => if v.Str? then Some(Text(Encode(v.s))) else None
    case KBytes => if v.Str? then Some(Text(Encode(v.s))) else None
    case KDate => (match h.moment(v, k) case Some(d) => Some(Day(d)) case None => None)
    case KDatetime => (match h.moment(v, k) case Some(d) => Some(Instant(d)) case None => None)
    case _ =>
      if v.Bool? then None
      else if v.Str? then (match h.number(v.s, k) case Some(r) => Some(Num(r)) case None => None)
      else Some(Num(Numeric(h, v).value))
  }

  /** Python's comparison of two literals; None is its TypeError. */
  function CompareLiterals(h: Host, op: Op, a: Value, b: Value): Option<bool>
    requires !a.Null? && !b.Null?
  {
    if a.Str? && b.Str? then Some(Holds(op, Text(Encode(a.s)), Text(Encode(b.s))))
    else if a.Str? || b.Str? then
      (match op case Eq => Some(false) case Ne => Some(true) case _ => None)
    else Some(Holds(op, Num(Numeric(h, a).value), Num(Numeric(h, b).value)))
  }

  /** The kind a literal has by itself. */
  function LiteralKind(v: Value): Option<Kind> {
    match v
    case Null => None
    case Bool(_) => Some(KBool)
    case Int(_) => Some(KInt)
    case Float(_) => Some(KFloat)
    case Str(_) => Some(KStr)
  }

  /** A literal converted to its own kind, if the column can hold the outcome at all, is what
      converting it to the column's kind gives. CSV literals are pushed on this ground. */
  lemma OwnKindAgrees(h: Host, v: Value, k: Kind)
    requires v.Int? || v.Float? || v.Str?
    ensures Coerce(h, v, LiteralKind(v).value).Some?
    ensures Fits(Coerce(h, v, LiteralKind(v).value).value, k) ==>
              Coerce(h, v, k) == Coerce(h, v, LiteralKind(v).value)
  {}

  /** The texts of the truth values, in any case, and no others are read as them. */
  lemma BooleansFromText(h: Host, s: string, b: bool)
    ensures Coerce(h, Str(s), KBool) == Some(Flag(b)) <==> h.lower(s) == if b then "true" else "false"
  {
    assert "true" != "false" by { assert |"true"| != |"false"|; }
  }

  /** A column of this kind takes this literal as it is. */
  predicate OfKind(v: Value, k: Kind) {
    match v
    case Null => false
    case Bool(_) => k == KBool
    case Int(_) => k in {KInt, KFloat, KDecimal}
    case Float(_) => k in {KInt, KFloat, KDecimal}
    case Str(_) => k in {KStr, KBytes}
  }

  /** Two literals of a kind compare by themselves as they do in a column of that kind. */
  lemma LiteralsCompareAsCells(h: Host, op: Op, a: Value, b: Value, k: Kind)
    requires OfKind(a, k) && OfKind(b, k)
    ensures Coerce(h, a, k).Some? && Coerce(h, b, k).Some?
    ensures CompareLiterals(h, op, a, b) == Some(Holds(op, Coerce(h, a, k).value, Coerce(h, b, k).value))
  {}

  /** A literal as Python compares it: a truth value is the number 0 or 1. */
  function AsNumber(h: Host, v: Value): real
    requires v.Bool? || v.Int? || v.Float?
  {
    if v.Bool? then (if v.b then 1.0 else 0.0) else if v.Int? then v.n as real else h.float(v.numeral)
  }

  /** Two literals are equal if they are the same text or the same number, a truth value counting as
      0 or 1; a text and a number differ and have no order. */
  lemma LiteralsCompare(h: Host, op: Op, a: Value, b: Value)
    requires !a.Null? && !b.Null?
    ensures CompareLiterals(h, Eq, a, b) == Some(
              if a.Str? && b.Str? then a.s == b.s
              else !a.Str? && !b.Str? && AsNumber(h, a) == AsNumber(h, b))
    ensures CompareLiterals(h, op, a, b).None? <==> a.Str? != b.Str? && op !in {Eq, Ne}
    ensures CompareLiterals(h, op, a, b).Some? ==>
              CompareLiterals(h, Inverse(op), a, b) == Some(!CompareLiterals(h, op, a, b).value)
  {
    if a.Str? && b.Str? {
      if Encode(a.s) == Encode(b.s) { EncodeInjective(a.s, b.s); }
      Trichotomy(Text(Encode(a.s)), Text(Encode(b.s)));
    }
  }
}
