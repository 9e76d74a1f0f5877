/** Splitting a WHERE clause into predicates the reader applies and a residual condition. */
module Plan {
  import opened Wrappers
  import opened Sql
  import opened Values
  import opened Rows

  datatype Format = Parquet | Json | Csv | OtherFormat

  /** What a reader applies exactly. `typed` is false when column types are unknown before
      reading, so that literals are pushed as written. */
  datatype Capability = Capability(kinds: set<Kind>, membership: bool, nullTests: bool, typed: bool)

  function CapabilityOf(f: Format): Option<Capability> {
    match f
    case Parquet => Some(Capability({KInt, KFloat, KStr, KDate, KDatetime, KBool}, true, true, true))
    case Json => Some(Capability({KInt, KFloat, KStr, KBool}, true, true, true))
    case Csv => Some(Capability({KInt, KFloat, KStr}, false, false, false))
    case OtherFormat => None
  }

  // --- Reader predicates -----------------------------------------------------------

  datatype Test =
    | Compare(op: Op, value: Scalar)
    | IsNullTest
    | NotNullTest
    | InTest(values: seq<Scalar>)
    | NotInTest(values: seq<Scalar>)

  datatype Predicate = Predicate(column: string, test: Test)

  predicate Passes(t: Test, cell: Cell) {
    match t
    case Compare(op, x) => cell.Some? && Holds(op, cell.value, x)
    case IsNullTest => cell.None?
    case NotNullTest => cell.Some?
    case InTest(xs) => cell.Some? && cell.value in xs
    case NotInTest(xs) => cell.Some? && cell.value !in xs
  }

  /** The literals of the test are of the column's sort, so that the reader can apply it. */
  predicate TestFits(t: Test, k: Kind) {
    match t
    case Compare(_, x) => Fits(x, k)
    case InTest(xs) => forall x :: x in xs ==> Fits(x, k)
    case NotInTest(xs) => forall x :: x in xs ==> Fits(x, k)
    case _ => true
  }

  predicate AllPass(ps: seq<Predicate>, row: Row) {
    forall p :: p in ps ==> p.column in row && Passes(p.test, row[p.column])
  }

  predicate AllFit(ps: seq<Predicate>, kinds: map<string, Kind>) {
    forall p :: p in ps ==> p.column in kinds && TestFits(p.test, kinds[p.column])
  }

  // --- One conjunct ------------------------------------------------------------------

  function Conjuncts(c: Option<Condition>): seq<Condition> {
    match c case None => [] case Some(x) => ConjunctsOf(x)
  }

  function ConjunctsOf(c: Condition): seq<Condition> {
    match c
    case BoolOp(And, l, r) => ConjunctsOf(l) + ConjunctsOf(r)
    case _ => [c]
  }

  /** Fails is the error raised for an unknown column or a literal of the wrong type. */
  datatype Push = Fails | Stays | Pushes(predicates: seq<Predicate>)

  datatype Target = NoColumn | NotPushable | Pushable(name: string, kind: Kind)

  function OnlyKind(values: seq<Value>): Option<Kind>
    requires values != []
  {
    if forall v :: v in values ==> LiteralKind(v) == LiteralKind(values[0]) then LiteralKind(values[0])
    else None
  }

  function PushableColumn(h: Host, o: Operand, names: seq<string>, kinds: map<string, Kind>,
                          cap: Capability, literals: seq<Value>): Target
    requires literals != []
  {
    if o.Lit? then NotPushable
    else
      var name := Resolve(h, names, o.column);
      if name.None? then NoColumn
      else
        var target := if !cap.typed then OnlyKind(literals)
                      else if name.value in kinds then Some(kinds[name.value]) else None;
        if target.Some? && target.value in cap.kinds then Pushable(name.value, target.value)
        else NotPushable
  }

  function CoerceAll(h: Host, values: seq<Value>, k: Kind): (r: Option<seq<Scalar>>)
    requires Null !in values
    ensures r.Some? <==> forall v :: v in values ==> Coerce(h, v, k).Some?
    ensures r.Some? ==> forall x :: x in r.value <==> exists v :: v in values && Coerce(h, v, k) == Some(x)
  {
    if values == [] then Some([])
    else
      assert values == [values[0]] + values[1..];
      assert forall v :: v in values <==> v == values[0] || v in values[1..];
      match (Coerce(h, values[0], k), CoerceAll(h, values[1..], k))
      case (Some(x), Some(rest)) => Some([x] + rest)
      case _ => None
  }

  function PushComparison(h: Host, negated: bool, op0: Op, l: Operand, r: Operand,
                          names: seq<string>, kinds: map<string, Kind>, cap: Capability): Push
  {
    var swap := l.Lit? && r.Col?;
    var op := if swap then Flipped(op0) else op0;
    var left, right := if swap then r else l, if swap then l else r;
    if right.Col? || right.value.Null? then Stays
    else
      match PushableColumn(h, left, names, kinds, cap, [right.value])
      case NoColumn => Fails
      case NotPushable => Stays
      case Pushable(name, kind) =>
        match Coerce(h, right.value, kind)
        case None => Fails
        case Some(x) => Pushes([Predicate(name, Compare(if negated then Inverse(op) else op, x))])
  }

  function PushIsNull(h: Host, negated: bool, o: Operand, names: seq<string>): Push {
    if o.Lit? then Stays
    else
      match Resolve(h, names, o.column)
      case None => Fails
      case Some(name) => Pushes([Predicate(name, if negated then NotNullTest else IsNullTest)])
  }

  function PushInList(h: Host, negated: bool, o: Operand, values: Members,
                      names: seq<string>, kinds: map<string, Kind>, cap: Capability): Push
  {
    if Null in values then Stays
    else
      match PushableColumn(h, o, names, kinds, cap, values)
      case NoColumn => Fails
      case NotPushable => Stays
      case Pushable(name, kind) =>
        match CoerceAll(h, values, kind)
        case None => Fails
        case Some(xs) => Pushes([Predicate(name, if negated then NotInTest(xs) else InTest(xs))])
  }

  function PushBetween(h: Host, o: Operand, low: Operand, high: Operand,
                       names: seq<string>, kinds: map<string, Kind>, cap: Capability): Push
  {
    if low.Col? || low.value.Null? || high.Col? || high.value.Null? then Stays
    else
      match PushableColumn(h, o, names, kinds, cap, [low.value, high.value])
      case NoColumn => Fails
      case NotPushable => Stays
      case Pushable(name, kind) =>
        match (Coerce(h, low.value, kind), Coerce(h, high.value, kind))
        case (Some(x), Some(y)) =>
          Pushes([Predicate(name, Compare(Ge, x)), Predicate(name, Compare(Le, y))])
        case _ => Fails
  }

  function Predicates(h: Host, part: Condition, names: seq<string>, kinds: map<string, Kind>,
                      cap: Capability): Push
  {
    var negated := part.Not? && (part.inner.Comparison? || part.inner.IsNull? || part.inner.InList?);
    match (if negated then part.inner else part)
    case Comparison(op, l, r) => PushComparison(h, negated, op, l, r, names, kinds, cap)
    case IsNull(o, n) => if cap.nullTests then PushIsNull(h, n != negated, o, names) else Stays
    case InList(o, values, n) =>
      if cap.membership then PushInList(h, n != negated, o, values, names, kinds, cap) else Stays
    case Between(o, low, high, n) =>
      if n then Stays else PushBetween(h, o, low, high, names, kinds, cap)
    case _ => Stays
  }

  // --- Which conjuncts are pushed ------------------------------------------------------

  /** A column against literals. */
  datatype Form = Form(column: Column, literals: seq<Value>)

  /** The form a reader can apply, if the conjunct has it. NOT is looked through, but not above a
      BETWEEN. */
  function FormOf(part: Condition): Option<Form> {
    match part
    case Not(x) => if x.Comparison? || x.IsNull? || x.InList? then PlainForm(x) else None
    case _ => PlainForm(part)
  }

  function PlainForm(part: Condition): Option<Form> {
    match part
    case Comparison(_, Col(c), Lit(v)) => Some(Form(c, [v]))
    case Comparison(_, Lit(v), Col(c)) => Some(Form(c, [v]))
    case IsNull(Col(c), _) => Some(Form(c, []))
    case InList(Col(c), values, _) => Some(Form(c, values))
    case Between(Col(c), Lit(x), Lit(y), n) => if n then None else Some(Form(c, [x, y]))
    case _ => None
  }

  /** Parquet readers apply all kinds but bytes, decimals and what cannot be compared. */
  predicate KindPushed(f: Format, k: Kind) {
    match f
    case Parquet => k !in {KBytes, KDecimal, KOther}
    case Json => k in {KInt, KFloat, KStr, KBool}
    case Csv => k in {KInt, KFloat, KStr}
    case OtherFormat => false
  }

  /** The kind the literals are read as: that of the column, or, where columns have no kinds, their
      own, if it is the same for all. */
  ghost predicate ReadAs(f: Format, name: string, kinds: map<string, Kind>, literals: seq<Value>, k: Kind) {
    if f == Csv then forall v :: v in literals ==> LiteralKind(v) == Some(k)
    else name in kinds && kinds[name] == k
  }

  /** The reader applies tests of the column against the literals, once the column is found. */
  ghost predicate Applied(h: Host, f: Format, form: Form, names: seq<string>, kinds: map<string, Kind>) {
    && Null !in form.literals
    && (form.literals == [] || Resolve(h, names, form.column).None? ||
        exists k :: KindPushed(f, k) && ReadAs(f, Resolve(h, names, form.column).value, kinds, form.literals, k))
  }

  /** The column exists and every literal can be read as the kind it is read as. */
  ghost predicate Readable(h: Host, f: Format, form: Form, names: seq<string>, kinds: map<string, Kind>)
    requires Null !in form.literals
  {
    var name := Resolve(h, names, form.column);
    && name.Some?
    && forall k, v :: KindPushed(f, k) && ReadAs(f, name.value, kinds, form.literals, k) && v in form.literals ==>
         Coerce(h, v, k).Some?
  }

  /** A NULL test or a membership test. */
  predicate IsTest(part: Condition) {
    part.IsNull? || part.InList? || (part.Not? && (part.inner.IsNull? || part.inner.InList?))
  }

  ghost predicate PushedAs(h: Host, f: Format, form: Form, names: seq<string>, kinds: map<string, Kind>, push: Push) {
    && (push.Stays? <==> !Applied(h, f, form, names, kinds))
    && (push.Fails? <==> Applied(h, f, form, names, kinds) && !Readable(h, f, form, names, kinds))
  }

  lemma TargetIs(h: Host, f: Format, c: Column, names: seq<string>, kinds: map<string, Kind>, literals: seq<Value>)
    requires CapabilityOf(f).Some? && literals != [] && Null !in literals
    ensures var t := PushableColumn(h, Col(c), names, kinds, CapabilityOf(f).value, literals);
            var name := Resolve(h, names, c);
            && (t.NoColumn? <==> name.None?)
            && (t.Pushable? ==> KindPushed(f, t.kind) && ReadAs(f, name.value, kinds, literals, t.kind))
            && (name.Some? ==> forall k :: KindPushed(f, k) && ReadAs(f, name.value, kinds, literals, k) ==>
                  t == Pushable(name.value, k))
  {
    var name := Resolve(h, names, c);
    assert literals[0] in literals;
    if name.Some? {
      forall k | KindPushed(f, k) && ReadAs(f, name.value, kinds, literals, k)
        ensures k in CapabilityOf(f).value.kinds
        ensures f == Csv ==> OnlyKind(literals) == Some(k)
      {}
    }
  }

  /** What is pushed, by the target the literals are coerced to. */
  lemma PushedByTarget(h: Host, f: Format, form: Form, names: seq<string>, kinds: map<string, Kind>, push: Push)
    requires CapabilityOf(f).Some? && form.literals != [] && Null !in form.literals
    requires match PushableColumn(h, Col(form.column), names, kinds, CapabilityOf(f).value, form.literals)
             case NoColumn => push.Fails?
             case NotPushable => push.Stays?
             case Pushable(_, k) =>
               if forall v :: v in form.literals ==> Coerce(h, v, k).Some? then push.Pushes? else push.Fails?
    ensures PushedAs(h, f, form, names, kinds, push)
  {
    TargetIs(h, f, form.column, names, kinds, form.literals);
  }

  lemma ComparisonPushed(h: Host, f: Format, negated: bool, op: Op, c: Column, v: Value, names: seq<string>,
                         kinds: map<string, Kind>)
    requires CapabilityOf(f).Some?
    ensures var cap, form := CapabilityOf(f).value, Form(c, [v]);
            && PushedAs(h, f, form, names, kinds, PushComparison(h, negated, op, Col(c), Lit(v), names, kinds, cap))
            && PushedAs(h, f, form, names, kinds, PushComparison(h, negated, op, Lit(v), Col(c), names, kinds, cap))
  {
    var cap, form := CapabilityOf(f).value, Form(c, [v]);
    if v.Null? {
      assert Null in [v];
    } else {
      PushedByTarget(h, f, form, names, kinds, PushComparison(h, negated, op, Col(c), Lit(v), names, kinds, cap));
      PushedByTarget(h, f, form, names, kinds, PushComparison(h, negated, op, Lit(v), Col(c), names, kinds, cap));
    }
  }

  lemma MembershipPushed(h: Host, f: Format, negated: bool, c: Column, values: Members, names: seq<string>,
                         kinds: map<string, Kind>)
    requires CapabilityOf(f).Some?
    ensures PushedAs(h, f, Form(c, values), names, kinds,
                     PushInList(h, negated, Col(c), values, names, kinds, CapabilityOf(f).value))
  {
    if Null !in values {
      PushedByTarget(h, f, Form(c, values), names, kinds,
                     PushInList(h, negated, Col(c), values, names, kinds, CapabilityOf(f).value));
    }
  }

  lemma BoundsPushed(h: Host, f: Format, c: Column, x: Value, y: Value, names: seq<string>, kinds: map<string, Kind>)
    requires CapabilityOf(f).Some?
    ensures PushedAs(h, f, Form(c, [x, y]), names, kinds,
                     PushBetween(h, Col(c), Lit(x), Lit(y), names, kinds, CapabilityOf(f).value))
  {
    assert x in [x, y] && y in [x, y];
    if !x.Null? && !y.Null? {
      PushedByTarget(h, f, Form(c, [x, y]), names, kinds,
                     PushBetween(h, Col(c), Lit(x), Lit(y), names, kinds, CapabilityOf(f).value));
    }
  }

  /** A conjunct stays for the residual exactly if it is no test of a column against literals that
      the reader applies; pushing it fails exactly if it is one, but the column is unknown or a
      literal cannot be read. */
  lemma PushedExactly(h: Host, f: Format, part: Condition, names: seq<string>, kinds: map<string, Kind>)
    requires CapabilityOf(f).Some?
    ensures var push := Predicates(h, part, names, kinds, CapabilityOf(f).value);
            if FormOf(part).None? || (IsTest(part) && f == Csv) then push.Stays?
            else PushedAs(h, f, FormOf(part).value, names, kinds, push)
  {
    var negated := part.Not? && (part.inner.Comparison? || part.inner.IsNull? || part.inner.InList?);
    match (if negated then part.inner else part)
    case Comparison(op, l, r) =>
      if l.Col? && r.Lit? { ComparisonPushed(h, f, negated, op, l.column, r.value, names, kinds); }
      if l.Lit? && r.Col? { ComparisonPushed(h, f, negated, op, r.column, l.value, names, kinds); }
    case InList(o, values, n) =>
      if o.Col? { MembershipPushed(h, f, n != negated, o.column, values, names, kinds); }
    case Between(o, low, high, n) =>
      if o.Col? && low.Lit? && high.Lit? && !n {
        BoundsPushed(h, f, o.column, low.value, high.value, names, kinds);
      }
    case _ =>
  }

  // --- What pushing one conjunct means -----------------------------------------------

  /** `kinds` is what the planner is told about a table whose schema is `s`: the columns'
      kinds when the format knows them before reading. */
  ghost predicate Described(s: Schema, kinds: map<string, Kind>, cap: Capability) {
    s.Valid() && (cap.typed ==> kinds == s.kinds) &&
    (!cap.typed ==> cap.kinds <= {KInt, KFloat, KStr} && !cap.membership)
  }

  /** Pushing fails only on a condition that is not typed. A pushed condition is typed if the
      predicates fit the columns, which they do whenever the kinds are known beforehand; and
      the predicates then pass on exactly the rows where the condition is true. */
  ghost predicate PushIsExact(h: Host, c: Condition, s: Schema, typed: bool, push: Push)
    requires s.Valid()
  {
    match push
    case Fails => !Typed(h, s, c)
    case Stays => true
    case Pushes(ps) =>
      && (forall p :: p in ps ==> p.column in s.names)
      && (typed ==> AllFit(ps, s.kinds))
      && (AllFit(ps, s.kinds) ==>
            Typed(h, s, c) &&
            forall row :: RowOf(row, s) ==> (AllPass(ps, row) <==> TruthOf(h, s, row, c) == True))
  }

  lemma TargetCoerces(h: Host, o: Operand, s: Schema, kinds: map<string, Kind>, cap: Capability,
                      literals: seq<Value>, v: Value)
    requires literals != [] && Null !in literals && v in literals && Described(s, kinds, cap)
    ensures var t := PushableColumn(h, o, s.names, kinds, cap, literals);
            t.Pushable? ==>
              && o.Col? && Resolve(h, s.names, o.column) == Some(t.name) && t.name in s.kinds
              && (cap.typed ==> t.kind == s.kinds[t.name])
              && (Coerce(h, v, t.kind).Some? && Fits(Coerce(h, v, t.kind).value, s.kinds[t.name]) ==>
                    Coerce(h, v, s.kinds[t.name]) == Coerce(h, v, t.kind))
              && (!cap.typed ==> Coerce(h, v, t.kind).Some?)
  {
    var t := PushableColumn(h, o, s.names, kinds, cap, literals);
    if t.Pushable? && !cap.typed {
      assert LiteralKind(v) == Some(t.kind);
      OwnKindAgrees(h, v, s.kinds[t.name]);
    }
  }

  /** The column, the literal and the operator, once the column is on the left. */
  predicate Oriented(op: Op, l: Operand, r: Operand, o: Op, c: Column, v: Value) {
    !v.Null? &&
    ((l == Col(c) && r == Lit(v) && o == op) || (l == Lit(v) && r == Col(c) && o == Flipped(op)))
  }

  lemma ComparisonPushOnRow(h: Host, negated: bool, op: Op, l: Operand, r: Operand,
                            o: Op, c: Column, v: Value, s: Schema, row: Row)
    requires s.Valid() && RowOf(row, s) && Oriented(op, l, r, o, c, v)
    requires ComparisonTyped(h, s, op, l, r)
    ensures var n := Resolve(h, s.names, c).value;
            var test := Compare(if negated then Inverse(o) else o, Coerce(h, v, s.kinds[n]).value);
            Passes(test, row[n]) <==> Signed(negated, ComparisonTruth(h, s, row, op, l, r)) == True
  {
    var n := Resolve(h, s.names, c).value;
    var x := Coerce(h, v, s.kinds[n]);
    InvertingNegates(o, row[n], x);
    FlippingSwapsOperands(op, x, row[n]);
  }

  lemma OnePredicate(p: Predicate, row: Row, kinds: map<string, Kind>)
    ensures AllPass([p], row) <==> p.column in row && Passes(p.test, row[p.column])
    ensures AllFit([p], kinds) <==> p.column in kinds && TestFits(p.test, kinds[p.column])
  {
    assert p in [p];
  }

  lemma ComparisonPush(h: Host, negated: bool, c: Condition, op: Op, l: Operand, r: Operand,
                       s: Schema, kinds: map<string, Kind>, cap: Capability)
    requires Described(s, kinds, cap)
    requires c == if negated then Not(Comparison(op, l, r)) else Comparison(op, l, r)
    ensures PushIsExact(h, c, s, cap.typed,
                        PushComparison(h, negated, op, l, r, s.names, kinds, cap))
  {
    assert Typed(h, s, c) <==> ComparisonTyped(h, s, op, l, r);
    var push := PushComparison(h, negated, op, l, r, s.names, kinds, cap);
    if !push.Stays? {
      var swap := l.Lit? && r.Col?;
      var o := if swap then Flipped(op) else op;
      var column, v := if swap then r.column else l.column, if swap then l.value else r.value;
      assert Oriented(op, l, r, o, column, v);
      TargetCoerces(h, Col(column), s, kinds, cap, [v], v);
      if push.Pushes? {
        var p := push.predicates[0];
        assert push.predicates == [p];
        OnePredicate(p, map[], s.kinds);
        forall row | RowOf(row, s) && AllFit([p], s.kinds)
          ensures AllPass([p], row) <==> TruthOf(h, s, row, c) == True
        {
          OnePredicate(p, row, s.kinds);
          ComparisonPushOnRow(h, negated, op, l, r, o, column, v, s, row);
        }
      }
    }
  }

  lemma IsNullPush(h: Host, negated: bool, c: Condition, o: Operand, s: Schema, typed: bool)
    requires s.Valid()
    requires (c.IsNull? && c.operand == o && negated == c.negated) ||
             (c.Not? && c.inner.IsNull? && c.inner.operand == o && negated == !c.inner.negated)
    ensures PushIsExact(h, c, s, typed, PushIsNull(h, negated, o, s.names))
  {
    var push := PushIsNull(h, negated, o, s.names);
    if push.Pushes? {
      var p := push.predicates[0];
      assert push.predicates == [p];
      forall row | RowOf(row, s)
        ensures AllPass([p], row) <==> TruthOf(h, s, row, c) == True
      {
        assert p in [p];
      }
    }
  }

  lemma InListPush(h: Host, negated: bool, c: Condition, o: Operand, values: Members, s: Schema,
                   kinds: map<string, Kind>, cap: Capability)
    requires Described(s, kinds, cap) && cap.typed
    requires c == InList(o, values, negated) || c == Not(InList(o, values, !negated))
    ensures PushIsExact(h, c, s, cap.typed, PushInList(h, negated, o, values, s.names, kinds, cap))
  {
    assert values[0] in values;
    if Null !in values && o.Col? {
      var t := PushableColumn(h, o, s.names, kinds, cap, values);
      if t.Pushable? {
        var xs := CoerceAll(h, values, t.kind);
        if xs.Some? {
          var p := Predicate(t.name, if negated then NotInTest(xs.value) else InTest(xs.value));
          assert p in [p];
          forall row | RowOf(row, s)
            ensures AllPass([p], row) <==> TruthOf(h, s, row, c) == True
          {
            var cell: Cell := row[t.name];
            if cell.Some? {
              assert cell.value in xs.value <==> exists v :: v in values && Coerce(h, v, t.kind) == cell;
            }
          }
        } else {
          var v :| v in values && Coerce(h, v, t.kind).None?;
          assert !ScalarTyped(h, s, o.column, v);
        }
      } else if t.NoColumn? {
        assert !ScalarTyped(h, s, o.column, values[0]);
      }
    }
  }

  lemma BetweenPush(h: Host, o: Operand, low: Operand, high: Operand, s: Schema,
                    kinds: map<string, Kind>, cap: Capability)
    requires Described(s, kinds, cap)
    ensures PushIsExact(h, Between(o, low, high, false), s, cap.typed,
                        PushBetween(h, o, low, high, s.names, kinds, cap))
  {
    if o.Col? && low.Lit? && high.Lit? && !low.value.Null? && !high.value.Null? {
      var u, v := low.value, high.value;
      TargetCoerces(h, o, s, kinds, cap, [u, v], u);
      TargetCoerces(h, o, s, kinds, cap, [u, v], v);
      var t := PushableColumn(h, o, s.names, kinds, cap, [u, v]);
      if t.Pushable? && Coerce(h, u, t.kind).Some? && Coerce(h, v, t.kind).Some? {
        var x, y := Coerce(h, u, t.kind).value, Coerce(h, v, t.kind).value;
        var p, q := Predicate(t.name, Compare(Ge, x)), Predicate(t.name, Compare(Le, y));
        PairFits(p, q, s.kinds);
        forall row | RowOf(row, s) && AllFit([p, q], s.kinds)
          ensures AllPass([p, q], row) <==> TruthOf(h, s, row, Between(o, low, high, false)) == True
        {
          PairPasses(p, q, row);
        }
      }
    }
  }

  lemma PairFits(p: Predicate, q: Predicate, kinds: map<string, Kind>)
    ensures AllFit([p, q], kinds) <==> AllFit([p], kinds) && AllFit([q], kinds)
  {
    assert p in [p, q] && q in [p, q] && p in [p] && q in [q];
  }

  lemma PairPasses(p: Predicate, q: Predicate, row: Row)
    ensures AllPass([p, q], row) <==> AllPass([p], row) && AllPass([q], row)
  {
    assert p in [p, q] && q in [p, q] && p in [p] && q in [q];
  }

  lemma PushingIsExact(h: Host, c: Condition, s: Schema, kinds: map<string, Kind>, cap: Capability)
    requires Described(s, kinds, cap)
    ensures PushIsExact(h, c, s, cap.typed, Predicates(h, c, s.names, kinds, cap))
  {
    var negated := c.Not? && (c.inner.Comparison? || c.inner.IsNull? || c.inner.InList?);
    match (if negated then c.inner else c)
    case Comparison(op, l, r) => ComparisonPush(h, negated, c, op, l, r, s, kinds, cap);
    case IsNull(o, n) => IsNullPush(h, n != negated, c, o, s, cap.typed);
    case InList(o, values, n) =>
      if cap.membership { InListPush(h, n != negated, c, o, values, s, kinds, cap); }
    case Between(o, low, high, n) => BetweenPush(h, o, low, high, s, kinds, cap);
    case _ =>
  }

  // --- The whole WHERE clause ----------------------------------------------------------

  ghost predicate AllTyped(h: Host, s: Schema, parts: seq<Condition>)
    requires s.Valid()
  {
    forall c :: c in parts ==> Typed(h, s, c)
  }

  ghost predicate AllTrue(h: Host, s: Schema, parts: seq<Condition>, row: Row)
    requires s.Valid() && RowOf(row, s) && AllTyped(h, s, parts)
  {
    forall c :: c in parts ==> TruthOf(h, s, row, c) == True
  }

  ghost predicate WhereTyped(h: Host, s: Schema, c: Option<Condition>)
    requires s.Valid()
  {
    c.Some? ==> Typed(h, s, c.value)
  }

  /** A row is selected when the condition, if there is one, is true on it. */
  ghost predicate Selects(h: Host, s: Schema, c: Option<Condition>, row: Row)
    requires s.Valid() && RowOf(row, s) && WhereTyped(h, s, c)
  {
    c.Some? ==> TruthOf(h, s, row, c.value) == True
  }

  lemma {:induction false} ConjunctsTyped(h: Host, s: Schema, c: Condition)
    requires s.Valid()
    ensures Typed(h, s, c) <==> AllTyped(h, s, ConjunctsOf(c))
  {
    if c.BoolOp? && c.connective == And {
      ConjunctsTyped(h, s, c.lhs);
      ConjunctsTyped(h, s, c.rhs);
      assert forall x :: x in ConjunctsOf(c) <==> x in ConjunctsOf(c.lhs) || x in ConjunctsOf(c.rhs);
    } else {
      assert c in ConjunctsOf(c);
    }
  }

  /** An AND is true exactly when all its conjuncts are, also in three-valued logic. */
  lemma {:induction false} ConjunctsTrue(h: Host, s: Schema, c: Condition, row: Row)
    requires s.Valid() && RowOf(row, s) && Typed(h, s, c)
    ensures AllTyped(h, s, ConjunctsOf(c))
    ensures TruthOf(h, s, row, c) == True <==> AllTrue(h, s, ConjunctsOf(c), row)
  {
    ConjunctsTyped(h, s, c);
    if c.BoolOp? && c.connective == And {
      ConjunctsTrue(h, s, c.lhs, row);
      ConjunctsTrue(h, s, c.rhs, row);
      assert forall x :: x in ConjunctsOf(c) <==> x in ConjunctsOf(c.lhs) || x in ConjunctsOf(c.rhs);
    } else {
      assert c in ConjunctsOf(c);
    }
  }

  lemma {:induction false} ConjunctsAreSimple(c: Condition)
    ensures forall x :: x in ConjunctsOf(c) ==> ConjunctsOf(x) == [x]
  {
    if c.BoolOp? && c.connective == And {
      ConjunctsAreSimple(c.lhs);
      ConjunctsAreSimple(c.rhs);
    }
  }

  /** The predicates and the residual together say what the conjuncts say. */
  ghost predicate SplitIsExact(h: Host, s: Schema, typed: bool, parts: seq<Condition>,
                               pushed: seq<Predicate>, residual: seq<Condition>)
    requires s.Valid()
  {
    && (forall p :: p in pushed ==> p.column in s.names)
    && (forall c :: c in residual ==> c in parts)
    && (typed ==> AllFit(pushed, s.kinds))
    && (AllFit(pushed, s.kinds) ==> (AllTyped(h, s, parts) <==> AllTyped(h, s, residual)))
    && (AllFit(pushed, s.kinds) && AllTyped(h, s, parts) ==>
          forall row :: RowOf(row, s) ==>
            (AllTrue(h, s, parts, row) <==> AllPass(pushed, row) && AllTrue(h, s, residual, row)))
  }

  lemma SplitKeepsPart(h: Host, s: Schema, typed: bool, parts: seq<Condition>,
                       pushed: seq<Predicate>, residual: seq<Condition>, c: Condition)
    requires s.Valid() && SplitIsExact(h, s, typed, parts, pushed, residual)
    ensures SplitIsExact(h, s, typed, parts + [c], pushed, residual + [c])
  {
    assert forall x :: x in parts + [c] <==> x in parts || x == c;
    assert forall x :: x in residual + [c] <==> x in residual || x == c;
    assert AllTyped(h, s, parts + [c]) <==> AllTyped(h, s, parts) && Typed(h, s, c);
    assert AllTyped(h, s, residual + [c]) <==> AllTyped(h, s, residual) && Typed(h, s, c);
  }

  lemma SplitPushesPart(h: Host, s: Schema, typed: bool, parts: seq<Condition>,
                        pushed: seq<Predicate>, residual: seq<Condition>, c: Condition,
                        ps: seq<Predicate>)
    requires s.Valid() && SplitIsExact(h, s, typed, parts, pushed, residual)
    requires PushIsExact(h, c, s, typed, Pushes(ps))
    ensures SplitIsExact(h, s, typed, parts + [c], pushed + ps, residual)
  {
    assert forall x :: x in parts + [c] <==> x in parts || x == c;
    assert forall p :: p in pushed + ps <==> p in pushed || p in ps;
    assert AllFit(pushed + ps, s.kinds) <==> AllFit(pushed, s.kinds) && AllFit(ps, s.kinds);
    assert AllTyped(h, s, parts + [c]) <==> AllTyped(h, s, parts) && Typed(h, s, c);
    forall row | RowOf(row, s) && AllFit(pushed + ps, s.kinds) && AllTyped(h, s, parts + [c])
      ensures AllTrue(h, s, parts + [c], row) <==>
              AllPass(pushed + ps, row) && AllTrue(h, s, residual, row)
    {
      assert AllPass(pushed + ps, row) <==> AllPass(pushed, row) && AllPass(ps, row);
    }
  }

  /** What becomes of one conjunct; without a capability the reader takes no predicates. */
  function PushOf(h: Host, part: Condition, names: seq<string>, kinds: map<string, Kind>,
                  capability: Option<Capability>): Push
  {
    if capability.None? then Stays else Predicates(h, part, names, kinds, capability.value)
  }

  /** Every conjunct the reader can apply is pushed, and every other one is kept, in order. */
  function SplitOf(h: Host, parts: seq<Condition>, names: seq<string>, kinds: map<string, Kind>,
                   capability: Option<Capability>): (seq<Predicate>, seq<Condition>)
  {
    if parts == [] then ([], [])
    else
      var n := |parts| - 1;
      var (pushed, kept) := SplitOf(h, parts[..n], names, kinds, capability);
      var push := PushOf(h, parts[n], names, kinds, capability);
      if push.Pushes? then (pushed + push.predicates, kept) else (pushed, kept + [parts[n]])
  }

  /** None is the error raised while planning. `s` is the schema of the table to be read. */
  method MakePlan(h: Host, condition: Option<Condition>, names: seq<string>, kinds: map<string, Kind>,
                  format: Format, ghost s: Schema)
    returns (r: Option<(seq<Predicate>, Option<Condition>)>)
    requires s.Valid() && s.names == names
    requires CapabilityOf(format).Some? ==> Described(s, kinds, CapabilityOf(format).value)
    ensures r.None? ==> !WhereTyped(h, s, condition)
    ensures r.Some? ==>
              (r.value.0, Conjuncts(r.value.1)) == SplitOf(h, Conjuncts(condition), names, kinds, CapabilityOf(format))
    ensures r.Some? ==>
              SplitIsExact(h, s, CapabilityOf(format).Some? && CapabilityOf(format).value.typed,
                           Conjuncts(condition), r.value.0, Conjuncts(r.value.1))
  {
    var capability := CapabilityOf(format);
    var parts := Conjuncts(condition);
    var split := SplitConjuncts(h, parts, names, kinds, capability);
    if split.None? {
      FailingPart(h, s, parts, kinds, capability);
      ConjunctsTyped(h, s, condition.value);
      return None;
    }
    SplitOfIsExact(h, s, parts, kinds, capability);
    if condition.Some? {
      ConjunctsAreSimple(condition.value);
    }
    var remainder := Refold(split.value.1);
    return Some((split.value.0, remainder));
  }

  method SplitConjuncts(h: Host, parts: seq<Condition>, names: seq<string>, kinds: map<string, Kind>,
                        capability: Option<Capability>)
    returns (r: Option<(seq<Predicate>, seq<Condition>)>)
    ensures r.None? <==> exists c :: c in parts && PushOf(h, c, names, kinds, capability).Fails?
    ensures r.Some? ==> r.value == SplitOf(h, parts, names, kinds, capability)
  {
    var pushed: seq<Predicate>, residual: seq<Condition> := [], [];
    for k := 0 to |parts|
      invariant (pushed, residual) == SplitOf(h, parts[..k], names, kinds, capability)
      invariant forall i :: 0 <= i < k ==> !PushOf(h, parts[i], names, kinds, capability).Fails?
    {
      assert parts[..k + 1][..k] == parts[..k];
      var push := PushOf(h, parts[k], names, kinds, capability);
      match push {
        case Fails =>
          assert parts[k] in parts;
          return None;
        case Stays =>
          residual := residual + [parts[k]];
        case Pushes(ps) =>
          pushed := pushed + ps;
      }
    }
    assert parts[..|parts|] == parts;
    return Some((pushed, residual));
  }

  /** The AND of the parts, folded from the left. */
  method Refold(parts: seq<Condition>) returns (r: Option<Condition>)
    requires forall c :: c in parts ==> ConjunctsOf(c) == [c]
    ensures Conjuncts(r) == parts
  {
    r := None;
    for k := 0 to |parts|
      invariant Conjuncts(r) == parts[..k]
    {
      assert parts[k] in parts;
      assert parts[..k + 1] == parts[..k] + [parts[k]];
      r := if r.None? then Some(parts[k]) else Some(BoolOp(And, r.value, parts[k]));
    }
    assert parts[..|parts|] == parts;
  }

  lemma PushOfIsExact(h: Host, c: Condition, s: Schema, kinds: map<string, Kind>, capability: Option<Capability>)
    requires s.Valid() && (capability.Some? ==> Described(s, kinds, capability.value))
    ensures PushIsExact(h, c, s, capability.Some? && capability.value.typed, PushOf(h, c, s.names, kinds, capability))
  {
    if capability.Some? { PushingIsExact(h, c, s, kinds, capability.value); }
  }

  lemma FailingPart(h: Host, s: Schema, parts: seq<Condition>, kinds: map<string, Kind>, capability: Option<Capability>)
    requires s.Valid() && (capability.Some? ==> Described(s, kinds, capability.value))
    requires exists c :: c in parts && PushOf(h, c, s.names, kinds, capability).Fails?
    ensures !AllTyped(h, s, parts)
  {
    var c :| c in parts && PushOf(h, c, s.names, kinds, capability).Fails?;
    PushOfIsExact(h, c, s, kinds, capability);
  }

  /** What is pushed and what is kept together mean what the conjuncts mean. */
  lemma {:induction false} SplitOfIsExact(h: Host, s: Schema, parts: seq<Condition>, kinds: map<string, Kind>,
                                          capability: Option<Capability>)
    requires s.Valid() && (capability.Some? ==> Described(s, kinds, capability.value))
    requires forall c :: c in parts ==> !PushOf(h, c, s.names, kinds, capability).Fails?
    ensures var (pushed, kept) := SplitOf(h, parts, s.names, kinds, capability);
            SplitIsExact(h, s, capability.Some? && capability.value.typed, parts, pushed, kept)
  {
    if parts != [] {
      var n := |parts| - 1;
      var typed := capability.Some? && capability.value.typed;
      var (pushed, kept) := SplitOf(h, parts[..n], s.names, kinds, capability);
      SplitOfIsExact(h, s, parts[..n], kinds, capability);
      PushOfIsExact(h, parts[n], s, kinds, capability);
      var push := PushOf(h, parts[n], s.names, kinds, capability);
      assert parts == parts[..n] + [parts[n]];
      if push.Pushes? {
        SplitPushesPart(h, s, typed, parts[..n], pushed, kept, parts[n], push.predicates);
      } else {
        SplitKeepsPart(h, s, typed, parts[..n], pushed, kept, parts[n]);
      }
    }
  }

  /** The split, read back on whole clauses. */
  lemma SplitOnClauses(h: Host, s: Schema, typed: bool, c: Option<Condition>,
                       pushed: seq<Predicate>, remainder: Option<Condition>)
    requires s.Valid() && SplitIsExact(h, s, typed, Conjuncts(c), pushed, Conjuncts(remainder))
    requires AllFit(pushed, s.kinds)
    ensures WhereTyped(h, s, c) <==> WhereTyped(h, s, remainder)
    ensures WhereTyped(h, s, c) ==> forall row :: RowOf(row, s) ==>
              (Selects(h, s, c, row) <==> AllPass(pushed, row) && Selects(h, s, remainder, row))
  {
    if c.Some? { ConjunctsTyped(h, s, c.value); }
    if remainder.Some? { ConjunctsTyped(h, s, remainder.value); }
    if WhereTyped(h, s, c) {
      forall row | RowOf(row, s)
        ensures Selects(h, s, c, row) <==> AllPass(pushed, row) && Selects(h, s, remainder, row)
      {
        if c.Some? { ConjunctsTrue(h, s, c.value, row); }
        if remainder.Some? { ConjunctsTrue(h, s, remainder.value, row); }
      }
    }
  }
}
