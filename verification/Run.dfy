/** The whole of a SELECT: what it answers, and that running it gives that answer. */
module Run {
  import opened Wrappers
  import opened Sql
  import opened Values
  import opened Rows
  import opened Masks
  import opened Plan
  import opened Select

  // --- What reading does ------------------------------------------------------------------

  /** Predicates on one table and their renamings on another with the same columns. */
  ghost predicate Renamed(u: Morsel, rs: seq<Predicate>, t: Morsel, ps: seq<Predicate>)
    requires u.Valid() && t.Valid()
  {
    && u.rows == t.rows && |rs| == |ps|
    && forall k :: 0 <= k < |ps| ==>
         && rs[k].test == ps[k].test && rs[k].column in u.columns && ps[k].column in t.columns
         && u.columns[rs[k].column] == t.columns[ps[k].column]
  }

  lemma RenamedPass(u: Morsel, rs: seq<Predicate>, t: Morsel, ps: seq<Predicate>, i: nat)
    requires u.Valid() && t.Valid() && Renamed(u, rs, t, ps) && i < t.rows
    ensures AllPass(rs, u.RowAt(i)) <==> AllPass(ps, t.RowAt(i))
  {
    var a, b := u.RowAt(i), t.RowAt(i);
    assert forall k :: 0 <= k < |ps| ==> a[rs[k].column] == b[ps[k].column];
    if AllPass(ps, b) {
      assert forall k :: 0 <= k < |ps| ==> ps[k] in ps;
    }
    if AllPass(rs, a) {
      assert forall k :: 0 <= k < |rs| ==> rs[k] in rs;
    }
  }

  lemma RenamedMask(u: Morsel, rs: seq<Predicate>, t: Morsel, ps: seq<Predicate>)
    requires u.Valid() && t.Valid() && Renamed(u, rs, t, ps)
    ensures PassMask(u, rs) == PassMask(t, ps)
  {
    forall i | 0 <= i < t.rows
      ensures PassMask(u, rs)[i] == PassMask(t, ps)[i]
    {
      RenamedPass(u, rs, t, ps, i);
    }
  }

  lemma RenamedFit(u: Morsel, rs: seq<Predicate>, t: Morsel, ps: seq<Predicate>)
    requires u.Valid() && t.Valid() && Renamed(u, rs, t, ps)
    ensures AllFit(rs, u.SchemaOf().kinds) <==> AllFit(ps, t.SchemaOf().kinds)
  {
    var a, b := u.SchemaOf().kinds, t.SchemaOf().kinds;
    assert forall k :: 0 <= k < |ps| ==> a[rs[k].column] == b[ps[k].column];
    if AllFit(ps, b) {
      assert forall k :: 0 <= k < |ps| ==> ps[k] in ps;
    }
    if AllFit(rs, a) {
      assert forall k :: 0 <= k < |rs| ==> rs[k] in rs;
    }
  }

  lemma RenamedColumns(src: Source, ps: seq<Predicate>)
    requires src.Valid() && forall p :: p in ps ==> p.column in src.Names()
    ensures Renamed(Named(src.RugoNames(), src.columns, src.rows),
                    RenamePredicates(ps, src.Names(), src.RugoNames()), Table(src), ps)
  {
    var rs := RenamePredicates(ps, src.Names(), src.RugoNames());
    forall k | 0 <= k < |ps|
      ensures rs[k].column in src.RugoNames() && ps[k].column in src.Names()
      ensures Named(src.RugoNames(), src.columns, src.rows).columns[rs[k].column] == Table(src).columns[ps[k].column]
    {
      assert ps[k] in ps;
      var at := Position(src.Names(), ps[k].column);
      assert src.Names()[at] == ps[k].column && src.RugoNames()[at] == rs[k].column;
    }
  }

  /** What a read that is not rejected shows of the table. */
  ghost predicate ReadShows(lib: Library, r: ReadOutcome, t: Morsel, names: seq<string>, ps: seq<Predicate>)
    requires t.Valid() && (r.Yields? ==> r.morsel.Valid())
  {
    match r
    case Rejected => ps != []
    case NoMorsels =>
      AllFit(ps, t.SchemaOf().kinds) && lib.dropsEmpty && Indices(PassMask(t, ps)) == []
    case Yields(m) =>
      AllFit(ps, t.SchemaOf().kinds) && View(m, t, Indices(PassMask(t, ps))) && m.names == names
  }

  lemma RugoShows(lib: Library, t: Morsel, ps: seq<Predicate>)
    requires t.Valid()
    ensures ReadShows(lib, Rugo(lib, t, ps), t, t.names, ps)
  {
    IndicesWithin(PassMask(t, ps));
  }

  lemma RenamedView(u: Morsel, t: Morsel, m: Morsel, idx: seq<nat>)
    requires u.Valid() && t.Valid() && m.Valid() && View(m, u, idx) && SameColumns(u, t)
    requires m.names == u.names
    ensures View(Rename(m, t.names), t, idx)
  {
    var r := Rename(m, t.names);
    forall n | n in r.names
      ensures n in t.columns && r.columns[n].kind == t.columns[n].kind &&
              forall j :: 0 <= j < |idx| ==> r.columns[n].cells[j] == t.columns[n].cells[idx[j]]
    {
      var at := Position(t.names, n);
      assert m.names[at] in m.names;
      assert r.columns[n] == m.columns[m.names[at]];
    }
  }

  ghost predicate SameColumns(u: Morsel, t: Morsel)
    requires u.Valid() && t.Valid()
  {
    && u.rows == t.rows && |u.names| == |t.names| && Distinct(t.names)
    && forall k :: 0 <= k < |t.names| ==> u.columns[u.names[k]] == t.columns[t.names[k]]
  }

  /** Reading under one set of names and renaming is reading under the other. */
  lemma RenamedReadShows(lib: Library, u: Morsel, rs: seq<Predicate>, t: Morsel, ps: seq<Predicate>)
    requires u.Valid() && t.Valid() && SameColumns(u, t) && Renamed(u, rs, t, ps)
    ensures var read := Rugo(lib, u, rs);
            ReadShows(lib, if read.Yields? then Yields(Rename(read.morsel, t.names)) else read, t, t.names, ps)
  {
    RenamedFit(u, rs, t, ps);
    RenamedMask(u, rs, t, ps);
    RugoShows(lib, u, rs);
    var read := Rugo(lib, u, rs);
    if read.Yields? {
      RenamedView(u, t, read.morsel, Indices(PassMask(t, ps)));
    }
  }

  lemma CsvShows(lib: Library, src: Source, needed: Option<seq<string>>, ps: seq<Predicate>)
    requires src.Valid() && src.format == Csv && forall p :: p in ps ==> p.column in src.Names()
    requires needed.Some? ==> forall n :: n in needed.value ==> n in src.Names()
    ensures ReadShows(lib, ReadObject(lib, src, needed, ps), Table(src), src.Names(), ps)
  {
    var t, u := Table(src), Named(src.RugoNames(), src.columns, src.rows);
    var rs := RenamePredicates(ps, src.Names(), src.RugoNames());
    RenamedColumns(src, ps);
    RugoColumns(src);
    RenamedReadShows(lib, u, rs, t, ps);
    ReadCsv(lib, src, needed, ps, Rugo(lib, u, rs));
  }

  lemma RugoColumns(src: Source)
    requires src.Valid()
    ensures SameColumns(Named(src.RugoNames(), src.columns, src.rows), Table(src))
  {}

  lemma ReadCsv(lib: Library, src: Source, needed: Option<seq<string>>, ps: seq<Predicate>, read: ReadOutcome)
    requires src.Valid() && src.format == Csv && forall p :: p in ps ==> p.column in src.Names()
    requires needed.Some? ==> forall n :: n in needed.value ==> n in src.Names()
    requires read == Rugo(lib, Named(src.RugoNames(), src.columns, src.rows),
                          RenamePredicates(ps, src.Names(), src.RugoNames()))
    ensures ReadObject(lib, src, needed, ps) == if read.Yields? then Yields(Rename(read.morsel, src.Names())) else read
  {}

  function ColumnsRead(src: Source, needed: Option<seq<string>>): seq<string>
    requires src.Valid()
  {
    if src.format != Csv && needed.Some? then needed.value else src.Names()
  }

  lemma NarrowShows(lib: Library, t: Morsel, read: ReadOutcome, needed: Option<seq<string>>, ps: seq<Predicate>)
    requires t.Valid() && (read.Yields? ==> read.morsel.Valid()) && ReadShows(lib, read, t, t.names, ps)
    requires needed.Some? ==> forall n :: n in needed.value ==> n in t.names
    ensures ReadShows(lib, if read.Yields? then Yields(Narrow(read.morsel, needed)) else read, t,
                      if needed.Some? then needed.value else t.names, ps)
  {}

  /** Whatever the format, a read that is not rejected shows exactly the rows on which all the
      predicates pass, and it is never rejected without predicates. */
  lemma ReadIsExact(lib: Library, src: Source, needed: Option<seq<string>>, ps: seq<Predicate>)
    requires src.Valid() && forall p :: p in ps ==> p.column in src.Names()
    requires needed.Some? ==> forall n :: n in needed.value ==> n in src.Names()
    ensures ReadShows(lib, ReadObject(lib, src, needed, ps), Table(src), ColumnsRead(src, needed), ps)
  {
    if src.format == Csv {
      CsvShows(lib, src, needed, ps);
    } else {
      RugoShows(lib, Table(src), ps);
      NarrowShows(lib, Table(src), Rugo(lib, Table(src), ps), needed, ps);
    }
  }

  // --- Narrowing the columns -----------------------------------------------------------------

  lemma {:induction false} DistinctCount(names: seq<string>)
    requires Distinct(names)
    ensures |set n | n in names| == |names|
  {
    if names != [] {
      var rest := names[1..];
      DistinctCount(rest);
      assert names[0] !in rest;
      assert (set n | n in names) == {names[0]} + (set n | n in rest);
    }
  }

  lemma {:induction false} MatchesDistinct(h: Host, names: seq<string>, name: string)
    requires Distinct(names)
    ensures Distinct(CaseMatches(h, names, name))
  {
    if names != [] {
      MatchesDistinct(h, names[1..], name);
      var rest := CaseMatches(h, names[1..], name);
      assert forall n :: n in rest ==> n in names[1..];
      assert forall i :: 0 <= i < |rest| ==> rest[i] in rest;
    }
  }

  /** A column resolves against the needed names as against all of them. */
  lemma NarrowedNames(h: Host, names: seq<string>, needed: seq<string>, c: Column)
    requires Distinct(needed) && forall n :: n in needed ==> n in names
    requires Resolve(h, names, c).Some? && Resolve(h, names, c).value in needed
    ensures Resolve(h, needed, c) == Resolve(h, names, c)
  {
    var m := Resolve(h, names, c).value;
    if c.name !in names {
      var all, few := CaseMatches(h, names, c.name), CaseMatches(h, needed, c.name);
      assert all == [m];
      assert m in all;
      assert m in few;
      forall n | n in few ensures n == m {
        assert n in all;
      }
      MatchesDistinct(h, needed, c.name);
      DistinctCount(few);
      assert (set n | n in few) == {m};
      assert few[0] in few;
    }
  }

  /** Two schemas that give every column of the condition the same name and kind. */
  ghost predicate SameView(h: Host, s: Schema, t: Schema, c: Condition)
    requires s.Valid() && t.Valid()
  {
    forall col :: col in ColumnsOf(c) ==>
      Resolve(h, s.names, col).Some? && Resolve(h, t.names, col) == Resolve(h, s.names, col) &&
      s.kinds[Resolve(h, s.names, col).value] == t.kinds[Resolve(h, s.names, col).value]
  }

  ghost predicate RowsAgree(s: Schema, row: Row, other: Row)
    requires s.Valid() && RowOf(row, s)
  {
    forall n :: n in s.names ==> n in other && row[n] == other[n]
  }

  /** A condition is typed under a narrower view that still has its columns exactly if it is
      typed on the whole table... */
  lemma {:induction false} NarrowedTyped(h: Host, s: Schema, t: Schema, c: Condition)
    requires s.Valid() && t.Valid() && SameView(h, s, t, c)
    ensures Typed(h, s, c) <==> Typed(h, t, c)
  {
    match c
    case BoolOp(_, l, r) =>
      assert forall col :: col in ColumnsOf(c) <==> col in ColumnsOf(l) || col in ColumnsOf(r);
      NarrowedTyped(h, s, t, l);
      NarrowedTyped(h, s, t, r);
    case Not(x) => NarrowedTyped(h, s, t, x);
    case Comparison(op, l, r) => NarrowedComparisonTyped(h, s, t, op, l, r);
    case Between(o, low, high, _) =>
      BetweenColumns(c);
      NarrowedComparisonTyped(h, s, t, Ge, o, low);
      NarrowedComparisonTyped(h, s, t, Le, o, high);
    case _ =>
      assert c.operand.Col? ==> c.operand.column in ColumnsOf(c);
  }

  /** ... and then it has the same truth there. */
  lemma {:induction false} NarrowedTruth(h: Host, s: Schema, t: Schema, c: Condition, row: Row, full: Row)
    requires s.Valid() && t.Valid() && SameView(h, s, t, c)
    requires RowOf(row, s) && RowOf(full, t) && RowsAgree(s, row, full)
    ensures Typed(h, s, c) && Typed(h, t, c) ==> TruthOf(h, s, row, c) == TruthOf(h, t, full, c)
  {
    match c
    case BoolOp(_, l, r) =>
      assert forall col :: col in ColumnsOf(c) <==> col in ColumnsOf(l) || col in ColumnsOf(r);
      NarrowedTruth(h, s, t, l, row, full);
      NarrowedTruth(h, s, t, r, row, full);
    case Not(x) => NarrowedTruth(h, s, t, x, row, full);
    case Comparison(op, l, r) => NarrowedComparison(h, s, t, op, l, r, row, full);
    case Between(o, low, high, _) =>
      BetweenColumns(c);
      NarrowedComparison(h, s, t, Ge, o, low, row, full);
      NarrowedComparison(h, s, t, Le, o, high, row, full);
    case _ =>
      assert c.operand.Col? ==> c.operand.column in ColumnsOf(c);
  }

  lemma BetweenColumns(c: Condition)
    requires c.Between?
    ensures forall col :: col in ColumnsOf(c) <==>
              col in ColumnsOf(Comparison(Ge, c.operand, c.low)) || col in ColumnsOf(Comparison(Le, c.operand, c.high))
    ensures c.operand.Col? ==> c.operand.column in ColumnsOf(c)
  {}

  lemma NarrowedComparisonTyped(h: Host, s: Schema, t: Schema, op: Op, l: Operand, r: Operand)
    requires s.Valid() && t.Valid() && SameView(h, s, t, Comparison(op, l, r))
    ensures ComparisonTyped(h, s, op, l, r) <==> ComparisonTyped(h, t, op, l, r)
  {
    var c := Comparison(op, l, r);
    assert l.Col? ==> l.column in ColumnsOf(c);
    assert r.Col? ==> r.column in ColumnsOf(c);
  }

  lemma NarrowedComparison(h: Host, s: Schema, t: Schema, op: Op, l: Operand, r: Operand, row: Row, full: Row)
    requires s.Valid() && t.Valid() && SameView(h, s, t, Comparison(op, l, r))
    requires RowOf(row, s) && RowOf(full, t) && RowsAgree(s, row, full)
    ensures ComparisonTyped(h, s, op, l, r) && ComparisonTyped(h, t, op, l, r) ==>
              ComparisonTruth(h, s, row, op, l, r) == ComparisonTruth(h, t, full, op, l, r)
  {
    var c := Comparison(op, l, r);
    assert l.Col? ==> l.column in ColumnsOf(c);
    assert r.Col? ==> r.column in ColumnsOf(c);
  }

  // --- The columns a query needs ---------------------------------------------------------------

  function Deduplicated(s: seq<string>): (r: seq<string>)
    ensures Distinct(r) && forall x :: x in r <==> x in s
  {
    if s == [] then []
    else
      var n := |s| - 1;
      var before := Deduplicated(s[..n]);
      assert forall i :: 0 <= i < |before| ==> before[i] in before;
      assert s == s[..n] + [s[n]];
      if s[n] in before then before else before + [s[n]]
  }

  ghost predicate AllResolve(h: Host, names: seq<string>, columns: seq<Column>) {
    forall c :: c in columns ==> Resolve(h, names, c).Some?
  }

  /** Where a name is first used. */
  function FirstUse(s: seq<string>, x: string): (i: nat)
    requires x in s
    ensures i < |s| && s[i] == x && forall j :: 0 <= j < i ==> s[j] != x
  {
    if s[0] == x then 0 else FirstUse(s[1..], x) + 1
  }

  /** Names are kept in the order of their first use. */
  lemma {:induction false} DeduplicatedInOrder(s: seq<string>, i: nat, j: nat)
    requires i < j < |Deduplicated(s)|
    ensures FirstUse(s, Deduplicated(s)[i]) < FirstUse(s, Deduplicated(s)[j])
  {
    var n := |s| - 1;
    var before, all := Deduplicated(s[..n]), Deduplicated(s);
    assert all[i] in before && before[i] == all[i];
    FirstUseStays(s, n, all[i]);
    if j < |before| {
      assert before[j] in before && before[j] == all[j];
      FirstUseStays(s, n, all[j]);
      DeduplicatedInOrder(s[..n], i, j);
    } else {
      assert all[j] == s[n] && s[n] !in s[..n];
      assert forall k :: 0 <= k < n ==> s[..n][k] != s[n];
    }
  }

  lemma FirstUseStays(s: seq<string>, n: nat, x: string)
    requires n <= |s| && x in s[..n]
    ensures x in s && FirstUse(s, x) == FirstUse(s[..n], x)
  {
    var k := FirstUse(s[..n], x);
    assert s[k] == x;
    assert forall j :: 0 <= j < k ==> s[j] == s[..n][j];
  }

  /** The names some columns resolve to, in order. */
  ghost function ResolvedNames(h: Host, names: seq<string>, columns: seq<Column>): seq<string>
    requires AllResolve(h, names, columns)
  {
    seq(|columns|, i requires 0 <= i < |columns| => assert columns[i] in columns; Resolve(h, names, columns[i]).value)
  }

  /** The resolved names of some columns, in order; None is the error for an unknown one. */
  method ResolveAll(h: Host, names: seq<string>, columns: seq<Column>) returns (r: Option<seq<string>>)
    ensures r.Some? <==> AllResolve(h, names, columns)
    ensures r.Some? ==> r.value == ResolvedNames(h, names, columns)
    ensures r.Some? ==> |r.value| == |columns|
    ensures r.Some? ==> forall i :: 0 <= i < |columns| ==> Resolve(h, names, columns[i]) == Some(r.value[i])
  {
    var found: seq<string> := [];
    for k := 0 to |columns|
      invariant |found| == k
      invariant forall i :: 0 <= i < k ==> Resolve(h, names, columns[i]) == Some(found[i])
    {
      var name := Resolve(h, names, columns[k]);
      if name.None? {
        assert columns[k] in columns;
        return None;
      }
      found := found + [name.value];
    }
    return Some(found);
  }

  function WhereColumns(c: Option<Condition>): seq<Column> {
    if c.None? then [] else ColumnsOf(c.value)
  }

  /** The names a condition uses, each once, in the order of their first use. */
  method ColumnsUsed(h: Host, c: Option<Condition>, names: seq<string>) returns (r: Option<seq<string>>)
    ensures r.Some? <==> AllResolve(h, names, WhereColumns(c))
    ensures r.Some? ==> r.value == Deduplicated(ResolvedNames(h, names, WhereColumns(c)))
    ensures r.Some? ==>
              var used := ResolvedNames(h, names, WhereColumns(c));
              (forall n :: n in r.value ==> n in used) &&
              forall i, j :: 0 <= i < j < |r.value| ==> FirstUse(used, r.value[i]) < FirstUse(used, r.value[j])
    ensures r.Some? ==> Distinct(r.value)
    ensures r.Some? ==> forall n :: n in r.value <==>
              exists x :: x in WhereColumns(c) && Resolve(h, names, x) == Some(n)
  {
    var columns := WhereColumns(c);
    var found := ResolveAll(h, names, columns);
    if found.None? {
      return None;
    }
    assert forall i :: 0 <= i < |columns| ==> columns[i] in columns;
    forall i, j | 0 <= i < j < |Deduplicated(found.value)|
      ensures FirstUse(found.value, Deduplicated(found.value)[i]) < FirstUse(found.value, Deduplicated(found.value)[j])
    {
      DeduplicatedInOrder(found.value, i, j);
    }
    return Some(Deduplicated(found.value));
  }

  // --- What a query answers ---------------------------------------------------------------------

  function ProjectedColumns(q: Query): seq<Column> {
    if q.projection.None? then []
    else seq(|q.projection.value|, i requires 0 <= i < |q.projection.value| => q.projection.value[i].0)
  }

  /** The query has an answer over this table. With a column list, every column of the query has
      to exist; SELECT * only looks up the columns the condition really compares. */
  ghost predicate Defined(h: Host, q: Query, t: Morsel)
    requires t.Valid()
  {
    && WhereTyped(h, t.SchemaOf(), q.where)
    && AllResolve(h, t.names, ProjectedColumns(q))
    && (q.projection.Some? ==> AllResolve(h, t.names, WhereColumns(q.where)))
  }

  datatype Output = Output(columns: seq<(string, seq<Cell>)>, rows: nat)

  /** The rows on which the condition is true, in order. */
  ghost function SelectedRows(h: Host, c: Option<Condition>, t: Morsel): (r: seq<nat>)
    requires t.Valid() && WhereTyped(h, t.SchemaOf(), c)
    ensures Within(r, t.rows)
  {
    var mask := seq(t.rows, i requires 0 <= i < t.rows => Selects(h, t.SchemaOf(), c, t.RowAt(i)));
    IndicesWithin(mask);
    Indices(mask)
  }

  ghost function Limited(limit: Option<nat>, rows: seq<nat>): seq<nat> {
    if limit.Some? && limit.value < |rows| then rows[..limit.value] else rows
  }

  ghost function CellsAt(cells: seq<Cell>, idx: seq<nat>): seq<Cell>
    requires Within(idx, |cells|)
  {
    seq(|idx|, j requires 0 <= j < |idx| => cells[idx[j]])
  }

  /** The selected rows up to the limit, and of those the projected columns. */
  ghost function Answer(h: Host, q: Query, t: Morsel): Output
    requires t.Valid() && Defined(h, q, t)
  {
    var idx := Limited(q.limit, SelectedRows(h, q.where, t));
    if q.projection.None? then
      Output(seq(|t.names|, i requires 0 <= i < |t.names| =>
               assert t.names[i] in t.names; (t.names[i], CellsAt(t.columns[t.names[i]].cells, idx))), |idx|)
    else
      var ps := q.projection.value;
      Output(seq(|ps|, i requires 0 <= i < |ps| =>
               assert ProjectedColumns(q)[i] in ProjectedColumns(q);
               (ps[i].1, CellsAt(t.columns[Resolve(h, t.names, ps[i].0).value].cells, idx))), |idx|)
  }

  /** The rows of an answer: they are selected, in the order of the table, and none is passed over
      unless the limit is reached. */
  ghost predicate FirstSelected(h: Host, q: Query, t: Morsel, idx: seq<nat>)
    requires t.Valid() && WhereTyped(h, t.SchemaOf(), q.where)
  {
    && (forall j :: 0 <= j < |idx| ==> idx[j] < t.rows && Selects(h, t.SchemaOf(), q.where, t.RowAt(idx[j])))
    && (forall j, k :: 0 <= j < k < |idx| ==> idx[j] < idx[k])
    && (forall i :: 0 <= i < t.rows && Selects(h, t.SchemaOf(), q.where, t.RowAt(i)) ==>
          i in idx || (q.limit == Some(|idx|) && forall j :: 0 <= j < |idx| ==> idx[j] < i))
    && (q.limit.Some? ==> |idx| <= q.limit.value)
  }

  lemma SelectedExactly(h: Host, c: Option<Condition>, t: Morsel)
    requires t.Valid() && WhereTyped(h, t.SchemaOf(), c)
    ensures var all := SelectedRows(h, c, t);
            && (forall j :: 0 <= j < |all| ==> all[j] < t.rows && Selects(h, t.SchemaOf(), c, t.RowAt(all[j])))
            && (forall j, k :: 0 <= j < k < |all| ==> all[j] < all[k])
            && (forall i :: 0 <= i < t.rows && Selects(h, t.SchemaOf(), c, t.RowAt(i)) ==> i in all)
  {
    var mask := seq(t.rows, i requires 0 <= i < t.rows => Selects(h, t.SchemaOf(), c, t.RowAt(i)));
    var all := Indices(mask);
    assert all == SelectedRows(h, c, t);
    assert forall j :: 0 <= j < |all| ==> all[j] in all && mask[all[j]];
    assert forall i :: 0 <= i < t.rows && Selects(h, t.SchemaOf(), c, t.RowAt(i)) ==> mask[i];
  }

  lemma LimitedIsFirst(h: Host, q: Query, t: Morsel)
    requires t.Valid() && WhereTyped(h, t.SchemaOf(), q.where)
    ensures FirstSelected(h, q, t, Limited(q.limit, SelectedRows(h, q.where, t)))
  {
    var all := SelectedRows(h, q.where, t);
    var idx := Limited(q.limit, all);
    SelectedExactly(h, q.where, t);
    assert forall j :: 0 <= j < |idx| ==> idx[j] == all[j];
    forall i | 0 <= i < t.rows && Selects(h, t.SchemaOf(), q.where, t.RowAt(i))
      ensures i in idx || (q.limit == Some(|idx|) && forall j :: 0 <= j < |idx| ==> idx[j] < i)
    {
      var k :| 0 <= k < |all| && all[k] == i;
      if k < |idx| { assert idx[k] == i; }
    }
  }

  /** The output column has this name and the cells of this column of the table, row by row. */
  ghost predicate Shows(t: Morsel, idx: seq<nat>, column: (string, seq<Cell>), name: string, source: string)
    requires t.Valid()
  {
    && column.0 == name && |column.1| == |idx| && source in t.names
    && forall j :: 0 <= j < |idx| ==>
         idx[j] < t.rows && source in t.RowAt(idx[j]) && column.1[j] == t.RowAt(idx[j])[source]
  }

  /** The answer has the first selected rows and, of each, the listed columns under their output
      names, or all columns for SELECT *. */
  lemma AnswerIsExact(h: Host, q: Query, t: Morsel) returns (idx: seq<nat>)
    requires t.Valid() && Defined(h, q, t)
    ensures FirstSelected(h, q, t, idx) && Answer(h, q, t).rows == |idx|
    ensures var o := Answer(h, q, t).columns;
            q.projection.None? ==>
              |o| == |t.names| && forall i :: 0 <= i < |o| ==> Shows(t, idx, o[i], t.names[i], t.names[i])
    ensures var o := Answer(h, q, t).columns;
            q.projection.Some? ==>
              var ps := q.projection.value;
              |o| == |ps| && forall i :: 0 <= i < |o| ==>
                Resolve(h, t.names, ps[i].0).Some? &&
                Shows(t, idx, o[i], ps[i].1, Resolve(h, t.names, ps[i].0).value)
  {
    idx := Limited(q.limit, SelectedRows(h, q.where, t));
    LimitedIsFirst(h, q, t);
    if q.projection.None? {
      AllColumnsShown(h, q, t, idx);
    } else {
      forall i | 0 <= i < |q.projection.value|
        ensures Resolve(h, t.names, q.projection.value[i].0).Some?
        ensures Shows(t, idx, Answer(h, q, t).columns[i], q.projection.value[i].1,
                      Resolve(h, t.names, q.projection.value[i].0).value)
      {
        ListedColumnShown(h, q, t, idx, i);
      }
    }
  }

  lemma AllColumnsShown(h: Host, q: Query, t: Morsel, idx: seq<nat>)
    requires t.Valid() && Defined(h, q, t) && q.projection.None?
    requires idx == Limited(q.limit, SelectedRows(h, q.where, t))
    ensures var o := Answer(h, q, t).columns;
            |o| == |t.names| && forall i :: 0 <= i < |o| ==> Shows(t, idx, o[i], t.names[i], t.names[i])
  {
    assert forall i :: 0 <= i < |t.names| ==> t.names[i] in t.names;
  }

  lemma ListedColumnShown(h: Host, q: Query, t: Morsel, idx: seq<nat>, i: nat)
    requires t.Valid() && Defined(h, q, t) && q.projection.Some? && i < |q.projection.value|
    requires idx == Limited(q.limit, SelectedRows(h, q.where, t))
    ensures Resolve(h, t.names, q.projection.value[i].0).Some?
    ensures Shows(t, idx, Answer(h, q, t).columns[i], q.projection.value[i].1,
                  Resolve(h, t.names, q.projection.value[i].0).value)
  {
    assert ProjectedColumns(q)[i] == q.projection.value[i].0 && q.projection.value[i].0 in ProjectedColumns(q);
  }

  // --- From the reader's rows to the selected rows -------------------------------------------------

  /** Row j of a view is row idx[j] of the table, as far as the view's columns go. */
  lemma ViewRow(m: Morsel, t: Morsel, idx: seq<nat>, j: nat)
    requires m.Valid() && t.Valid() && View(m, t, idx) && j < |idx|
    ensures RowsAgree(m.SchemaOf(), m.RowAt(j), t.RowAt(idx[j]))
  {}

  /** The view has every column of the condition under the name it has in the table. */
  ghost predicate Covers(h: Host, m: Morsel, t: Morsel, c: Option<Condition>)
    requires m.Valid() && t.Valid()
  {
    c.Some? ==> SameView(h, m.SchemaOf(), t.SchemaOf(), c.value) || m.SchemaOf() == t.SchemaOf()
  }

  lemma ViewTruth(h: Host, m: Morsel, t: Morsel, idx: seq<nat>, c: Condition, j: nat)
    requires m.Valid() && t.Valid() && View(m, t, idx) && Covers(h, m, t, Some(c)) && j < |idx|
    requires Typed(h, m.SchemaOf(), c) && Typed(h, t.SchemaOf(), c)
    ensures TruthOf(h, m.SchemaOf(), m.RowAt(j), c) == TruthOf(h, t.SchemaOf(), t.RowAt(idx[j]), c)
  {
    ViewRow(m, t, idx, j);
    if m.SchemaOf() == t.SchemaOf() {
      assert m.RowAt(j) == t.RowAt(idx[j]);
    } else {
      NarrowedTruth(h, m.SchemaOf(), t.SchemaOf(), c, m.RowAt(j), t.RowAt(idx[j]));
    }
  }

  lemma {:induction false} ConjunctsCover(c: Condition, col: Column)
    ensures col in ColumnsOf(c) <==> exists x :: x in ConjunctsOf(c) && col in ColumnsOf(x)
  {
    if c.BoolOp? && c.connective == And {
      ConjunctsCover(c.lhs, col);
      ConjunctsCover(c.rhs, col);
      assert forall x :: x in ConjunctsOf(c) <==> x in ConjunctsOf(c.lhs) || x in ConjunctsOf(c.rhs);
    } else {
      assert c in ConjunctsOf(c);
    }
  }

  /** A residual condition is made of conjuncts of the condition it comes from. */
  ghost predicate PartOf(residual: Option<Condition>, c: Option<Condition>) {
    forall x :: x in Conjuncts(residual) ==> x in Conjuncts(c)
  }

  lemma ResidualColumns(residual: Condition, c: Option<Condition>, col: Column)
    requires PartOf(Some(residual), c) && col in ColumnsOf(residual)
    ensures col in WhereColumns(c)
  {
    ConjunctsCover(residual, col);
    var x :| x in ConjunctsOf(residual) && col in ColumnsOf(x);
    assert x in Conjuncts(c);
    ConjunctsCover(c.value, col);
  }

  /** Predicates and residual that together select what the condition selects. */
  ghost predicate Splits(h: Host, t: Morsel, c: Option<Condition>, ps: seq<Predicate>, residual: Option<Condition>)
    requires t.Valid()
  {
    var s := t.SchemaOf();
    && PartOf(residual, c)
    && (WhereTyped(h, s, c) <==> WhereTyped(h, s, residual))
    && (WhereTyped(h, s, c) ==> forall row :: RowOf(row, s) ==>
          (Selects(h, s, c, row) <==> AllPass(ps, row) && Selects(h, s, residual, row)))
  }

  ghost function SelectMask(h: Host, c: Option<Condition>, t: Morsel): (r: seq<bool>)
    requires t.Valid() && WhereTyped(h, t.SchemaOf(), c)
    ensures |r| == t.rows && Indices(r) == SelectedRows(h, c, t)
    ensures forall i :: 0 <= i < t.rows ==> (r[i] <==> Selects(h, t.SchemaOf(), c, t.RowAt(i)))
  {
    seq(t.rows, i requires 0 <= i < t.rows => Selects(h, t.SchemaOf(), c, t.RowAt(i)))
  }

  /** With nothing left to evaluate, the reader has already selected the rows. */
  lemma ReaderSelects(h: Host, t: Morsel, c: Option<Condition>, ps: seq<Predicate>)
    requires t.Valid() && WhereTyped(h, t.SchemaOf(), c) && Splits(h, t, c, ps, None)
    ensures Indices(PassMask(t, ps)) == SelectedRows(h, c, t)
  {
    assert PassMask(t, ps) == SelectMask(h, c, t);
  }

  /** Filtering the reader's rows by the residual's mask leaves the selected rows. */
  lemma MaskSelects(h: Host, t: Morsel, m: Morsel, c: Option<Condition>, ps: seq<Predicate>,
                    residual: Condition, mask: Mask)
    requires t.Valid() && m.Valid() && View(m, t, Indices(PassMask(t, ps)))
    requires WhereTyped(h, t.SchemaOf(), c) && Splits(h, t, c, ps, Some(residual))
    requires Covers(h, m, t, Some(residual))
    requires Typed(h, m.SchemaOf(), residual) && Correct(h, m, residual, mask)
    ensures Within(Indices(Trues(mask)), m.rows)
    ensures Compose(Indices(PassMask(t, ps)), Indices(Trues(mask))) == SelectedRows(h, c, t)
  {
    var a, b, all := PassMask(t, ps), Trues(mask), SelectMask(h, c, t);
    IndicesWithin(a);
    IndicesWithin(b);
    forall j | 0 <= j < |b| ensures b[j] == all[Indices(a)[j]] {
      var i := Indices(a)[j];
      assert i in Indices(a);
      ViewTruth(h, m, t, Indices(a), residual, j);
    }
    FilterTwice(a, b, all);
  }

  lemma {:induction false} NoneTrue(mask: seq<bool>)
    requires forall i :: 0 <= i < |mask| ==> !mask[i]
    ensures Indices(mask) == []
  {
    if mask != [] {
      NoneTrue(mask[..|mask| - 1]);
    }
  }

  lemma NoRowsNoneSelected(h: Host, t: Morsel, c: Option<Condition>, ps: seq<Predicate>, residual: Option<Condition>)
    requires t.Valid() && WhereTyped(h, t.SchemaOf(), c) && Splits(h, t, c, ps, residual)
    requires Indices(PassMask(t, ps)) == []
    ensures SelectedRows(h, c, t) == []
  {
    var mask, passes := SelectMask(h, c, t), PassMask(t, ps);
    forall i | 0 <= i < t.rows ensures !mask[i] {
      assert passes[i] ==> i in Indices(passes);
    }
    NoneTrue(mask);
  }

  lemma TakeView(m: Morsel, t: Morsel, idx: seq<nat>, n: nat)
    requires m.Valid() && t.Valid() && View(m, t, idx) && n <= m.rows
    ensures View(Take(m, n), t, idx[..n])
  {
    assert Compose(idx, FirstRows(n)) == idx[..n];
    GatherView(m, t, idx, FirstRows(n));
  }

  // --- Covering views -------------------------------------------------------------------------------

  lemma WholeViewCovers(h: Host, m: Morsel, t: Morsel, idx: seq<nat>, c: Option<Condition>)
    requires m.Valid() && t.Valid() && View(m, t, idx) && m.names == t.names
    ensures Covers(h, m, t, c)
  {
    assert m.SchemaOf().kinds == t.SchemaOf().kinds;
  }

  /** The names read for a query with a column list: all it uses, each once. */
  ghost predicate NeededNames(h: Host, q: Query, names: seq<string>, needed: seq<string>) {
    && Distinct(needed) && (forall n :: n in needed ==> n in names)
    && forall c :: c in ProjectedColumns(q) || c in WhereColumns(q.where) ==>
         Resolve(h, names, c).Some? && Resolve(h, names, c).value in needed
  }

  lemma NarrowViewCovers(h: Host, q: Query, m: Morsel, t: Morsel, idx: seq<nat>, residual: Option<Condition>)
    requires m.Valid() && t.Valid() && View(m, t, idx) && NeededNames(h, q, t.names, m.names)
    requires PartOf(residual, q.where)
    ensures Covers(h, m, t, residual)
  {
    if residual.Some? {
      forall col | col in ColumnsOf(residual.value)
        ensures Resolve(h, m.names, col).Some? && Resolve(h, t.names, col) == Resolve(h, m.names, col) &&
                m.SchemaOf().kinds[Resolve(h, m.names, col).value] ==
                t.SchemaOf().kinds[Resolve(h, m.names, col).value]
      {
        ResidualColumns(residual.value, q.where, col);
        NarrowedNames(h, t.names, m.names, col);
      }
    }
  }

  // --- The output ----------------------------------------------------------------------------------------

  /** `morsel.select(sources).rename(aliases)`, or every column for SELECT *. */
  function Project(m: Morsel, projection: Option<seq<(Column, string)>>, sources: seq<string>): Output
    requires m.Valid()
    requires projection.Some? ==> |sources| == |projection.value| && forall n :: n in sources ==> n in m.names
  {
    if projection.None? then
      Output(seq(|m.names|, i requires 0 <= i < |m.names| =>
               assert m.names[i] in m.names; (m.names[i], m.columns[m.names[i]].cells)), m.rows)
    else
      Output(seq(|sources|, i requires 0 <= i < |sources| =>
               assert sources[i] in sources; (projection.value[i].1, m.columns[sources[i]].cells)), m.rows)
  }

  lemma ProjectIsAnswer(h: Host, q: Query, t: Morsel, m: Morsel, sources: seq<string>)
    requires t.Valid() && m.Valid() && Defined(h, q, t)
    requires View(m, t, Limited(q.limit, SelectedRows(h, q.where, t)))
    requires q.projection.None? ==> m.names == t.names
    requires q.projection.Some? ==>
               |sources| == |q.projection.value| &&
               forall i :: 0 <= i < |sources| ==>
                 sources[i] in m.names && Resolve(h, t.names, q.projection.value[i].0) == Some(sources[i])
    ensures forall n :: n in sources ==> q.projection.Some? ==> n in m.names
    ensures Project(m, q.projection, sources) == Answer(h, q, t)
  {
    var idx := Limited(q.limit, SelectedRows(h, q.where, t));
    forall n | n in m.names ensures m.columns[n].cells == CellsAt(t.columns[n].cells, idx) {}
    var got, want := Project(m, q.projection, sources), Answer(h, q, t);
    assert |got.columns| == |want.columns|;
    if q.projection.None? {
      forall i | 0 <= i < |t.names| ensures got.columns[i] == want.columns[i] {
        assert t.names[i] in t.names;
      }
    } else {
      forall i | 0 <= i < |sources| ensures got.columns[i] == want.columns[i] {
        assert sources[i] in sources;
      }
    }
    assert got.columns == want.columns;
  }

  // --- Running a query ---------------------------------------------------------------------------------------

  /** `NoMorsel` is the reader's way of yielding nothing; it is streamed as no rows. */
  datatype Outcome = SqlError | NoMorsel | Rows(output: Output)

  /** How a source is described to the planner. */
  lemma DescriptionFits(src: Source)
    requires src.Valid()
    ensures Describe(src).0 == Table(src).names
    ensures CapabilityOf(src.format).Some? ==>
              Described(Table(src).SchemaOf(), Describe(src).1, CapabilityOf(src.format).value)
  {}

  lemma PlanSplits(h: Host, t: Morsel, typed: bool, c: Option<Condition>, ps: seq<Predicate>,
                   residual: Option<Condition>)
    requires t.Valid() && SplitIsExact(h, t.SchemaOf(), typed, Conjuncts(c), ps, Conjuncts(residual))
    requires AllFit(ps, t.SchemaOf().kinds)
    ensures Splits(h, t, c, ps, residual)
  {
    SplitOnClauses(h, t.SchemaOf(), typed, c, ps, residual);
  }

  /** Resolving the columns of a column list and collecting all the query needs. */
  method Needed(h: Host, q: Query, names: seq<string>) returns (r: Option<(seq<string>, seq<string>)>)
    requires q.projection.Some?
    ensures r.None? <==> !(AllResolve(h, names, ProjectedColumns(q)) && AllResolve(h, names, WhereColumns(q.where)))
    ensures r.Some? ==> |r.value.0| == |q.projection.value| && NeededNames(h, q, names, r.value.1)
    ensures r.Some? ==> forall i :: 0 <= i < |r.value.0| ==>
              r.value.0[i] in r.value.1 && Resolve(h, names, q.projection.value[i].0) == Some(r.value.0[i])
  {
    var projected := ProjectedColumns(q);
    var sources := ResolveAll(h, names, projected);
    if sources.None? {
      return None;
    }
    var used := ColumnsUsed(h, q.where, names);
    if used.None? {
      return None;
    }
    var needed := Deduplicated(sources.value + used.value);
    assert forall i :: 0 <= i < |projected| ==> projected[i] == q.projection.value[i].0;
    AllAreNeeded(h, names, projected, WhereColumns(q.where), sources.value, used.value);
    return Some((sources.value, needed));
  }

  lemma AllAreNeeded(h: Host, names: seq<string>, projected: seq<Column>, compared: seq<Column>,
                     sources: seq<string>, used: seq<string>)
    requires |sources| == |projected|
    requires forall i :: 0 <= i < |projected| ==> Resolve(h, names, projected[i]) == Some(sources[i])
    requires AllResolve(h, names, compared)
    requires forall n :: n in used <==> exists x :: x in compared && Resolve(h, names, x) == Some(n)
    ensures var needed := Deduplicated(sources + used);
            && Distinct(needed) && (forall n :: n in needed ==> n in names)
            && (forall i :: 0 <= i < |sources| ==> sources[i] in needed)
            && forall c :: c in projected || c in compared ==>
                 Resolve(h, names, c).Some? && Resolve(h, names, c).value in needed
  {
    var all := sources + used;
    assert forall i :: 0 <= i < |sources| ==> all[i] == sources[i];
    forall c | c in projected ensures Resolve(h, names, c).Some? && Resolve(h, names, c).value in all {
      var i :| 0 <= i < |projected| && projected[i] == c;
      assert sources[i] in all;
    }
    forall n | n in all ensures n in names {
      if n in sources {
        var i :| 0 <= i < |sources| && sources[i] == n;
        assert Resolve(h, names, projected[i]).Some?;
      }
    }
  }

  /** What is left once the reader has yielded a morsel: the residual and the limit. */
  method FilterAndLimit(h: Host, q: Query, residual: Option<Condition>, m: Morsel, ghost t: Morsel,
                        ghost ps: seq<Predicate>)
    returns (r: Option<Morsel>)
    requires t.Valid() && m.Valid() && View(m, t, Indices(PassMask(t, ps)))
    requires Splits(h, t, q.where, ps, residual) && Covers(h, m, t, residual)
    ensures r.Some? <==> WhereTyped(h, t.SchemaOf(), q.where)
    ensures r.Some? ==> r.value.Valid() && r.value.names == m.names
    ensures r.Some? ==> View(r.value, t, Limited(q.limit, SelectedRows(h, q.where, t)))
  {
    ghost var idx := Indices(PassMask(t, ps));
    var morsel := m;
    if residual.Some? {
      if m.SchemaOf() != t.SchemaOf() {
        NarrowedTyped(h, m.SchemaOf(), t.SchemaOf(), residual.value);
      }
      var mask := CompileMask(h, residual.value, morsel);
      if mask.None? {
        return None;
      }
      MaskSelects(h, t, m, q.where, ps, residual.value, mask.value);
      GatherView(m, t, idx, Indices(Trues(mask.value)));
      morsel := FilterMask(morsel, mask.value);
    } else {
      ReaderSelects(h, t, q.where, ps);
    }
    if q.limit.Some? && q.limit.value < morsel.rows {
      TakeView(morsel, t, SelectedRows(h, q.where, t), q.limit.value);
      morsel := Take(morsel, q.limit.value);
    }
    return Some(morsel);
  }

  lemma NothingPushed(h: Host, t: Morsel, c: Option<Condition>)
    requires t.Valid()
    ensures Splits(h, t, c, [], c)
  {}

  /** Planning and reading; a refused read is done again without predicates, and then the whole
      condition is left to evaluate. None is the error raised while planning. */
  method PlanAndRead(h: Host, lib: Library, c: Option<Condition>, src: Source,
                     needed: Option<seq<string>>, pushdown: bool)
    returns (r: Option<(ReadOutcome, Option<Condition>)>, ghost ps: seq<Predicate>)
    requires src.Valid()
    requires needed.Some? ==> forall n :: n in needed.value ==> n in src.Names()
    ensures r.None? ==> pushdown && !WhereTyped(h, Table(src).SchemaOf(), c)
    ensures r.Some? ==> r.value.0 == ReadObject(lib, src, needed, []) || pushdown
    ensures r.Some? ==> !r.value.0.Rejected? && (r.value.0.Yields? ==> r.value.0.morsel.Valid())
    ensures r.Some? ==> Splits(h, Table(src), c, ps, r.value.1)
    ensures r.Some? ==> ReadShows(lib, r.value.0, Table(src), ColumnsRead(src, needed), ps)
    ensures !pushdown ==> ps == []
  {
    ghost var t := Table(src);
    var predicates, residual := [], c;
    ps := [];
    NothingPushed(h, t, c);
    if pushdown {
      DescriptionFits(src);
      var (names, kinds) := Describe(src);
      var planned := MakePlan(h, c, names, kinds, src.format, t.SchemaOf());
      if planned.None? {
        return None, ps;
      }
      predicates, residual := planned.value.0, planned.value.1;
      ps := predicates;
    }
    var read := ReadObject(lib, src, needed, predicates);
    ReadIsExact(lib, src, needed, predicates);
    if read.Rejected? {
      read := ReadObject(lib, src, needed, []);
      ReadIsExact(lib, src, needed, []);
      residual := c;
      ps := [];
    } else if pushdown {
      PlanSplits(h, t, CapabilityOf(src.format).Some? && CapabilityOf(src.format).value.typed, c, ps, residual);
    }
    return Some((read, residual)), ps;
  }

  lemma EverythingPasses(t: Morsel)
    requires t.Valid()
    ensures t.rows > 0 ==> 0 in Indices(PassMask(t, []))
  {
    assert t.rows > 0 ==> PassMask(t, [])[0];
  }

  lemma ReadCovers(h: Host, q: Query, src: Source, needed: Option<seq<string>>, m: Morsel,
                   idx: seq<nat>, residual: Option<Condition>)
    requires src.Valid() && m.Valid() && View(m, Table(src), idx) && PartOf(residual, q.where)
    requires needed.Some? ==> NeededNames(h, q, src.Names(), needed.value)
    requires m.names == ColumnsRead(src, needed)
    ensures Covers(h, m, Table(src), residual)
  {
    if src.format != Csv && needed.Some? {
      NarrowViewCovers(h, q, m, Table(src), idx, residual);
    } else {
      WholeViewCovers(h, m, Table(src), idx, residual);
    }
  }

  /** From the morsel read to the output: the residual, the limit and the column list. */
  method Evaluate(h: Host, q: Query, sources: seq<string>, residual: Option<Condition>, m: Morsel,
                  ghost t: Morsel, ghost ps: seq<Predicate>)
    returns (r: Option<Output>)
    requires t.Valid() && m.Valid() && View(m, t, Indices(PassMask(t, ps)))
    requires Splits(h, t, q.where, ps, residual) && Covers(h, m, t, residual)
    requires AllResolve(h, t.names, ProjectedColumns(q))
    requires q.projection.None? ==> m.names == t.names
    requires q.projection.Some? ==> AllResolve(h, t.names, WhereColumns(q.where))
    requires q.projection.Some? ==>
               |sources| == |q.projection.value| &&
               forall i :: 0 <= i < |sources| ==>
                 sources[i] in m.names && Resolve(h, t.names, q.projection.value[i].0) == Some(sources[i])
    ensures r.Some? <==> Defined(h, q, t)
    ensures r.Some? ==> r.value == Answer(h, q, t)
  {
    var morsel := FilterAndLimit(h, q, residual, m, t, ps);
    if morsel.None? {
      return None;
    }
    ProjectIsAnswer(h, q, t, morsel.value, sources);
    return Some(Project(morsel.value, q.projection, sources));
  }

  /** A SELECT answers its query: with or without pushdown, whatever the format, and whether or
      not the reader refuses the predicates. It fails only where the query has no answer. */
  method Run(h: Host, lib: Library, q: Query, src: Source, pushdown: bool) returns (r: Outcome)
    requires src.Valid()
    ensures Defined(h, q, Table(src)) && r != NoMorsel ==> r == Rows(Answer(h, q, Table(src)))
    ensures Defined(h, q, Table(src)) && r == NoMorsel ==> Answer(h, q, Table(src)).rows == 0
    ensures !Defined(h, q, Table(src)) ==> !r.Rows?
    ensures r == NoMorsel ==> lib.dropsEmpty && (!pushdown ==> src.rows == 0)
  {
    ghost var t := Table(src);
    var (names, kinds) := Describe(src);
    var sources, needed: Option<seq<string>> := [], None;
    if q.projection.Some? {
      var columns := Needed(h, q, names);
      if columns.None? {
        return SqlError;
      }
      sources, needed := columns.value.0, Some(columns.value.1);
    }
    assert AllResolve(h, t.names, ProjectedColumns(q));
    var read, ps := PlanAndRead(h, lib, q.where, src, needed, pushdown);
    if read.None? {
      return SqlError;
    }
    var residual := read.value.1;
    if read.value.0.NoMorsels? {
      NothingIsSelected(h, q, t, ps, residual);
      if !pushdown {
        EverythingPasses(t);
      }
      return NoMorsel;
    }
    ghost var idx := Indices(PassMask(t, ps));
    ReadCovers(h, q, src, needed, read.value.0.morsel, idx, residual);
    var output := Evaluate(h, q, sources, residual, read.value.0.morsel, t, ps);
    return if output.None? then SqlError else Rows(output.value);
  }

  lemma NothingIsSelected(h: Host, q: Query, t: Morsel, ps: seq<Predicate>, residual: Option<Condition>)
    requires t.Valid() && Splits(h, t, q.where, ps, residual) && Indices(PassMask(t, ps)) == []
    ensures Defined(h, q, t) ==> Answer(h, q, t).rows == 0
  {
    if WhereTyped(h, t.SchemaOf(), q.where) {
      NoRowsNoneSelected(h, t, q.where, ps, residual);
    }
  }
}
