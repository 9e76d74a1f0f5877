/** Running a query over an object: narrowing the columns, pushing predicates into the
    reader, filtering by the residual, LIMIT and projection. */
module Select {
  import opened Wrappers
  import opened Values
  import opened Rows
  import opened Masks
  import opened Plan
  import Decimal

  // --- Row positions -----------------------------------------------------------------

  /** The positions at which the mask is true, in ascending order. */
  function Indices(mask: seq<bool>): (r: seq<nat>)
    ensures forall i :: i in r <==> 0 <= i < |mask| && mask[i]
    ensures forall i, j :: 0 <= i < j < |r| ==> r[i] < r[j]
  {
    if mask == [] then []
    else
      var n := |mask| - 1;
      var before := Indices(mask[..n]);
      assert forall i :: 0 <= i < |before| ==> before[i] in before;
      if mask[n] then before + [n] else before
  }

  ghost predicate Within(idx: seq<nat>, n: nat) { forall j :: 0 <= j < |idx| ==> idx[j] < n }

  lemma IndicesWithin(mask: seq<bool>)
    ensures Within(Indices(mask), |mask|)
  {
    var r := Indices(mask);
    assert forall j :: 0 <= j < |r| ==> r[j] in r;
  }

  /** The positions `f` picks out of the positions `idx`. */
  function Compose(idx: seq<nat>, f: seq<nat>): seq<nat>
    requires Within(f, |idx|)
  {
    seq(|f|, j requires 0 <= j < |f| => idx[f[j]])
  }

  lemma ComposeGrows(idx: seq<nat>, n: nat, f: seq<nat>)
    requires Within(f, |idx|)
    ensures Compose(idx + [n], f) == Compose(idx, f)
    ensures Compose(idx + [n], f + [|idx|]) == Compose(idx, f) + [n]
  {}

  lemma IndicesGrow(mask: seq<bool>)
    requires mask != []
    ensures var n := |mask| - 1;
            Indices(mask) == if mask[n] then Indices(mask[..n]) + [n] else Indices(mask[..n])
  {}

  /** Filtering by `a` and then filtering what is left by `b` is filtering once by `c`. */
  lemma {:induction false} FilterTwice(a: seq<bool>, b: seq<bool>, c: seq<bool>)
    requires |a| == |c| && |b| == |Indices(a)| && Within(Indices(a), |a|) && Within(Indices(b), |b|)
    requires forall i :: 0 <= i < |c| && c[i] ==> a[i]
    requires forall j :: 0 <= j < |b| ==> b[j] == c[Indices(a)[j]]
    ensures Compose(Indices(a), Indices(b)) == Indices(c)
    decreases |a|
  {
    if a != [] {
      var n := |a| - 1;
      var ia := Indices(a[..n]);
      IndicesWithin(a[..n]);
      IndicesGrow(a);
      IndicesGrow(c);
      if a[n] {
        var k := |ia|;
        IndicesWithin(b[..k]);
        IndicesGrow(b);
        assert forall j :: 0 <= j < k ==> b[..k][j] == c[..n][ia[j]];
        FilterTwice(a[..n], b[..k], c[..n]);
        ComposeGrows(ia, n, Indices(b[..k]));
        assert b[k] == c[n];
      } else {
        FilterTwice(a[..n], b, c[..n]);
      }
    }
  }

  // --- Morsel operations ---------------------------------------------------------------

  function Gather(m: Morsel, idx: seq<nat>): (r: Morsel)
    requires m.Valid() && Within(idx, m.rows)
    ensures r.Valid() && r.SchemaOf() == m.SchemaOf()
  {
    var r := Morsel(m.names,
      map n | n in m.columns :: ColumnData(m.columns[n].kind, seq(|idx|, j requires 0 <= j < |idx| =>
        m.columns[n].cells[idx[j]])),
      |idx|);
    assert r.SchemaOf().kinds == m.SchemaOf().kinds;
    r
  }

  function Trues(mask: Mask): (r: seq<bool>)
    ensures |r| == |mask| && forall i :: 0 <= i < |r| ==> (r[i] <==> mask[i] == True)
  {
    seq(|mask|, i requires 0 <= i < |mask| => mask[i] == True)
  }

  function FilterMask(m: Morsel, mask: Mask): (r: Morsel)
    requires m.Valid() && |mask| == m.rows
    ensures r.Valid() && r.SchemaOf() == m.SchemaOf()
  {
    IndicesWithin(Trues(mask));
    Gather(m, Indices(Trues(mask)))
  }

  function FirstRows(n: nat): (r: seq<nat>)
    ensures |r| == n && Within(r, n)
  {
    seq(n, i requires 0 <= i => i)
  }

  /** `morsel.take(range(n))` */
  function Take(m: Morsel, n: nat): (r: Morsel)
    requires m.Valid() && n <= m.rows
    ensures r.Valid() && r.SchemaOf() == m.SchemaOf()
  {
    Gather(m, FirstRows(n))
  }

  /** Only the needed columns; None reads all of them. */
  function Narrow(m: Morsel, needed: Option<seq<string>>): (r: Morsel)
    requires m.Valid() && (needed.Some? ==> forall n :: n in needed.value ==> n in m.names)
    ensures r.Valid()
  {
    if needed.None? then m
    else Morsel(needed.value, map n | n in needed.value :: m.columns[n], m.rows)
  }

  /** `m` shows rows `idx` of `t`, in that order, with some of its columns. */
  ghost predicate View(m: Morsel, t: Morsel, idx: seq<nat>)
    requires m.Valid() && t.Valid()
  {
    && Within(idx, t.rows) && m.rows == |idx|
    && forall n :: n in m.names ==>
         n in t.columns && m.columns[n].kind == t.columns[n].kind &&
         forall j :: 0 <= j < |idx| ==> m.columns[n].cells[j] == t.columns[n].cells[idx[j]]
  }

  lemma GatherView(m: Morsel, t: Morsel, idx: seq<nat>, f: seq<nat>)
    requires m.Valid() && t.Valid() && View(m, t, idx) && Within(f, m.rows)
    ensures View(Gather(m, f), t, Compose(idx, f))
  {}

  // --- The object and its reader ---------------------------------------------------------

  datatype HeaderInfo = Use | Ignore | NoHeader

  /** An object's columns by position. `header` holds the names in the file; for CSV it is the
      first line, whatever `info` says about its use. */
  datatype Source = Source(format: Format, header: seq<string>, info: HeaderInfo,
                           columns: seq<ColumnData>, rows: nat) {
    ghost predicate Valid() {
      && |header| == |columns| && Distinct(header)
      && (forall i :: 0 <= i < |columns| ==> |columns[i].cells| == rows)
      && (forall i, j :: 0 <= i < |columns| && 0 <= j < rows && columns[i].cells[j].Some? ==>
            Sort(columns[i].cells[j].value) == SortOf(columns[i].kind))
    }

    /** The names queries use: the header, or _1, _2... for CSV whose header is not used. */
    function Names(): (r: seq<string>)
      requires Valid()
      ensures |r| == |columns| && Distinct(r)
      ensures format == Csv && info != Use ==> forall i :: 0 <= i < |r| ==> r[i] == "_" + Decimal.Show(i + 1)
      ensures format != Csv || info == Use ==> r == header
    {
      if format == Csv && info != Use then Numbered("_", 1, |header|) else header
    }

    /** The names rugo gives the columns of a CSV file. */
    function RugoNames(): (r: seq<string>)
      requires Valid()
      ensures |r| == |columns| && Distinct(r)
      ensures info == NoHeader ==> forall i :: 0 <= i < |r| ==> r[i] == "col_" + Decimal.Show(i)
    {
      if info != NoHeader then header else Numbered("col_", 0, |header|)
    }
  }

  predicate Distinct(names: seq<string>) {
    forall i, j :: 0 <= i < j < |names| ==> names[i] != names[j]
  }

  function Numbered(stem: string, first: nat, count: nat): (r: seq<string>)
    ensures |r| == count && Distinct(r)
    ensures forall i :: 0 <= i < count ==> r[i] == stem + Decimal.Show(first + i)
  {
    var r := seq(count, i requires 0 <= i => stem + Decimal.Show(first + i));
    assert Distinct(r) by {
      forall i, j | 0 <= i < j < count ensures r[i] != r[j] {
        Decimal.ReadUndoesShow(first + i);
        Decimal.ReadUndoesShow(first + j);
        assert r[i][|stem|..] == Decimal.Show(first + i) && r[j][|stem|..] == Decimal.Show(first + j);
      }
    }
    r
  }

  /** The columns under the given names. */
  function Named(names: seq<string>, columns: seq<ColumnData>, rows: nat): (m: Morsel)
    requires |names| == |columns| && Distinct(names)
    requires forall i :: 0 <= i < |columns| ==> |columns[i].cells| == rows
    requires forall i, j :: 0 <= i < |columns| && 0 <= j < rows && columns[i].cells[j].Some? ==>
               Sort(columns[i].cells[j].value) == SortOf(columns[i].kind)
    ensures m.Valid() && m.names == names && m.rows == rows
    ensures forall i :: 0 <= i < |names| ==> m.columns[names[i]] == columns[i]
  {
    Morsel(names, map n | n in names :: columns[Position(names, n)], rows)
  }

  function Position(names: seq<string>, n: string): (i: nat)
    requires n in names
    ensures i < |names| && names[i] == n
  {
    if names[0] == n then 0 else 1 + Position(names[1..], n)
  }

  /** The whole object under the names queries use. */
  function Table(src: Source): (m: Morsel)
    requires src.Valid()
    ensures m.Valid() && m.names == src.Names() && m.rows == src.rows
  {
    Named(src.Names(), src.columns, src.rows)
  }

  /** Names, and for formats that record types, kinds. */
  function Describe(src: Source): (seq<string>, map<string, Kind>)
    requires src.Valid()
  {
    (src.Names(), if src.format == Csv then map[] else Table(src).SchemaOf().kinds)
  }

  /** What the reader library decides: which predicates it refuses besides those whose literal
      is of the wrong type, and whether it yields no morsel at all when no row is left. */
  datatype Library = Library(refuses: seq<Predicate> -> bool, dropsEmpty: bool)

  datatype ReadOutcome = Rejected | NoMorsels | Yields(morsel: Morsel)

  function PassMask(m: Morsel, ps: seq<Predicate>): (mask: seq<bool>)
    requires m.Valid()
    ensures |mask| == m.rows
    ensures forall i :: 0 <= i < m.rows ==> (mask[i] <==> AllPass(ps, m.RowAt(i)))
  {
    seq(m.rows, i requires 0 <= i < m.rows => AllPass(ps, m.RowAt(i)))
  }

  /** A reader either rejects the predicates or keeps exactly the rows on which all pass. */
  function Rugo(lib: Library, m: Morsel, ps: seq<Predicate>): (r: ReadOutcome)
    requires m.Valid()
    ensures r.Yields? ==> r.morsel.Valid() && r.morsel.names == m.names
  {
    if ps != [] && (!AllFit(ps, m.SchemaOf().kinds) || lib.refuses(ps)) then Rejected
    else
      IndicesWithin(PassMask(m, ps));
      var kept := Gather(m, Indices(PassMask(m, ps)));
      if kept.rows == 0 && lib.dropsEmpty then NoMorsels else Yields(kept)
  }

  function RenamePredicates(ps: seq<Predicate>, names: seq<string>, rugo: seq<string>): seq<Predicate>
    requires |names| == |rugo| && forall p :: p in ps ==> p.column in names
  {
    seq(|ps|, i requires 0 <= i < |ps| => ps[i].(column := rugo[Position(names, ps[i].column)]))
  }

  function Rename(m: Morsel, names: seq<string>): (r: Morsel)
    requires m.Valid() && |names| == |m.names| && Distinct(names)
    ensures r.Valid()
  {
    Morsel(names, map n | n in names :: m.columns[m.names[Position(names, n)]], m.rows)
  }

  /** Reading the object. CSV goes by rugo's names and is renamed afterwards. */
  function ReadObject(lib: Library, src: Source, needed: Option<seq<string>>, ps: seq<Predicate>): (r: ReadOutcome)
    requires src.Valid()
    requires needed.Some? ==> forall n :: n in needed.value ==> n in src.Names()
    requires forall p :: p in ps ==> p.column in src.Names()
    ensures r.Yields? ==> r.morsel.Valid()
  {
    if src.format == Csv then
      var read := Rugo(lib, Named(src.RugoNames(), src.columns, src.rows),
                       RenamePredicates(ps, src.Names(), src.RugoNames()));
      if read.Yields? then Yields(Rename(read.morsel, src.Names())) else read
    else
      var read := Rugo(lib, Table(src), ps);
      if read.Yields? then Yields(Narrow(read.morsel, needed)) else read
  }
}
