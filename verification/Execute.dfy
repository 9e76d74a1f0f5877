/** A whole SELECT: from the text of a query to the stream of its answer. */
module Execute {
  import opened Wrappers
  import opened Sql
  import opened Values
  import opened Rows
  import opened Masks
  import opened Select
  import opened EventStream
  import Parser
  import Printer
  import RoundTrip
  import Answers = Run

  /** A row of the output: names and cells, in the order of the column list. */
  type OutputRow = seq<(string, Cell)>

  predicate Rectangular(o: Answers.Output) { forall c :: c in o.columns ==> |c.1| == o.rows }

  function OutputRows(o: Answers.Output): seq<OutputRow>
    requires Rectangular(o)
  {
    seq(o.rows, i requires 0 <= i < o.rows =>
      seq(|o.columns|, j requires 0 <= j < |o.columns| =>
        assert o.columns[j] in o.columns; (o.columns[j].0, o.columns[j].1[i])))
  }

  lemma AnswerIsRectangular(h: Host, q: Query, t: Morsel)
    requires t.Valid() && Answers.Defined(h, q, t)
    ensures Rectangular(Answers.Answer(h, q, t))
  {
    var o := Answers.Answer(h, q, t);
    forall c | c in o.columns ensures |c.1| == o.rows {
      var i :| 0 <= i < |o.columns| && o.columns[i] == c;
    }
  }

  /** The rows that answer a query. */
  ghost function AnswerRows(h: Host, q: Query, t: Morsel): seq<OutputRow>
    requires t.Valid() && Answers.Defined(h, q, t)
  {
    AnswerIsRectangular(h, q, t);
    OutputRows(Answers.Answer(h, q, t))
  }

  /** Errors in the text and errors in the query are told before anything is streamed. */
  datatype Reply = SyntaxError | QueryError | Streamed(messages: seq<Bytes>, raised: bool)

  /** What is streamed for these rows. */
  function StreamOf<Row>(crc: Checksum, events: Events, rows: seq<Row>, scanned: nat, processed: nat, batchable: bool,
                         serialise: Serialiser<Row>): seq<Bytes>
  {
    Framed(crc, Frames(events, SentOf(events, serialise, Some(rows), batchable), scanned, processed))
  }

  /** The rows to be streamed; none for a query that has no answer. */
  ghost function ExpectedRows(h: Host, q: Query, t: Morsel): seq<OutputRow>
    requires t.Valid()
  {
    if Answers.Defined(h, q, t) then AnswerRows(h, q, t) else []
  }

  lemma NoRows(h: Host, q: Query, t: Morsel)
    requires t.Valid() && (Answers.Defined(h, q, t) ==> Answers.Answer(h, q, t).rows == 0)
    ensures ExpectedRows(h, q, t) == []
  {}

  /** Runs a query; the outer None is its error, the inner one a reader that yields nothing. */
  method RowsOf(h: Host, lib: Library, q: Query, src: Source, pushdown: bool)
    returns (r: Option<Option<seq<OutputRow>>>)
    requires src.Valid()
    ensures Answers.Defined(h, q, Table(src)) ==> r.Some?
    ensures r.Some? ==> ExpectedRows(h, q, Table(src)) == if r.value.Some? then r.value.value else []
  {
    var outcome := Answers.Run(h, lib, q, src, pushdown);
    match outcome {
      case SqlError => return None;
      case NoMorsel =>
        NoRows(h, q, Table(src));
        return Some(None);
      case Rows(output) =>
        AnswerIsRectangular(h, q, Table(src));
        return Some(Some(OutputRows(output)));
    }
  }

  lemma NoRowsNoEvents<Row>(events: Events, serialise: Serialiser<Row>, batchable: bool)
    ensures SentOf(events, serialise, None, batchable) == SentOf(events, serialise, Some([]), batchable)
  {}

  /** A text that is no query is a syntax error, and nothing else is. A query that has an answer
      is answered by the stream of exactly its rows, with pushdown or without, whatever the
      format; one that has none streams no row. */
  method Execute(h: Host, lib: Library, crc: Checksum, events: Events, sql: string, src: Source, scanned: nat,
                 processed: nat, batchable: bool, serialise: Serialiser<OutputRow>, pushdown: bool)
    returns (r: Reply)
    requires src.Valid()
    ensures r == SyntaxError <==> RoundTrip.ParseText(h.lower, sql).None?
    ensures RoundTrip.ParseText(h.lower, sql).Some? ==>
              var q := RoundTrip.ParseText(h.lower, sql).value;
              var rows := ExpectedRows(h, q, Table(src));
              (Answers.Defined(h, q, Table(src)) ==> r.Streamed?) &&
              (r.Streamed? ==> r.messages == StreamOf(crc, events, rows, scanned, processed, batchable, serialise))
  {
    var query := Parser.Parse(h.lower, sql);
    if query.None? {
      return SyntaxError;
    }
    var rows := RowsOf(h, lib, query.value, src, pushdown);
    if rows.None? {
      return QueryError;
    }
    NoRowsNoEvents(events, serialise, batchable);
    var messages, raised := Stream(crc, events, rows.value, scanned, processed, batchable, serialise);
    return Streamed(messages, raised);
  }

  /** A client that sends the text of a query and decodes what it gets has every row of the answer,
      written in order, if the rows can be written and the events fit their length fields. */
  lemma AnswerIsRead(h: Host, crc: Checksum, events: Events, layout: RoundTrip.Layout,
                     st: Printer.Style, q: Query, src: Source, scanned: nat,
                     processed: nat, serialise: Serialiser<OutputRow>, row: OutputRow -> Result<Bytes, string>)
    requires src.Valid() && Answers.Defined(h, q, Table(src)) && RowByRow(serialise, row)
    requires Printer.WritableQuery(q) && Printer.Sensible(h.lower, st) && RoundTrip.Legible(st)
    requires CanBeSent(events, row, AnswerRows(h, q, Table(src)), scanned, processed)
    ensures RoundTrip.ParseText(h.lower, RoundTrip.Print(layout, st, q)) == Some(q)
    ensures var rows := AnswerRows(h, q, Table(src));
            var sent := SentOf(events, serialise, Some(rows), true);
            var written := Written(row, rows).value;
            && Flat(sent.payloads) == written
            && DecodeAll(crc, Flat(StreamOf(crc, events, rows, scanned, processed, true, serialise))) ==
               Some(Each(events.records, sent.payloads) +
                    [Frame(events.stats, events.report(scanned, processed, |written|)), Frame(events.end, [])])
  {
    RoundTrip.ParsingUndoesPrinting(h.lower, layout, st, q);
    ClientReadsTheRows(crc, events, serialise, row, AnswerRows(h, q, Table(src)), scanned, processed);
  }
}
