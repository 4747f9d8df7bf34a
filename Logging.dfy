/** The log store shared by Server/Modules/Logging/LogManager.cs and
    Server/Modules/Database/LogDBManager.cs: log levels, log entries, the `logs` table as
    rows of raw column text, the int-array column codec, the WHERE / ORDER BY of the
    select, the reader loop that turns rows back into entries, and the LogManager class.
    Timestamps are DateTime ticks (100 ns units) and "now" is a parameter. */
module Logging {
  import opened IntText
  import Validation

  const TicksPerDay: int := 864_000_000_000

  /** GetLogs looks back this many days when no start is given */
  const DefaultWindowDays: int := 7

  // ---------------------------------------------------------------- levels

  datatype LogLevel = Debug | Info | Warning | Error

  /** LogLevel.ToString(), the text stored in the Level column */
  function LevelName(level: LogLevel): (r: string)
    ensures r != [] && forall c :: c in r ==> 'A' <= c <= 'Z'
  {
    match level
    case Debug => "DEBUG"
    case Info => "INFO"
    case Warning => "WARNING"
    case Error => "ERROR"
  }

  /** Enum.Parse<LogLevel>: the level whose name is exactly s; None where it throws */
  function ParseLevel(s: string): (r: Option<LogLevel>)
    ensures forall level :: r == Some(level) <==> LevelName(level) == s
  {
    if s == "DEBUG" then Some(Debug)
    else if s == "INFO" then Some(Info)
    else if s == "WARNING" then Some(Warning)
    else if s == "ERROR" then Some(Error)
    else None
  }

  // ---------------------------------------------------------------- entries and rows

  /** LogEntry; a null array is None */
  datatype LogEntry = LogEntry(
    timestamp: int,
    level: LogLevel,
    message: string,
    userId: Option<string>,
    inputArray: Option<seq<Int32>>,
    outputArray: Option<seq<Int32>>)

  /** A row of the `logs` table as SQLite holds it: the columns the code reads and
      writes, as raw text; NULL is None */
  datatype Row = Row(
    timestamp: int,
    level: string,
    message: string,
    userId: Option<string>,
    inputArray: Option<string>,
    outputArray: Option<string>)

  /** The outcome of reading a column or a row: a value, or a parse that throws */
  datatype Decoded<T> = Decoded(value: T) | Malformed

  // ---------------------------------------------------------------- the array codec

  /** string.Join(",", array), or DBNull for a null array */
  function EncodeArray(a: Option<seq<Int32>>): (r: Option<string>)
    ensures r.None? <==> a.None?
    ensures a == Some([]) ==> r == Some("")
  {
    match a
    case None => None
    case Some(xs) => Some(Join(FormatAll(xs), ","))
  }

  /** int.Parse(s.Trim()) on one piece of the column text */
  function ParsePiece(piece: string): (r: Option<Int32>)
    ensures (forall c :: c in piece ==> c in WhiteSpace) ==> r == None
  {
    TrimEmptyIffOnly(piece, WhiteSpace);
    ParseInt32(Trim(piece, WhiteSpace))
  }

  /** The Select over the pieces with `parse` for its lambda: every piece parses, or the
      read throws */
  function ParsePieces(pieces: seq<string>, parse: string -> Option<Int32>): (r: Option<seq<Int32>>)
    ensures r.Some? ==> |r.value| == |pieces|
  {
    if pieces == [] then Some([])
    else
      match parse(pieces[0])
      case None => None
      case Some(x) =>
        match ParsePieces(pieces[1..], parse)
        case None => None
        case Some(rest) => Some([x] + rest)
  }

  /** Reading an array column: NULL and "" give a null array, other text is split at ','
      and every piece must parse */
  function DecodeArray(text: Option<string>): (r: Decoded<Option<seq<Int32>>>)
    ensures r.Decoded? && r.value.Some? ==> r.value.value != []
  {
    if text.None? || text.value == "" then Decoded(None)
    else
      match ParsePieces(Split(text.value, {','}), ParsePiece)
      case None => Malformed
      case Some(xs) => Decoded(Some(xs))
  }

  /** A decimal numeral holds no comma */
  lemma FormattedPieceIsClean(x: int)
    ensures FreeOf(FormatInt(x), {','})
  {
    var f := FormatInt(x);
    forall c | c in f
      ensures c != ','
    {
      assert IsDigit(c) || c == '-';
    }
  }

  /** A numeral with no whitespace around it is left alone by Trim */
  lemma {:induction false} FormattedPieceParses(x: Int32)
    ensures ParsePiece(FormatInt(x)) == Some(x)
  {
    var f := FormatInt(x);
    assert f[0] !in WhiteSpace && f[|f| - 1] !in WhiteSpace;
    FormatThenParse(x);
  }

  /** Pieces that each parse give exactly those numbers */
  lemma {:induction false} ParsePiecesEach(pieces: seq<string>, parse: string -> Option<Int32>, xs: seq<Int32>)
    requires |pieces| == |xs|
    requires forall k :: 0 <= k < |pieces| ==> parse(pieces[k]) == Some(xs[k])
    ensures ParsePieces(pieces, parse) == Some(xs)
  {
    if pieces != [] {
      assert parse(pieces[0]) == Some(xs[0]);
      ParsePiecesEach(pieces[1..], parse, xs[1..]);
      assert xs == [xs[0]] + xs[1..];
    }
  }

  lemma {:induction false} FormattedPiecesParse(xs: seq<Int32>)
    ensures ParsePieces(FormatAll(xs), ParsePiece) == Some(xs)
  {
    var ps := FormatAll(xs);
    forall k | 0 <= k < |ps|
      ensures ParsePiece(ps[k]) == Some(xs[k])
    {
      FormattedPieceParses(xs[k]);
    }
    ParsePiecesEach(ps, ParsePiece, xs);
  }

  /** The codec's round trip: a null array and any non-empty array read back unchanged;
      an empty array is written as "" and reads back as null */
  lemma {:induction false} ArrayRoundTrip(a: Option<seq<Int32>>)
    ensures DecodeArray(EncodeArray(a)) == Decoded(if a == Some([]) then None else a)
  {
    if a.Some? && a.value != [] {
      var xs := a.value;
      var ps := FormatAll(xs);
      forall t | t in ps
        ensures FreeOf(t, {','})
      {
        var k :| 0 <= k < |ps| && ps[k] == t;
        FormattedPieceIsClean(xs[k]);
      }
      SplitJoinExact(ps, ',');
      FormattedPiecesParse(xs);
    }
  }

  // ---------------------------------------------------------------- writing and reading rows

  /** The INSERT of AddLog (and of Log and LogSortOperation, which use it with their own
      entries): level by name, arrays through the codec */
  function EncodeRow(e: LogEntry): (row: Row)
    ensures row.timestamp == e.timestamp && row.message == e.message && row.userId == e.userId
    ensures ParseLevel(row.level) == Some(e.level)
  {
    Row(e.timestamp, LevelName(e.level), e.message, e.userId,
        EncodeArray(e.inputArray), EncodeArray(e.outputArray))
  }

  /** One pass of the reader loop's body: Enum.Parse the level, then read each array */
  function DecodeRow(row: Row): (r: Decoded<LogEntry>)
    ensures r.Decoded? <==>
      ParseLevel(row.level).Some? && DecodeArray(row.inputArray).Decoded?
      && DecodeArray(row.outputArray).Decoded?
    ensures r.Decoded? ==>
      r.value.timestamp == row.timestamp && LevelName(r.value.level) == row.level
      && r.value.message == row.message && r.value.userId == row.userId
  {
    match ParseLevel(row.level)
    case None => Malformed
    case Some(level) =>
      match DecodeArray(row.inputArray)
      case Malformed => Malformed
      case Decoded(input) =>
        match DecodeArray(row.outputArray)
        case Malformed => Malformed
        case Decoded(output) =>
          Decoded(LogEntry(row.timestamp, level, row.message, row.userId, input, output))
  }

  /** What survives a trip through the table: empty arrays become null */
  function Normalized(e: LogEntry): LogEntry {
    e.(inputArray := if e.inputArray == Some([]) then None else e.inputArray,
       outputArray := if e.outputArray == Some([]) then None else e.outputArray)
  }

  /** Every entry written is read back, up to the empty-array edge */
  lemma RowRoundTrip(e: LogEntry)
    ensures DecodeRow(EncodeRow(e)) == Decoded(Normalized(e))
  {
    ArrayRoundTrip(e.inputArray);
    ArrayRoundTrip(e.outputArray);
  }

  predicate WellFormed(row: Row) {
    DecodeRow(row).Decoded?
  }

  // ---------------------------------------------------------------- the select

  /** The filters of one GetLogs call: an inclusive time window, an optional level and
      an optional user id */
  datatype Query = Query(from: int, to: int, level: Option<LogLevel>, userId: Option<string>)

  /** The window GetLogs uses: from defaults to now minus seven days, to defaults to now */
  function RequestedQuery(now: int, from: Option<int>, to: Option<int>,
                          level: Option<LogLevel>, userId: Option<string>): (q: Query)
    ensures from.Some? ==> q.from == from.value
    ensures to.Some? ==> q.to == to.value
    ensures from.None? ==> q.from == now - DefaultWindowDays * TicksPerDay
    ensures to.None? ==> q.to == now
    ensures q.level == level && q.userId == userId
  {
    Query(if from.Some? then from.value else now - DefaultWindowDays * TicksPerDay,
          if to.Some? then to.value else now,
          level, userId)
  }

  /** The WHERE clause: `UserId = @userId` never holds for a NULL user id */
  function Matches(row: Row, q: Query): (r: bool)
    ensures r ==> q.from <= q.to
    ensures r && q.level.Some? ==> ParseLevel(row.level) == q.level
    ensures r && q.userId.Some? ==> row.userId.Some?
  {
    && q.from <= row.timestamp <= q.to
    && (q.level.Some? ==> row.level == LevelName(q.level.value))
    && (q.userId.Some? ==> row.userId == q.userId)
  }

  /** The rows the WHERE clause selects, in table order */
  function Where(rows: seq<Row>, q: Query): (r: seq<Row>)
    ensures forall row :: row in r <==> row in rows && Matches(row, q)
    ensures |r| <= |rows|
  {
    if rows == [] then []
    else if Matches(rows[0], q) then [rows[0]] + Where(rows[1..], q)
    else Where(rows[1..], q)
  }

  /** WHERE keeps duplicates: a matching row appears as often as in the table, any other
      row not at all */
  lemma {:induction false} WhereCounts(rows: seq<Row>, q: Query)
    ensures forall row :: multiset(Where(rows, q))[row] == if Matches(row, q) then multiset(rows)[row] else 0
  {
    if rows != [] {
      WhereCounts(rows[1..], q);
      assert rows == [rows[0]] + rows[1..];
    }
  }

  predicate NewestFirst(rows: seq<Row>) {
    forall i, j :: 0 <= i < j < |rows| ==> rows[i].timestamp >= rows[j].timestamp
  }

  lemma NewestFirstCons(h: Row, t: seq<Row>)
    requires NewestFirst(t) && (t == [] || h.timestamp >= t[0].timestamp)
    ensures NewestFirst([h] + t)
  {
  }

  function InsertByTime(row: Row, rows: seq<Row>): (r: seq<Row>)
    requires NewestFirst(rows)
    ensures NewestFirst(r) && multiset(r) == multiset(rows) + multiset{row}
    ensures |r| == |rows| + 1 && (r[0] == row || (rows != [] && r[0] == rows[0]))
  {
    if rows == [] || row.timestamp >= rows[0].timestamp then
      NewestFirstCons(row, rows);
      [row] + rows
    else
      var rest := InsertByTime(row, rows[1..]);
      assert rows == [rows[0]] + rows[1..];
      NewestFirstCons(rows[0], rest);
      [rows[0]] + rest
  }

  /** ORDER BY Timestamp DESC: the same rows, newest first. SQLite leaves the order of
      equal timestamps open; this model fixes one. */
  function OrderByTimestampDesc(rows: seq<Row>): (r: seq<Row>)
    ensures NewestFirst(r) && multiset(r) == multiset(rows)
  {
    if rows == [] then []
    else
      var rest := OrderByTimestampDesc(rows[1..]);
      assert rows == [rows[0]] + rows[1..];
      InsertByTime(rows[0], rest)
  }

  // ---------------------------------------------------------------- the reader loop

  /** The entries the `while (reader.Read())` loop collects: rows are decoded in order
      and the first row that fails to parse throws, ending the read with what was
      collected */
  function DecodeUntilMalformed(rows: seq<Row>): (entries: seq<LogEntry>)
    ensures |entries| <= |rows|
  {
    if rows == [] then []
    else
      match DecodeRow(rows[0])
      case Malformed => []
      case Decoded(e) => [e] + DecodeUntilMalformed(rows[1..])
  }

  /** The collected entries are the decoded rows of a prefix, cut at the first malformed
      row */
  lemma {:induction false} DecodedPrefix(rows: seq<Row>)
    ensures forall k :: 0 <= k < |DecodeUntilMalformed(rows)| ==>
              DecodeRow(rows[k]) == Decoded(DecodeUntilMalformed(rows)[k])
    ensures |DecodeUntilMalformed(rows)| < |rows| ==>
              !WellFormed(rows[|DecodeUntilMalformed(rows)|])
  {
    if rows != [] && WellFormed(rows[0]) {
      DecodedPrefix(rows[1..]);
    }
  }

  /** Without a malformed row nothing is lost */
  lemma {:induction false} DecodedAll(rows: seq<Row>)
    requires forall row :: row in rows ==> WellFormed(row)
    ensures |DecodeUntilMalformed(rows)| == |rows|
  {
    if rows != [] {
      assert rows[0] in rows;
      assert forall row :: row in rows[1..] ==> row in rows;
      DecodedAll(rows[1..]);
    }
  }

  /** The `while (reader.Read())` loop: add each decoded entry to `logs`, stop at the
      first row that throws */
  method ReadRows(rows: seq<Row>) returns (logs: seq<LogEntry>)
    ensures logs == DecodeUntilMalformed(rows)
  {
    logs := [];
    var i := 0;
    while i < |rows|
      invariant 0 <= i <= |rows|
      invariant DecodeUntilMalformed(rows) == logs + DecodeUntilMalformed(rows[i..])
    {
      assert rows[i..][1..] == rows[i + 1..];
      match DecodeRow(rows[i])
      case Malformed =>
        return;
      case Decoded(e) =>
        logs := logs + [e];
        i := i + 1;
    }
  }

  /** The entries one GetLogs call returns from a table */
  function SelectLogs(table: seq<Row>, q: Query): (r: seq<LogEntry>)
    ensures |r| <= |table|
  {
    var ordered := OrderByTimestampDesc(Where(table, q));
    assert |ordered| == |multiset(ordered)| == |multiset(Where(table, q))|;
    DecodeUntilMalformed(ordered)
  }

  /** The ordered rows are the selected rows of the table */
  lemma OrderedRowMatches(table: seq<Row>, q: Query, row: Row)
    requires row in OrderByTimestampDesc(Where(table, q))
    ensures row in table && Matches(row, q)
  {
    var selected := Where(table, q);
    assert row in multiset(OrderByTimestampDesc(selected));
    assert row in multiset(selected);
  }

  /** Every entry returned comes from a row of the table that the filters select */
  lemma SelectedRowsMatch(table: seq<Row>, q: Query)
    ensures forall e :: e in SelectLogs(table, q) ==>
              exists row :: row in table && Matches(row, q) && DecodeRow(row) == Decoded(e)
  {
    var ordered := OrderByTimestampDesc(Where(table, q));
    var entries := DecodeUntilMalformed(ordered);
    DecodedPrefix(ordered);
    forall e | e in entries
      ensures exists row :: row in table && Matches(row, q) && DecodeRow(row) == Decoded(e)
    {
      var k :| 0 <= k < |entries| && entries[k] == e;
      OrderedRowMatches(table, q, ordered[k]);
    }
  }

  /** The entries come newest first */
  lemma SelectedNewestFirst(table: seq<Row>, q: Query)
    ensures forall i, j :: 0 <= i < j < |SelectLogs(table, q)| ==>
              SelectLogs(table, q)[i].timestamp >= SelectLogs(table, q)[j].timestamp
  {
    DecodedPrefix(OrderByTimestampDesc(Where(table, q)));
  }

  /** Every selected row is among the ordered rows */
  lemma MatchingRowIsOrdered(table: seq<Row>, q: Query, row: Row)
    requires row in table && Matches(row, q)
    ensures row in OrderByTimestampDesc(Where(table, q))
  {
    var selected := Where(table, q);
    assert row in multiset(selected);
    assert row in multiset(OrderByTimestampDesc(selected));
  }

  /** When every row parses, each selected row is returned, once per copy */
  lemma SelectedComplete(table: seq<Row>, q: Query)
    requires forall row :: row in table ==> WellFormed(row)
    ensures |SelectLogs(table, q)| == |Where(table, q)|
    ensures forall row :: row in table && Matches(row, q) ==>
              WellFormed(row) && DecodeRow(row).value in SelectLogs(table, q)
  {
    var ordered := OrderByTimestampDesc(Where(table, q));
    forall row | row in ordered
      ensures WellFormed(row)
    {
      OrderedRowMatches(table, q, row);
    }
    DecodedAll(ordered);
    DecodedPrefix(ordered);
    var entries := DecodeUntilMalformed(ordered);
    forall row | row in table && Matches(row, q)
      ensures WellFormed(row) && DecodeRow(row).value in entries
    {
      MatchingRowIsOrdered(table, q, row);
      var k :| 0 <= k < |ordered| && ordered[k] == row;
      assert entries[k] == DecodeRow(row).value;
    }
  }

  /** An entry written into a table of readable rows is listed by every select whose
      filters it meets */
  lemma LoggedEntryListed(table: seq<Row>, e: LogEntry, q: Query)
    requires forall row :: row in table ==> WellFormed(row)
    requires Matches(EncodeRow(e), q)
    ensures Normalized(e) in SelectLogs(table + [EncodeRow(e)], q)
  {
    var row := EncodeRow(e);
    RowRoundTrip(e);
    SelectedComplete(table + [row], q);
  }

  // ---------------------------------------------------------------- LogManager

  /** string.Join(", ", array) in brackets, as LogSortOperation writes it into the message */
  function ListText(xs: seq<Int32>): (r: string)
    ensures |r| >= 2 && r[0] == '[' && r[|r| - 1] == ']'
  {
    "[" + Join(FormatAll(xs), ", ") + "]"
  }

  /** The message LogSortOperation stores */
  function SortMessage(message: string, input: seq<Int32>, output: seq<Int32>): (r: string)
    ensures |message| <= |r| && r[..|message|] == message
    ensures |ListText(output)| <= |r| && r[|r| - |ListText(output)|..] == ListText(output)
  {
    message + " | Input: " + ListText(input) + " | Output: " + ListText(output)
  }

  /** The lists in a sort message are in the form the client's parser reads back */
  lemma ListTextReadsBack(xs: seq<Int32>)
    requires xs != []
    ensures Validation.Parsed(Some(ListText(xs))) == Some(xs)
  {
    Validation.BracketedRoundTrip(xs, ", ");
  }

  /** The entry Log inserts: the given level, message and user, no arrays; it reads back
      as itself */
  function LogRecord(now: int, level: LogLevel, message: string, userId: Option<string>): (r: LogEntry)
    ensures DecodeRow(EncodeRow(r)) == Decoded(LogEntry(now, level, message, userId, None, None))
  {
    var e := LogEntry(now, level, message, userId, None, None);
    RowRoundTrip(e);
    e
  }

  /** The entry LogSortOperation inserts: level INFO and both arrays. It reads back with
      level INFO, its message, and both arrays when non-empty */
  function SortRecord(now: int, message: string, input: seq<Int32>, output: seq<Int32>,
                      userId: Option<string>): (r: LogEntry)
    ensures DecodeRow(EncodeRow(r)) ==
      Decoded(LogEntry(now, Info, SortMessage(message, input, output), userId,
                       if input == [] then None else Some(input),
                       if output == [] then None else Some(output)))
  {
    var e := LogEntry(now, Info, SortMessage(message, input, output), userId, Some(input), Some(output));
    RowRoundTrip(e);
    e
  }

  /** LogManager over the connection of its DBManager: present or absent */
  class LogManager {
    const hasConnection: bool
    var table: seq<Row>

    constructor (hasConnection: bool, stored: seq<Row>)
      ensures this.hasConnection == hasConnection && table == stored
    {
      this.hasConnection := hasConnection;
      table := stored;
    }

    method Log(now: int, level: LogLevel, message: string, userId: Option<string>)
      modifies this
      ensures table == if hasConnection then old(table) + [EncodeRow(LogRecord(now, level, message, userId))]
                       else old(table)
    {
      if !hasConnection {
        return;
      }
      table := table + [EncodeRow(LogRecord(now, level, message, userId))];
    }

    method LogSortOperation(now: int, message: string, input: seq<Int32>, output: seq<Int32>,
                            userId: Option<string>)
      modifies this
      ensures table == if hasConnection then old(table) + [EncodeRow(SortRecord(now, message, input, output, userId))]
                       else old(table)
    {
      if !hasConnection {
        return;
      }
      table := table + [EncodeRow(SortRecord(now, message, input, output, userId))];
    }

    /** The user filter applies whenever a user id is given, even an empty one */
    method GetLogs(now: int, from: Option<int>, to: Option<int>, level: Option<LogLevel>,
                   userId: Option<string>) returns (logs: seq<LogEntry>)
      ensures logs == if hasConnection then SelectLogs(table, RequestedQuery(now, from, to, level, userId))
                      else []
    {
      if !hasConnection {
        return [];
      }
      var q := RequestedQuery(now, from, to, level, userId);
      logs := ReadRows(OrderByTimestampDesc(Where(table, q)));
    }
  }
}
