/** LogDBManager of Server/Modules/Database/LogDBManager.cs: a connection that is open or
    not, and the `logs` table it reaches. Every operation first checks that the
    connection is open and otherwise returns false, an empty list or 0 without touching
    the table. */
module LogDatabase {
  import opened IntText
  import opened Logging

  /** `!string.IsNullOrEmpty(userId)`: this class filters by user only for a non-empty id,
      where LogManager filters for any non-null id; they differ exactly on "" */
  function DbUserFilter(userId: Option<string>): (r: Option<string>)
    ensures r.Some? ==> r.value != "" && r == userId
    ensures r != userId <==> userId == Some("")
  {
    if userId.Some? && userId.value != "" then userId else None
  }

  /** The rows `DELETE FROM logs WHERE Timestamp < @olderThan` keeps, in table order */
  function Since(rows: seq<Row>, olderThan: int): (r: seq<Row>)
    ensures forall row :: row in r <==> row in rows && row.timestamp >= olderThan
  {
    if rows == [] then []
    else if rows[0].timestamp >= olderThan then [rows[0]] + Since(rows[1..], olderThan)
    else Since(rows[1..], olderThan)
  }

  /** The rows that DELETE removes */
  function Before(rows: seq<Row>, olderThan: int): (r: seq<Row>)
    ensures forall row :: row in r <==> row in rows && row.timestamp < olderThan
  {
    if rows == [] then []
    else if rows[0].timestamp < olderThan then [rows[0]] + Before(rows[1..], olderThan)
    else Before(rows[1..], olderThan)
  }

  /** Each row is either kept or removed, copies included */
  lemma {:induction false} SinceBeforePartition(rows: seq<Row>, olderThan: int)
    ensures multiset(Since(rows, olderThan)) + multiset(Before(rows, olderThan)) == multiset(rows)
    ensures |Since(rows, olderThan)| + |Before(rows, olderThan)| == |rows|
  {
    if rows != [] {
      SinceBeforePartition(rows[1..], olderThan);
      assert rows == [rows[0]] + rows[1..];
    }
  }

  class LogDBManager {
    /** `_connection` is non-null and open */
    var connected: bool
    var table: seq<Row>

    /** A manager before ConnectToDB, over the table the database file holds */
    constructor (stored: seq<Row>)
      ensures !connected && table == stored
    {
      connected := false;
      table := stored;
    }

    /** ConnectToDB(path): `opens` says whether the file could be opened and the table
        created if missing; the result says whether the manager is now connected */
    method ConnectToDB(opens: bool) returns (ok: bool)
      modifies this
      ensures ok == opens && connected == opens && table == old(table)
    {
      connected := opens;
      ok := opens;
    }

    method Disconnect()
      modifies this
      ensures !connected && table == old(table)
    {
      if !connected {
        return;
      }
      connected := false;
    }

    /** AddLog: one INSERT of the entry; true iff one row was inserted */
    method AddLog(entry: LogEntry) returns (ok: bool)
      modifies this
      ensures ok == old(connected) && connected == old(connected)
      ensures table == if ok then old(table) + [EncodeRow(entry)] else old(table)
    {
      if !connected {
        return false;
      }
      table := table + [EncodeRow(entry)];
      ok := true;
    }

    /** GetLogs: the WHERE of the query, ORDER BY Timestamp DESC, then the reader loop */
    method GetLogs(now: int, from: Option<int>, to: Option<int>, level: Option<LogLevel>,
                   userId: Option<string>) returns (logs: seq<LogEntry>)
      ensures logs == if connected then SelectLogs(table, RequestedQuery(now, from, to, level, DbUserFilter(userId)))
                      else []
    {
      if !connected {
        return [];
      }
      var q := RequestedQuery(now, from, to, level, DbUserFilter(userId));
      logs := ReadRows(OrderByTimestampDesc(Where(table, q)));
    }

    /** DeleteOldLogs: removes the rows older than `olderThan`; returns how many */
    method DeleteOldLogs(olderThan: int) returns (removed: int)
      modifies this
      ensures connected == old(connected)
      ensures table == if connected then Since(old(table), olderThan) else old(table)
      ensures removed == if connected then |Before(old(table), olderThan)| else 0
    {
      if !connected {
        return 0;
      }
      SinceBeforePartition(table, olderThan);
      var kept := Since(table, olderThan);
      removed := |table| - |kept|;
      table := kept;
    }

    /** GetLogCount: SELECT COUNT(*) */
    method GetLogCount() returns (count: int)
      ensures count == if connected then |table| else 0
    {
      if !connected {
        return 0;
      }
      return |table|;
    }
  }
}
