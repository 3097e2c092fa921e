/**
 * The stand-alone report queries over the `logs` table: each is one read-only
 * `GROUP BY` query, modelled as a function over the table's rows whose contract
 * says which grouping, order and limit the result has.
 */
module GenerateReports {
  import opened Wrappers
  import opened Calendar
  import opened Grouping

  /**
   * The columns of a `logs` row these queries read. No constraint keeps them
   * from holding SQL `NULL`, written `None`.
   */
  datatype LogsRow = LogsRow(
    ipAddress: Option<string>,
    path: Option<string>,
    statusCode: Option<int>,
    timestamp: Option<DateTime>,
    userAgent: Option<string>)

  function IpsOf(rows: seq<LogsRow>): (ips: seq<Option<string>>)
    ensures |ips| == |rows| && forall i :: 0 <= i < |rows| ==> ips[i] == rows[i].ipAddress
  {
    seq(|rows|, i requires 0 <= i < |rows| => rows[i].ipAddress)
  }

  function PathsOf(rows: seq<LogsRow>): (paths: seq<Option<string>>)
    ensures |paths| == |rows| && forall i :: 0 <= i < |rows| ==> paths[i] == rows[i].path
  {
    seq(|rows|, i requires 0 <= i < |rows| => rows[i].path)
  }

  function StatusesOf(rows: seq<LogsRow>): (codes: seq<Option<int>>)
    ensures |codes| == |rows| && forall i :: 0 <= i < |rows| ==> codes[i] == rows[i].statusCode
  {
    seq(|rows|, i requires 0 <= i < |rows| => rows[i].statusCode)
  }

  /** `HOUR(timestamp)`, which is `NULL` where the timestamp is. */
  function HoursOf(rows: seq<LogsRow>): (hours: seq<Option<int>>)
    ensures |hours| == |rows|
    ensures forall i :: 0 <= i < |rows| ==>
      hours[i] == (if rows[i].timestamp.Some? then Some(rows[i].timestamp.value.hour) else None)
  {
    seq(|rows|, i requires 0 <= i < |rows| =>
      if rows[i].timestamp.Some? then Some(rows[i].timestamp.value.hour) else None)
  }

  /** The user-agent strings of the rows that have one, in row order (`WHERE user_agent IS NOT NULL`). */
  function KnownAgents(rows: seq<LogsRow>): (agents: seq<string>)
    decreases |rows|
  {
    if |rows| == 0 then []
    else
      var init := KnownAgents(rows[..|rows| - 1]);
      match rows[|rows| - 1].userAgent
      case None => init
      case Some(a) => init + [a]
  }

  /** The number of rows whose user agent is `a`, counted row by row. */
  function RowsWithAgent(rows: seq<LogsRow>, a: string): nat
    decreases |rows|
  {
    if |rows| == 0 then 0
    else RowsWithAgent(rows[..|rows| - 1], a) + (if rows[|rows| - 1].userAgent == Some(a) then 1 else 0)
  }

  /** The filtered list holds each user agent once per row that has it, and nothing for `NULL`. */
  lemma {:induction false} KnownAgentsCount(rows: seq<LogsRow>, a: string)
    ensures multiset(KnownAgents(rows))[a] == RowsWithAgent(rows, a)
    decreases |rows|
  {
    if |rows| > 0 {
      KnownAgentsCount(rows[..|rows| - 1], a);
    }
  }

  /**
   * `top_ips`: request counts per address, most frequent first, at most `limit`
   * rows; the rows without an address form one `NULL` group ranked like any other.
   */
  function TopIps(rows: seq<LogsRow>, limit: nat := 10): (result: seq<GroupCount<Option<string>>>)
    ensures IsTopN(IpsOf(rows), result, limit)
  {
    TopNIsTopN(IpsOf(rows), limit);
    TopN(IpsOf(rows), limit)
  }

  /** `top_paths`: request counts per path, most frequent first, at most `limit` rows, `NULL` a group of its own. */
  function TopPaths(rows: seq<LogsRow>, limit: nat := 10): (result: seq<GroupCount<Option<string>>>)
    ensures IsTopN(PathsOf(rows), result, limit)
  {
    TopNIsTopN(PathsOf(rows), limit);
    TopN(PathsOf(rows), limit)
  }

  /**
   * `status_code_summary`: every status code present with its count, by status
   * code, no limit; the rows without a status form one group, which sorts first.
   */
  function StatusCodeSummary(rows: seq<LogsRow>): (result: seq<GroupCount<Option<int>>>)
    ensures IsGrouping(StatusesOf(rows), result)
    ensures AscendingNullFirst(result)
  {
    GroupedByNullableKeyIsGrouping(StatusesOf(rows));
    GroupedByNullableKey(StatusesOf(rows))
  }

  /** When some row has no status, the first row of the summary counts exactly those rows. */
  lemma NullStatusFirst(rows: seq<LogsRow>)
    requires exists i :: 0 <= i < |rows| && rows[i].statusCode.None?
    ensures |StatusCodeSummary(rows)| > 0
    ensures StatusCodeSummary(rows)[0] == GroupCount(None, multiset(StatusesOf(rows))[None])
  {
    var i :| 0 <= i < |rows| && rows[i].statusCode.None?;
    assert StatusesOf(rows)[i] == None;
    NullGroupFirst(StatusesOf(rows), StatusCodeSummary(rows));
  }

  /** The status code counts add up to the number of rows. */
  lemma StatusCodeSummaryTotal(rows: seq<LogsRow>)
    ensures SumCounts(StatusCodeSummary(rows)) == |rows|
  {
    GroupedByNullableKeySum(StatusesOf(rows));
  }

  /**
   * `traffic_by_hour`: the integer hours with traffic, ascending, with their
   * counts; the rows without a timestamp form one `NULL` hour, which sorts first.
   */
  function TrafficByHour(rows: seq<LogsRow>): (result: seq<GroupCount<Option<int>>>)
    ensures IsGrouping(HoursOf(rows), result)
    ensures AscendingNullFirst(result)
    ensures forall i :: 0 <= i < |result| && result[i].key.Some? ==> 0 <= result[i].key.value < 24
  {
    var hours := HoursOf(rows);
    GroupedByNullableKeyIsGrouping(hours);
    var result := GroupedByNullableKey(hours);
    assert forall i :: 0 <= i < |result| && result[i].key.Some? ==> 0 <= result[i].key.value < 24 by {
      forall i | 0 <= i < |result| && result[i].key.Some? ensures 0 <= result[i].key.value < 24 {
        var j :| 0 <= j < |hours| && hours[j] == result[i].key;
      }
    }
    result
  }

  /** When some row has no timestamp, the first row of the report counts exactly those rows. */
  lemma NullHourFirst(rows: seq<LogsRow>)
    requires exists i :: 0 <= i < |rows| && rows[i].timestamp.None?
    ensures |TrafficByHour(rows)| > 0
    ensures TrafficByHour(rows)[0] == GroupCount(None, multiset(HoursOf(rows))[None])
  {
    var i :| 0 <= i < |rows| && rows[i].timestamp.None?;
    assert HoursOf(rows)[i] == None;
    NullGroupFirst(HoursOf(rows), TrafficByHour(rows));
  }

  /** The hourly counts add up to the number of rows. */
  lemma TrafficByHourTotal(rows: seq<LogsRow>)
    ensures SumCounts(TrafficByHour(rows)) == |rows|
  {
    GroupedByNullableKeySum(HoursOf(rows));
  }

  /**
   * `user_agent_summary`: the most frequent user-agent strings, rows without one
   * left out, at most `limit` rows; each count is the number of rows with that string.
   */
  function UserAgentSummary(rows: seq<LogsRow>, limit: nat := 5): (result: seq<GroupCount<string>>)
    ensures IsTopN(KnownAgents(rows), result, limit)
  {
    TopNIsTopN(KnownAgents(rows), limit);
    TopN(KnownAgents(rows), limit)
  }

  /** Every count in the user-agent summary is the number of rows carrying that exact string. */
  lemma UserAgentSummaryCounts(rows: seq<LogsRow>, limit: nat)
    ensures forall i :: 0 <= i < |UserAgentSummary(rows, limit)| ==>
      UserAgentSummary(rows, limit)[i].count == RowsWithAgent(rows, UserAgentSummary(rows, limit)[i].key) > 0
  {
    var result := UserAgentSummary(rows, limit);
    forall i | 0 <= i < |result| ensures result[i].count == RowsWithAgent(rows, result[i].key) > 0 {
      KnownAgentsCount(rows, result[i].key);
    }
  }
}
