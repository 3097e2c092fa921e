/**
 * `LogParser.parse_line`: one line of the Apache "combined" access-log format
 * becomes a record of eight fields, or `None` when the line is rejected.
 *
 * LOG_PATTERN is matched with Python `re.match` semantics: anchored at the
 * start of the line only, `.` matching anything but a newline, greedy `\d+`,
 * and lazy `(.*?)` groups that try the shortest body first and grow it one
 * character at a time when the rest of the pattern fails.
 */
module LogParser {
  import opened Wrappers
  import opened Text
  import opened Calendar

  /** The dictionary `parse_line` returns, one field per key. */
  datatype LogRecord = LogRecord(
    ipAddress: string,
    timestamp: DateTime,
    httpMethod: string,
    path: string,
    statusCode: int,
    bytesSent: int,
    referrer: Option<string>,
    userAgent: Option<string>)

  /** The seven capture groups of LOG_PATTERN, in order. */
  datatype Groups = Groups(
    ip: string, timestamp: string, request: string, status: string,
    bytesSent: string, referrer: string, userAgent: string)

  /** What the part of the pattern after a group matches: the later groups' captures, or no match. */
  type Continuation = string -> Option<seq<string>>

  // ---------------------------------------------------------------------------
  // Matching LOG_PATTERN
  // ---------------------------------------------------------------------------

  /**
   * `(.*?)` followed by the literal `close` and then the continuation `rest`,
   * matched against `t`: the first body, shortest first, that is free of
   * newlines and after which `close` and `rest` both match.
   */
  function LazyGroup(t: string, close: char, rest: Continuation, ghost shape: seq<string> -> bool)
    : (r: Option<seq<string>>)
    requires forall u :: rest(u).Some? ==> shape(rest(u).value)
    ensures r.Some? ==> |r.value| >= 1 && |r.value[0]| < |t| && shape(r.value[1..])
    decreases |t|
  {
    if |t| == 0 || t[0] == '\n' then None
    else if t[0] == close && rest(t[1..]).Some? then Some([""] + rest(t[1..]).value)
    else
      match LazyGroup(t[1..], close, rest, shape)
      case None => None
      case Some(gs) => Some([[t[0]] + gs[0]] + gs[1..])
  }

  /**
   * What a successful lazy group means: its body is a newline-free prefix of
   * `t` followed by `close`, the continuation matches the text after that and
   * produced the later captures, and no shorter body was followed by `close`
   * and a matching continuation.
   */
  lemma {:induction false} LazyGroupMeaning(t: string, close: char, rest: Continuation,
                                            shape: seq<string> -> bool)
    requires forall u :: rest(u).Some? ==> shape(rest(u).value)
    requires LazyGroup(t, close, rest, shape).Some?
    ensures var gs := LazyGroup(t, close, rest, shape).value;
            && t[..|gs[0]|] == gs[0] && t[|gs[0]|] == close && '\n' !in gs[0]
            && rest(t[|gs[0]| + 1..]) == Some(gs[1..])
            && forall k | 0 <= k < |gs[0]| && t[k] == close :: rest(t[k + 1..]).None?
    decreases |t|
  {
    var gs := LazyGroup(t, close, rest, shape).value;
    if t[0] == close && rest(t[1..]).Some? {
      assert gs == [""] + rest(t[1..]).value;
    } else {
      LazyGroupMeaning(t[1..], close, rest, shape);
      var gs' := LazyGroup(t[1..], close, rest, shape).value;
      assert gs[0] == [t[0]] + gs'[0] && gs[1..] == gs'[1..];
      assert t[1..][|gs'[0]| + 1..] == t[|gs[0]| + 1..];
      forall k | 0 <= k < |gs[0]| && t[k] == close
        ensures rest(t[k + 1..]).None?
      {
        if k > 0 {
          assert t[1..][k - 1] == t[k] && t[1..][k..] == t[k + 1..];
        }
      }
    }
  }

  /** The end of the pattern: anything may follow, since `re.match` does not anchor at the end. */
  function Done(t: string): (r: Option<seq<string>>)
    ensures r == Some([])
  {
    Some([])
  }

  // The captures each stage yields on success: how many, and which are digit strings.

  predicate NoCaptures(gs: seq<string>) { |gs| == 0 }

  predicate UserAgentCaptures(gs: seq<string>) { |gs| == 1 }

  predicate BytesCaptures(gs: seq<string>) { |gs| == 3 && |gs[0]| > 0 && AllDigits(gs[0]) }

  predicate StatusCaptures(gs: seq<string>)
  {
    |gs| == 4 && |gs[0]| == 3 && AllDigits(gs[0]) && BytesCaptures(gs[1..])
  }

  predicate RequestCaptures(gs: seq<string>) { |gs| == 5 && StatusCaptures(gs[1..]) }

  /** ` "(.*?)"`: the user-agent group after the referrer's closing quote. */
  function AfterReferrer(t: string): (r: Option<seq<string>>)
    ensures r.Some? ==> UserAgentCaptures(r.value)
  {
    if " \"" <= t then LazyGroup(t[2..], '"', Done, NoCaptures) else None
  }

  /** `(\d+) "(.*?)" "(.*?)"`: byte count, referrer and user agent. */
  function BytesAndAfter(t: string): (r: Option<seq<string>>)
    ensures r.Some? ==> BytesCaptures(r.value)
  {
    var j := DigitsEnd(t, 0);
    if j > 0 && " \"" <= t[j..] then
      match LazyGroup(t[j + 2..], '"', AfterReferrer, UserAgentCaptures)
      case None => None
      case Some(gs) => var r := [t[..j]] + gs; assert r[1..] == gs; Some(r)
    else None
  }

  /** `(\d{3}) ` and what follows it. */
  function StatusAndAfter(t: string): (r: Option<seq<string>>)
    ensures r.Some? ==> StatusCaptures(r.value)
  {
    if |t| >= 4 && AllDigits(t[..3]) && t[3] == ' ' then
      match BytesAndAfter(t[4..])
      case None => None
      case Some(gs) => var r := [t[..3]] + gs; assert r[1..] == gs; Some(r)
    else None
  }

  /** What follows the request's closing quote: a space, then the status. */
  function AfterRequest(t: string): (r: Option<seq<string>>)
    ensures r.Some? ==> StatusCaptures(r.value)
  {
    if |t| >= 1 && t[0] == ' ' then StatusAndAfter(t[1..]) else None
  }

  /** What follows the timestamp's `]`: ` "`, then the request group and the rest. */
  function AfterTimestamp(t: string): (r: Option<seq<string>>)
    ensures r.Some? ==> RequestCaptures(r.value)
  {
    if " \"" <= t then LazyGroup(t[2..], '"', AfterRequest, StatusCaptures) else None
  }

  /**
   * Where `\d+` followed by `dots` repetitions of `\.\d+`, started at position `i`
   * of `t`, stops; `None` when it does not match there.
   */
  function DottedDigits(t: string, i: nat, dots: nat): (r: Option<nat>)
    requires i <= |t|
    ensures r.Some? ==> i < r.value <= |t|
    decreases dots
  {
    var j := DigitsEnd(t, i);
    if j == i then None
    else if dots == 0 then Some(j)
    else if j < |t| && t[j] == '.' then DottedDigits(t, j + 1, dots - 1)
    else None
  }

  /** `s` is exactly `\d+` followed by `dots` repetitions of `\.\d+`. */
  predicate IsDottedDigits(s: string, dots: nat)
  {
    DottedDigits(s, 0, dots) == Some(|s|)
  }

  /** The literal text between the client address and the timestamp. */
  const IdentAndUser := " - - ["

  /** `LOG_PATTERN.match(line)`: the seven groups, or `None` when the line does not match. */
  function MatchLine(line: string): (r: Option<Groups>)
    ensures r.Some? ==> |r.value.status| == 3 && AllDigits(r.value.status)
                        && |r.value.bytesSent| > 0 && AllDigits(r.value.bytesSent)
  {
    match DottedDigits(line, 0, 3)
    case None => None
    case Some(k) =>
      if IdentAndUser <= line[k..] then
        match LazyGroup(line[k + |IdentAndUser|..], ']', AfterTimestamp, RequestCaptures)
        case None => None
        case Some(gs) => Some(Groups(line[..k], gs[0], gs[1], gs[2], gs[3], gs[4], gs[5]))
      else None
  }

  // ---------------------------------------------------------------------------
  // strptime(ts, '%d/%b/%Y:%H:%M:%S %z')
  // ---------------------------------------------------------------------------

  const MonthAbbreviations: seq<string> :=
    ["Jan", "Feb", "Mar", "Apr", "May", "Jun", "Jul", "Aug", "Sep", "Oct", "Nov", "Dec"]

  /** The English abbreviation `%b` writes for month `m`. */
  function MonthName(m: int): (name: string)
    requires 1 <= m <= 12
    ensures |name| == 3 && name == MonthAbbreviations[m - 1]
  {
    MonthAbbreviations[m - 1]
  }

  function MonthNumber(name: string): (m: Option<int>)
    ensures m.Some? ==> 1 <= m.value <= 12 && MonthAbbreviations[m.value - 1] == name
  {
    if name == "Jan" then Some(1) else if name == "Feb" then Some(2)
    else if name == "Mar" then Some(3) else if name == "Apr" then Some(4)
    else if name == "May" then Some(5) else if name == "Jun" then Some(6)
    else if name == "Jul" then Some(7) else if name == "Aug" then Some(8)
    else if name == "Sep" then Some(9) else if name == "Oct" then Some(10)
    else if name == "Nov" then Some(11) else if name == "Dec" then Some(12)
    else None
  }

  lemma MonthNumberOfName(m: int)
    requires 1 <= m <= 12
    ensures MonthNumber(MonthAbbreviations[m - 1]) == Some(m)
  {
  }

  /** The separators and digit positions of `dd/Mon/YYYY:HH:MM:SS +HHMM`. */
  predicate Layout(s: string)
  {
    |s| == 26 && s[2] == '/' && s[6] == '/' && s[11] == ':' && s[14] == ':' && s[17] == ':'
    && s[20] == ' ' && (s[21] == '+' || s[21] == '-') && DigitsAt(s)
  }

  /** Positions of the digits in `dd/Mon/YYYY:HH:MM:SS +HHMM`. */
  predicate DigitsAt(s: string)
    requires |s| == 26
  {
    AllDigits(s[0..2]) && AllDigits(s[7..11]) && AllDigits(s[12..14]) && AllDigits(s[15..17])
    && AllDigits(s[18..20]) && AllDigits(s[22..24]) && AllDigits(s[24..26])
  }

  /**
   * The strict form of `datetime.strptime(s, '%d/%b/%Y:%H:%M:%S %z')`: two-digit
   * fields, a four-digit year, an English month abbreviation and a `+HHMM` or
   * `-HHMM` offset; the fields must make a valid datetime.
   */
  function ParseTimestamp(s: string): (r: Option<DateTime>)
    ensures r.Some? ==> r.value.offset.Some?
  {
    if !Layout(s) then None
    else
      match MonthNumber(s[3..6])
      case None => None
      case Some(month) =>
        var offsetHours := DecimalValue(s[22..24]);
        var offsetMinutes := DecimalValue(s[24..26]);
        var magnitude := offsetHours * 60 + offsetMinutes;
        var m := Moment(DecimalValue(s[7..11]), month, DecimalValue(s[0..2]),
                        DecimalValue(s[12..14]), DecimalValue(s[15..17]), DecimalValue(s[18..20]),
                        Some(if s[21] == '-' then -magnitude else magnitude));
        if offsetMinutes < 60 && m.Valid() then Some(m) else None
  }

  /**
   * A parsed timestamp carries exactly the values its string spells: the month
   * named by the abbreviation, and the day, year, time of day and signed offset
   * read from their digit positions.
   */
  lemma ParseTimestampSound(s: string)
    requires ParseTimestamp(s).Some?
    ensures var t := ParseTimestamp(s).value;
      && Layout(s)
      && MonthNumber(s[3..6]) == Some(t.month)
      && t.day == DecimalValue(s[0..2]) && t.year == DecimalValue(s[7..11])
      && t.hour == DecimalValue(s[12..14]) && t.minute == DecimalValue(s[15..17])
      && t.second == DecimalValue(s[18..20])
      && DecimalValue(s[24..26]) < 60
      && t.offset == Some(if s[21] == '-' then -(DecimalValue(s[22..24]) * 60 + DecimalValue(s[24..26]))
                          else DecimalValue(s[22..24]) * 60 + DecimalValue(s[24..26]))
  {
  }

  /**
   * When a timestamp is rejected: a layout other than `dd/Mon/YYYY:HH:MM:SS ±HHMM`,
   * an unknown month name, or fields that make no valid datetime (day 0 or past the
   * month's end, year 0, hour 24 or more, minute or second 60 or more, offset
   * minutes 60 or more, or an offset of a whole day or more).
   */
  lemma ParseTimestampRejects(s: string)
    ensures !Layout(s) ==> ParseTimestamp(s).None?
    ensures Layout(s) && MonthNumber(s[3..6]).None? ==> ParseTimestamp(s).None?
    ensures Layout(s) && MonthNumber(s[3..6]).Some? ==>
      var month := MonthNumber(s[3..6]).value;
      var day := DecimalValue(s[0..2]);
      var year := DecimalValue(s[7..11]);
      (ParseTimestamp(s).None? <==>
        || year == 0 || day == 0 || day > DaysInMonth(year, month)
        || DecimalValue(s[12..14]) >= 24 || DecimalValue(s[15..17]) >= 60 || DecimalValue(s[18..20]) >= 60
        || DecimalValue(s[24..26]) >= 60
        || DecimalValue(s[22..24]) * 60 + DecimalValue(s[24..26]) >= MinutesPerDay)
  {
    if Layout(s) && MonthNumber(s[3..6]).Some? {
      assert DecimalValue(s[7..11]) < Pow10(4) == 10000;
    }
  }

  // ---------------------------------------------------------------------------
  // parse_line
  // ---------------------------------------------------------------------------

  /** The log format's placeholder for a missing referrer or user agent. */
  const Dash := "-"

  function DashToNone(s: string): (r: Option<string>)
    ensures r.None? <==> s == Dash
    ensures r.Some? ==> r.value == s
  {
    if s == Dash then None else Some(s)
  }

  /** `LogParser().parse_line(line)`. */
  function ParseLine(line: string): (r: Option<LogRecord>)
    ensures MatchLine(line).None? ==> r.None?
    ensures r.Some? ==>
      var g := MatchLine(line).value;
      var words := Split(g.request);
      && |words| == 3
      && ParseTimestamp(g.timestamp) == Some(r.value.timestamp)
      && r.value.ipAddress == g.ip
      && r.value.httpMethod == words[0] && r.value.path == words[1]
      && AllDigits(g.status) && |g.status| == 3 && r.value.statusCode == DecimalValue(g.status)
      && AllDigits(g.bytesSent) && r.value.bytesSent == DecimalValue(g.bytesSent)
      && r.value.referrer == DashToNone(g.referrer)
      && r.value.userAgent == DashToNone(g.userAgent)
    ensures MatchLine(line).Some? ==>
      (r.Some? <==> |Split(MatchLine(line).value.request)| == 3
                    && ParseTimestamp(MatchLine(line).value.timestamp).Some?)
    ensures r.Some? ==> 0 <= r.value.statusCode <= 999 && r.value.bytesSent >= 0
  {
    match MatchLine(line)
    case None => None
    case Some(g) =>
      var words := Split(g.request);
      if |words| != 3 then None
      else
        match ParseTimestamp(g.timestamp)
        case None => None
        case Some(ts) =>
          Some(LogRecord(g.ip, ts, words[0], words[1], DecimalValue(g.status),
                         DecimalValue(g.bytesSent), DashToNone(g.referrer), DashToNone(g.userAgent)))
  }

  // ---------------------------------------------------------------------------
  // A formatter for the combined format, and the round trip through ParseLine
  // ---------------------------------------------------------------------------

  function NoneToDash(f: Option<string>): string
  {
    if f.Some? then f.value else Dash
  }

  /** The sign of an offset, `+` for zero as Python's `%z` writes it. */
  function OffsetSign(minutes: int): char
  {
    if minutes < 0 then '-' else '+'
  }

  function Abs(x: int): nat { if x < 0 then -x else x }

  /** `t.strftime('%d/%b/%Y:%H:%M:%S %z')` for an offset-aware value. */
  function FormatTimestamp(t: DateTime): (s: string)
    requires t.offset.Some?
    ensures |s| == 26
  {
    var off := Abs(t.offset.value);
    var d, y, h := Padded(t.day, 2), Padded(t.year, 4), Padded(t.hour, 2);
    var mi, se := Padded(t.minute, 2), Padded(t.second, 2);
    var oh, om := Padded(off / 60, 2), Padded(off % 60, 2);
    var mon := MonthName(t.month);
    [d[0], d[1], '/', mon[0], mon[1], mon[2], '/', y[0], y[1], y[2], y[3], ':', h[0], h[1], ':',
     mi[0], mi[1], ':', se[0], se[1], ' ', OffsetSign(t.offset.value), oh[0], oh[1], om[0], om[1]]
  }

  /** Where the date fields of a formatted timestamp sit. */
  lemma FormattedDate(t: DateTime)
    requires t.offset.Some?
    ensures var s := FormatTimestamp(t);
            && s[2] == '/' && s[6] == '/' && s[11] == ':'
            && s[0..2] == Padded(t.day, 2) && s[3..6] == MonthName(t.month)
            && s[7..11] == Padded(t.year, 4)
  {
    FormattedDay(t);
    FormattedMonth(t);
    FormattedYear(t);
  }
  lemma FormattedDay(t: DateTime)
    requires t.offset.Some?
    ensures FormatTimestamp(t)[0..2] == Padded(t.day, 2)
  {
    var s, d := FormatTimestamp(t), Padded(t.day, 2);
    assert s[0] == d[0] && s[1] == d[1];
    SliceMatches(s, 0, d);
  }
  lemma FormattedMonth(t: DateTime)
    requires t.offset.Some?
    ensures FormatTimestamp(t)[3..6] == MonthName(t.month)
  {
    var s, mon := FormatTimestamp(t), MonthName(t.month);
    assert s[3] == mon[0] && s[4] == mon[1] && s[5] == mon[2];
    SliceMatches(s, 3, mon);
  }
  lemma FormattedYear(t: DateTime)
    requires t.offset.Some?
    ensures FormatTimestamp(t)[7..11] == Padded(t.year, 4)
  {
    var s, y := FormatTimestamp(t), Padded(t.year, 4);
    assert s[7] == y[0] && s[8] == y[1] && s[9] == y[2] && s[10] == y[3];
    SliceMatches(s, 7, y);
  }
  /** A slice equals `w` when it agrees with `w` character by character. */
  lemma SliceMatches(s: string, i: nat, w: string)
    requires i + |w| <= |s| && forall k :: 0 <= k < |w| ==> s[i + k] == w[k]
    ensures s[i..i + |w|] == w
  {
  }
  lemma FormattedTime(t: DateTime)
    requires t.offset.Some?
    ensures var s := FormatTimestamp(t);
            && s[14] == ':' && s[17] == ':' && s[20] == ' '
            && s[12..14] == Padded(t.hour, 2) && s[15..17] == Padded(t.minute, 2)
            && s[18..20] == Padded(t.second, 2)
  {
    FormattedHour(t);
    FormattedMinute(t);
    FormattedSecond(t);
  }
  lemma FormattedHour(t: DateTime)
    requires t.offset.Some?
    ensures FormatTimestamp(t)[12..14] == Padded(t.hour, 2)
  {
    var s, w := FormatTimestamp(t), Padded(t.hour, 2);
    assert s[12] == w[0] && s[13] == w[1];
    SliceMatches(s, 12, w);
  }
  lemma FormattedMinute(t: DateTime)
    requires t.offset.Some?
    ensures FormatTimestamp(t)[15..17] == Padded(t.minute, 2)
  {
    var s, w := FormatTimestamp(t), Padded(t.minute, 2);
    assert s[15] == w[0] && s[16] == w[1];
    SliceMatches(s, 15, w);
  }
  lemma FormattedSecond(t: DateTime)
    requires t.offset.Some?
    ensures FormatTimestamp(t)[18..20] == Padded(t.second, 2)
  {
    var s, w := FormatTimestamp(t), Padded(t.second, 2);
    assert s[18] == w[0] && s[19] == w[1];
    SliceMatches(s, 18, w);
  }

  /** Where the offset of a formatted timestamp sits. */
  lemma FormattedOffset(t: DateTime)
    requires t.offset.Some?
    ensures var s := FormatTimestamp(t);
            var off := Abs(t.offset.value);
            && s[21] == OffsetSign(t.offset.value)
            && s[22..24] == Padded(off / 60, 2) && s[24..26] == Padded(off % 60, 2)
  {
    var s := FormatTimestamp(t);
    var off := Abs(t.offset.value);
    var oh, om := Padded(off / 60, 2), Padded(off % 60, 2);
    assert s[22] == oh[0] && s[23] == oh[1];
    SliceMatches(s, 22, oh);
    assert s[24] == om[0] && s[25] == om[1];
    SliceMatches(s, 24, om);
  }

  /** Parsing a formatted timestamp gives the same value back. */
  lemma TimestampLayout(t: DateTime)
    requires t.offset.Some?
    ensures Layout(FormatTimestamp(t))
    ensures MonthNumber(FormatTimestamp(t)[3..6]) == Some(t.month)
  {
    FormattedDate(t);
    FormattedTime(t);
    FormattedOffset(t);
    MonthNumberOfName(t.month);
  }
  lemma TimestampOffset(t: DateTime)
    requires t.offset.Some?
    ensures var s := FormatTimestamp(t);
            && DecimalValue(s[24..26]) < 60
            && (s[21] == '-' <==> t.offset.value < 0)
            && (DecimalValue(s[22..24]) * 60 + DecimalValue(s[24..26])) == Abs(t.offset.value)
  {
    FormattedOffset(t);
  }
  lemma TimestampFields(t: DateTime)
    requires t.offset.Some?
    ensures var s := FormatTimestamp(t);
            && DecimalValue(s[0..2]) == t.day && DecimalValue(s[7..11]) == t.year
            && DecimalValue(s[12..14]) == t.hour && DecimalValue(s[15..17]) == t.minute
            && DecimalValue(s[18..20]) == t.second
  {
    FormattedDate(t);
    FormattedTime(t);
  }
  /** A timestamp whose fields read back as those of `t` parses to `t`. */
  lemma ParsesTo(s: string, t: DateTime)
    requires t.offset.Some? && Layout(s) && MonthNumber(s[3..6]) == Some(t.month)
    requires DecimalValue(s[0..2]) == t.day && DecimalValue(s[7..11]) == t.year
    requires DecimalValue(s[12..14]) == t.hour && DecimalValue(s[15..17]) == t.minute
    requires DecimalValue(s[18..20]) == t.second
    requires DecimalValue(s[24..26]) < 60
    requires s[21] == '-' <==> t.offset.value < 0
    requires DecimalValue(s[22..24]) * 60 + DecimalValue(s[24..26]) == Abs(t.offset.value)
    ensures ParseTimestamp(s) == Some(t)
  {
  }
  lemma TimestampRoundTrip(t: DateTime)
    requires t.offset.Some?
    ensures ParseTimestamp(FormatTimestamp(t)) == Some(t)
  {
    TimestampLayout(t);
    TimestampOffset(t);
    TimestampFields(t);
    ParsesTo(FormatTimestamp(t), t);
  }

  /** A record that the formatter can write so that the pattern captures each field back. */
  predicate Formattable(r: LogRecord)
  {
    && IsDottedDigits(r.ipAddress, 3)
    && r.timestamp.offset.Some?
    && IsWord(r.httpMethod) && '"' !in r.httpMethod
    && IsWord(r.path) && '"' !in r.path
    && 0 <= r.statusCode <= 999
    && r.bytesSent >= 0
    && (r.referrer.Some? ==> r.referrer.value != Dash && QuotedFree(r.referrer.value))
    && (r.userAgent.Some? ==> r.userAgent.value != Dash && QuotedFree(r.userAgent.value))
  }

  /** Text that can stand between double quotes without ending the group early. */
  predicate QuotedFree(s: string) { '"' !in s && '\n' !in s }

  /**
   * One line in the combined format:
   * `IP - - [timestamp] "METHOD PATH PROTOCOL" STATUS BYTES "REFERRER" "USER_AGENT"`.
   */
  function FormatLine(r: LogRecord, protocol: string, ending: string): string
    requires Formattable(r)
  {
    r.ipAddress + (IdentAndUser + (FormatTimestamp(r.timestamp) + ("] \"" +
    (JoinSpaced([r.httpMethod, r.path, protocol]) + ("\" " + (Padded(r.statusCode, 3) + (" " +
    (Decimal(r.bytesSent) + (" \"" + (NoneToDash(r.referrer) + ("\" \"" +
    (NoneToDash(r.userAgent) + ("\"" + ending)))))))))))))
  }

  /** A lazy group whose body holds neither its closing character nor a newline ends at the first `close`. */
  lemma {:induction false} LazyGroupFirst(body: string, close: char, tail: string, rest: Continuation,
                                          shape: seq<string> -> bool)
    requires forall u :: rest(u).Some? ==> shape(rest(u).value)
    requires close !in body && '\n' !in body && close != '\n'
    requires rest(tail).Some?
    ensures LazyGroup(body + ([close] + tail), close, rest, shape) == Some([body] + rest(tail).value)
  {
    var t := body + ([close] + tail);
    if body == [] {
      assert t == [close] + tail;
      assert t[1..] == tail;
    } else {
      assert t[1..] == body[1..] + ([close] + tail);
      LazyGroupFirst(body[1..], close, tail, rest, shape);
      assert [body[0]] + body[1..] == body;
    }
  }

  /** A dotted-digits match that ends where `s` ends is kept when the next character is not a digit or a dot. */
  lemma {:induction false} DottedDigitsThen(s: string, x: string, i: nat, dots: nat)
    requires i <= |s| && DottedDigits(s, i, dots) == Some(|s|)
    requires x == [] || (!IsDigit(x[0]) && x[0] != '.')
    ensures DottedDigits(s + x, i, dots) == Some(|s|)
    decreases dots
  {
    var j := DigitsEnd(s, i);
    if dots == 0 {
      DigitsEndThen(s, x, i);
    } else {
      DigitsEndAppend(s, x, i);
      assert (s + x)[j] == s[j];
      DottedDigitsThen(s, x, j + 1, dots - 1);
    }
  }

  lemma PrefixThen(p: string, lit: string, u: string)
    ensures (p + (lit + u))[..|p|] == p
    ensures (p + (lit + u))[|p|..|p| + |lit|] == lit
    ensures (p + (lit + u))[|p|..][..|lit|] == lit
    ensures (p + (lit + u))[|p| + |lit|..] == u
  {
  }

  /** The user-agent group ends at its closing quote; the text after it is ignored. */
  lemma UserAgentStage(ua: string, trailing: string)
    requires QuotedFree(ua)
    ensures LazyGroup(ua + ("\"" + trailing), '"', Done, NoCaptures) == Some([ua])
  {
    assert "\"" + trailing == ['"'] + trailing;
    LazyGroupFirst(ua, '"', trailing, Done, NoCaptures);
    assert [ua] + [] == [ua];
  }

  lemma AfterReferrerStage(ua: string, u0: string)
    requires LazyGroup(u0, '"', Done, NoCaptures) == Some([ua])
    ensures AfterReferrer(" \"" + u0) == Some([ua])
  {
    PrefixThen([], " \"", u0);
    assert [] + (" \"" + u0) == " \"" + u0;
  }

  lemma ReferrerStage(ref: string, ua: string, u0: string)
    requires QuotedFree(ref) && LazyGroup(u0, '"', Done, NoCaptures) == Some([ua])
    ensures LazyGroup(ref + ("\" \"" + u0), '"', AfterReferrer, UserAgentCaptures) == Some([ref, ua])
  {
    AfterReferrerStage(ua, u0);
    assert "\" \"" + u0 == ['"'] + (" \"" + u0);
    LazyGroupFirst(ref, '"', " \"" + u0, AfterReferrer, UserAgentCaptures);
    assert [ref] + [ua] == [ref, ua];
  }

  lemma BytesStage(bs: string, ref: string, ua: string, u2: string)
    requires |bs| > 0 && AllDigits(bs)
    requires LazyGroup(u2, '"', AfterReferrer, UserAgentCaptures) == Some([ref, ua])
    ensures BytesAndAfter(bs + (" \"" + u2)) == Some([bs, ref, ua])
  {
    var u3 := bs + (" \"" + u2);
    DigitsEndAll(bs, 0);
    DigitsEndThen(bs, " \"" + u2, 0);
    assert u3[..|bs|] == bs;
    PrefixThen(bs, " \"", u2);
    assert " \"" <= u3[|bs|..];
    assert u3[|bs|..][2..] == u2;
    assert [bs] + [ref, ua] == [bs, ref, ua];
  }

  lemma StatusStage(st: string, bs: string, ref: string, ua: string, u3: string)
    requires |st| == 3 && AllDigits(st)
    requires BytesAndAfter(u3) == Some([bs, ref, ua])
    ensures StatusAndAfter(st + (" " + u3)) == Some([st, bs, ref, ua])
  {
    PrefixThen(st, " ", u3);
    var u4 := st + (" " + u3);
    assert u4[3] == ' ';
    assert AllDigits(u4[..3]);
    assert BytesAndAfter(u4[4..]) == Some([bs, ref, ua]);
    assert [st] + [bs, ref, ua] == [st, bs, ref, ua];
  }

  /** Everything after the request's closing quote and space is captured field by field. */
  lemma StatusRoundTrip(st: string, bs: string, ref: string, ua: string, trailing: string)
    requires |st| == 3 && AllDigits(st) && |bs| > 0 && AllDigits(bs)
    requires QuotedFree(ref) && QuotedFree(ua)
    ensures StatusAndAfter(st + (" " + (bs + (" \"" + (ref + ("\" \"" + (ua + ("\"" + trailing))))))))
            == Some([st, bs, ref, ua])
  {
    var u0 := ua + ("\"" + trailing);
    UserAgentStage(ua, trailing);
    var u2 := ref + ("\" \"" + u0);
    ReferrerStage(ref, ua, u0);
    var u3 := bs + (" \"" + u2);
    BytesStage(bs, ref, ua, u2);
    StatusStage(st, bs, ref, ua, u3);
  }

  lemma RequestStage(req: string, gs: seq<string>, u4: string)
    requires QuotedFree(req) && StatusAndAfter(u4) == Some(gs)
    ensures LazyGroup(req + ("\" " + u4), '"', AfterRequest, StatusCaptures) == Some([req] + gs)
  {
    var u5 := " " + u4;
    assert u5[0] == ' ' && u5[1..] == u4;
    assert AfterRequest(u5) == Some(gs);
    assert "\" " + u4 == ['"'] + u5;
    LazyGroupFirst(req, '"', u5, AfterRequest, StatusCaptures);
  }

  lemma TimestampStage(ts: string, gs: seq<string>, u6: string)
    requires ']' !in ts && '\n' !in ts
    requires LazyGroup(u6, '"', AfterRequest, StatusCaptures) == Some(gs)
    ensures LazyGroup(ts + ("] \"" + u6), ']', AfterTimestamp, RequestCaptures) == Some([ts] + gs)
  {
    var u7 := " \"" + u6;
    assert " \"" <= u7 && u7[2..] == u6;
    assert AfterTimestamp(u7) == Some(gs);
    assert "] \"" + u6 == [']'] + u7;
    LazyGroupFirst(ts, ']', u7, AfterTimestamp, RequestCaptures);
  }

  lemma AddressStage(ip: string, gs: seq<string>, u8: string)
    requires IsDottedDigits(ip, 3) && |gs| == 6
    requires LazyGroup(u8, ']', AfterTimestamp, RequestCaptures) == Some(gs)
    ensures MatchLine(ip + (IdentAndUser + u8)) == Some(Groups(ip, gs[0], gs[1], gs[2], gs[3], gs[4], gs[5]))
  {
    var line := ip + (IdentAndUser + u8);
    DottedDigitsThen(ip, IdentAndUser + u8, 0, 3);
    PrefixThen(ip, IdentAndUser, u8);
    assert IdentAndUser <= line[|ip|..];
  }

  /** A formatted timestamp cannot end the bracketed group early. */
  lemma FormattedTimestampBracketFree(t: DateTime)
    requires t.offset.Some?
    ensures ']' !in FormatTimestamp(t) && '\n' !in FormatTimestamp(t)
  {
    var s := FormatTimestamp(t);
    forall i | 0 <= i < 26 ensures s[i] != ']' && s[i] != '\n' {
      var mon := MonthName(t.month);
      assert mon[0] != ']' && mon[1] != ']' && mon[2] != ']';
      assert mon[0] != '\n' && mon[1] != '\n' && mon[2] != '\n';
    }
  }

  /** The request line a formatter writes splits back into its three words and holds no quote. */
  lemma RequestWords(m: string, p: string, protocol: string)
    requires IsWord(m) && IsWord(p) && IsWord(protocol)
    requires '"' !in m && '"' !in p && '"' !in protocol
    ensures QuotedFree(JoinSpaced([m, p, protocol]))
    ensures Split(JoinSpaced([m, p, protocol])) == [m, p, protocol]
  {
    var ws := [m, p, protocol];
    assert ws[1..] == [p, protocol] && ws[1..][1..] == [protocol];
    assert JoinSpaced(ws[1..]) == p + ([' '] + protocol);
    assert JoinSpaced(ws) == m + ([' '] + (p + ([' '] + protocol)));
    SplitJoined(ws);
  }

  /** The regular expression matches a line laid out in the combined format and captures its pieces. */
  lemma PrependFive(a: string, b: string, c: string, d: string, e: string)
    ensures [a] + [b, c, d, e] == [a, b, c, d, e]
  {
  }
  lemma PrependSix(a: string, b: string, c: string, d: string, e: string, f: string)
    ensures [a] + [b, c, d, e, f] == [a, b, c, d, e, f]
  {
  }
  lemma LineMatch(ip: string, ts: string, req: string, st: string, bs: string, ref: string, ua: string,
                  trailing: string)
    requires IsDottedDigits(ip, 3) && ']' !in ts && '\n' !in ts && QuotedFree(req)
    requires |st| == 3 && AllDigits(st) && |bs| > 0 && AllDigits(bs)
    requires QuotedFree(ref) && QuotedFree(ua)
    ensures MatchLine(ip + (IdentAndUser + (ts + ("] \"" + (req + ("\" " + (st + (" " + (bs + (" \"" +
            (ref + ("\" \"" + (ua + ("\"" + trailing))))))))))))))
            == Some(Groups(ip, ts, req, st, bs, ref, ua))
  {
    var u4 := st + (" " + (bs + (" \"" + (ref + ("\" \"" + (ua + ("\"" + trailing)))))));
    StatusRoundTrip(st, bs, ref, ua, trailing);
    RequestStage(req, [st, bs, ref, ua], u4);
    var u6 := req + ("\" " + u4);
    PrependFive(req, st, bs, ref, ua);
    TimestampStage(ts, [req, st, bs, ref, ua], u6);
    var u8 := ts + ("] \"" + u6);
    PrependSix(ts, req, st, bs, ref, ua);
    AddressStage(ip, [ts, req, st, bs, ref, ua], u8);
  }

  /** The regular expression matches a formatted line and captures the pieces written into it. */
  lemma FormattedMatch(r: LogRecord, protocol: string, trailing: string)
    requires Formattable(r) && IsWord(protocol) && '"' !in protocol
    ensures MatchLine(FormatLine(r, protocol, trailing)) ==
      Some(Groups(r.ipAddress, FormatTimestamp(r.timestamp), JoinSpaced([r.httpMethod, r.path, protocol]),
                  Padded(r.statusCode, 3), Decimal(r.bytesSent), NoneToDash(r.referrer), NoneToDash(r.userAgent)))
  {
    RequestWords(r.httpMethod, r.path, protocol);
    FormattedTimestampBracketFree(r.timestamp);
    LineMatch(r.ipAddress, FormatTimestamp(r.timestamp), JoinSpaced([r.httpMethod, r.path, protocol]),
              Padded(r.statusCode, 3), Decimal(r.bytesSent), NoneToDash(r.referrer), NoneToDash(r.userAgent),
              trailing);
  }

  /**
   * Round trip: a formatted record, followed by any trailing text such as the
   * newline a file line keeps, parses back to the same record.
   */
  lemma RoundTrip(r: LogRecord, protocol: string, trailing: string)
    requires Formattable(r) && IsWord(protocol) && '"' !in protocol
    ensures ParseLine(FormatLine(r, protocol, trailing)) == Some(r)
  {
    FormattedMatch(r, protocol, trailing);
    RequestWords(r.httpMethod, r.path, protocol);
    TimestampRoundTrip(r.timestamp);
  }

  // ---------------------------------------------------------------------------
  // What a match captures: the groups are consecutive pieces of the line
  // ---------------------------------------------------------------------------

  /** The text LOG_PATTERN consumes when it matches with groups `g`. */
  function Reassembled(g: Groups): string
  {
    g.ip + (IdentAndUser + (g.timestamp + ("]" + (" \"" + (g.request + ("\"" + (" " + (g.status + (" " +
    (g.bytesSent + (" \"" + (g.referrer + ("\"" + (" \"" + (g.userAgent + "\"")))))))))))))))
  }

  /** A prefix of `t` followed by a prefix of the rest is a prefix of `t`. */
  lemma PrefixJoin(p: string, q: string, t: string)
    requires p <= t && q <= t[|p|..]
    ensures p + q <= t
  {
    assert (p + q) == t[..|p| + |q|];
  }

  /** A digit run that ends within the first `n` characters ends at the same place in them. */
  lemma {:induction false} DigitsEndTruncate(t: string, n: nat, i: nat)
    requires i <= n <= |t| && DigitsEnd(t, i) <= n
    ensures DigitsEnd(t[..n], i) == DigitsEnd(t, i)
    decreases n - i
  {
    if i < n && IsDigit(t[i]) {
      DigitsEndTruncate(t, n, i + 1);
    }
  }

  /** The text a dotted-digits match consumed matches on its own. */
  lemma {:induction false} DottedDigitsPrefix(t: string, i: nat, dots: nat, n: nat)
    requires i <= |t| && DottedDigits(t, i, dots) == Some(n)
    ensures DottedDigits(t[..n], i, dots) == Some(n)
    decreases dots
  {
    var j := DigitsEnd(t, i);
    DigitsEndTruncate(t, n, i);
    if dots > 0 {
      assert t[..n][j] == t[j];
      DottedDigitsPrefix(t, j + 1, dots - 1, n);
      assert t[..n][..n] == t[..n];
    }
  }

  /** A successful lazy group consumed its body and `close`, and the continuation's text follows. */
  lemma GroupPrefix(t: string, close: char, rest: Continuation, shape: seq<string> -> bool, q: string)
    requires forall u :: rest(u).Some? ==> shape(rest(u).value)
    requires LazyGroup(t, close, rest, shape).Some?
    requires var gs := LazyGroup(t, close, rest, shape).value;
             q <= t[|gs[0]| + 1..]
    ensures var gs := LazyGroup(t, close, rest, shape).value;
            gs[0] + ([close] + q) <= t && '\n' !in gs[0]
  {
    LazyGroupMeaning(t, close, rest, shape);
    var g0 := LazyGroup(t, close, rest, shape).value[0];
    assert [close] <= t[|g0|..];
    PrefixJoin([close], q, t[|g0|..]);
    assert t[|g0|..][1..] == t[|g0| + 1..];
    PrefixJoin(g0, [close] + q, t);
  }

  lemma AfterReferrerSound(t: string)
    requires AfterReferrer(t).Some?
    ensures var gs := AfterReferrer(t).value;
            " \"" + (gs[0] + "\"") <= t && '\n' !in gs[0]
  {
    var u := t[2..];
    var g0 := AfterReferrer(t).value[0];
    assert Done(u[|g0| + 1..]) == Some([]);
    GroupPrefix(u, '"', Done, NoCaptures, []);
    assert g0 + "\"" == g0 + (['"'] + []);
    PrefixJoin(" \"", g0 + "\"", t);
  }

  lemma BytesSound(t: string)
    requires BytesAndAfter(t).Some?
    ensures var gs := BytesAndAfter(t).value;
            && gs[0] + (" \"" + (gs[1] + ("\"" + (" \"" + (gs[2] + "\""))))) <= t
            && '\n' !in gs[1] && '\n' !in gs[2]
  {
    var gs := BytesAndAfter(t).value;
    var j := DigitsEnd(t, 0);
    var u := t[j + 2..];
    var inner := LazyGroup(u, '"', AfterReferrer, UserAgentCaptures).value;
    assert gs == [t[..j]] + inner;
    LazyGroupMeaning(u, '"', AfterReferrer, UserAgentCaptures);
    AfterReferrerSound(u[|inner[0]| + 1..]);
    assert AfterReferrer(u[|inner[0]| + 1..]).value == inner[1..];
    var q := " \"" + (gs[2] + "\"");
    GroupPrefix(u, '"', AfterReferrer, UserAgentCaptures, q);
    assert gs[1] + ("\"" + q) == inner[0] + (['"'] + q);
    assert t[j..][2..] == u;
    PrefixJoin(" \"", gs[1] + ("\"" + q), t[j..]);
    assert t[..j] <= t;
    PrefixJoin(gs[0], " \"" + (gs[1] + ("\"" + q)), t);
  }

  lemma StatusSound(t: string)
    requires StatusAndAfter(t).Some?
    ensures var gs := StatusAndAfter(t).value;
            && gs[0] + (" " + (gs[1] + (" \"" + (gs[2] + ("\"" + (" \"" + (gs[3] + "\""))))))) <= t
            && '\n' !in gs[2] && '\n' !in gs[3]
  {
    var gs := StatusAndAfter(t).value;
    var inner := BytesAndAfter(t[4..]).value;
    assert gs == [t[..3]] + inner;
    BytesSound(t[4..]);
    var q := inner[0] + (" \"" + (inner[1] + ("\"" + (" \"" + (inner[2] + "\"")))));
    assert t[3..][1..] == t[4..];
    PrefixJoin(" ", q, t[3..]);
    PrefixJoin(t[..3], " " + q, t);
  }

  lemma AfterTimestampSound(t: string)
    requires AfterTimestamp(t).Some?
    ensures var gs := AfterTimestamp(t).value;
            " \"" + (gs[0] + ("\"" + (" " + (gs[1] + (" " + (gs[2] + (" \"" + (gs[3] + ("\"" +
            (" \"" + (gs[4] + "\""))))))))))) <= t
            && '\n' !in gs[0] && '\n' !in gs[3] && '\n' !in gs[4]
  {
    var gs := AfterTimestamp(t).value;
    var u := t[2..];
    LazyGroupMeaning(u, '"', AfterRequest, StatusCaptures);
    var after := u[|gs[0]| + 1..];
    assert AfterRequest(after) == Some(gs[1..]);
    StatusSound(after[1..]);
    var q0 := gs[1] + (" " + (gs[2] + (" \"" + (gs[3] + ("\"" + (" \"" + (gs[4] + "\"")))))));
    PrefixJoin(" ", q0, after);
    GroupPrefix(u, '"', AfterRequest, StatusCaptures, " " + q0);
    PrefixJoin(" \"", gs[0] + ("\"" + (" " + q0)), t);
  }

  /**
   * Whatever LOG_PATTERN captures: the address is four dot-separated digit runs,
   * the status three digits, the byte count at least one digit, no group holds
   * a newline, and the groups with the literal text between them are the start of
   * the line, in order.
   */
  lemma MatchLineSound(line: string)
    requires MatchLine(line).Some?
    ensures var g := MatchLine(line).value;
            && Reassembled(g) <= line
            && IsDottedDigits(g.ip, 3)
            && |g.status| == 3 && AllDigits(g.status) && |g.bytesSent| > 0 && AllDigits(g.bytesSent)
            && '\n' !in g.timestamp && '\n' !in g.request && '\n' !in g.referrer && '\n' !in g.userAgent
  {
    var g := MatchLine(line).value;
    var k := DottedDigits(line, 0, 3).value;
    var u := line[k + |IdentAndUser|..];
    var gs := LazyGroup(u, ']', AfterTimestamp, RequestCaptures).value;
    LazyGroupMeaning(u, ']', AfterTimestamp, RequestCaptures);
    var after := u[|gs[0]| + 1..];
    AfterTimestampSound(after);
    assert AfterTimestamp(after).value == gs[1..];
    assert g == Groups(line[..k], gs[0], gs[1], gs[2], gs[3], gs[4], gs[5]);
    var q := " \"" + (gs[1] + ("\"" + (" " + (gs[2] + (" " + (gs[3] + (" \"" + (gs[4] + ("\"" +
             (" \"" + (gs[5] + "\"")))))))))));
    GroupPrefix(u, ']', AfterTimestamp, RequestCaptures, q);
    assert "]" + q == [']'] + q;
    assert line[k..][|IdentAndUser|..] == u;
    PrefixJoin(IdentAndUser, gs[0] + ("]" + q), line[k..]);
    PrefixJoin(line[..k], IdentAndUser + (gs[0] + ("]" + q)), line);
    DottedDigitsPrefix(line, 0, 3, k);
  }
}
