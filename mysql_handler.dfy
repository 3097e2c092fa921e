/**
 * `MySQLHandler`: the write path into the two tables it keeps (`user_agents`, a
 * dimension table with one row per distinct user-agent string, and `log_entries`,
 * the fact table filled with `INSERT IGNORE`), and the three read-only reports it
 * runs over `log_entries`.
 *
 * The database is modelled as its contents. `Tables` is a snapshot of both tables
 * and of the `AUTO_INCREMENT` counter of `user_agents`. `Resolve`, `InsertOne` and
 * `InsertAll` say what each statement does to a snapshot. The class `LogStore`
 * holds the tables as fields and its methods update them in place, proved
 * against those functions.
 *
 * The unique key of `log_entries` is declared in a schema file that is not part of
 * this model, so it stays abstract: a function `keyOf` from a row to its key.
 */
module MySqlHandler {
  import opened Wrappers
  import opened Text
  import opened Calendar
  import opened LogParser
  import opened UserAgentClassifier
  import opened Grouping

  // ---------------------------------------------------------------------------
  // Timestamp normalisation
  // ---------------------------------------------------------------------------

  /**
   * `_normalize_ts`: an offset-aware value becomes the naive value of the same
   * instant in UTC; a naive value is returned unchanged. `None` stands for the
   * `OverflowError` that `astimezone` raises when the UTC date falls before year 1
   * or after year 9999.
   */
  function NormalizeTs(t: DateTime): (r: Option<DateTime>)
    ensures t.offset.None? ==> r == Some(t)
    ensures r.Some? ==> r.value.offset.None? && LocalSeconds(r.value) == UtcSeconds(t)
  {
    if t.offset.None? then Some(t)
    else
      var minutes := t.hour * 60 + t.minute - t.offset.value;
      if minutes < 0 then
        match PrevDay(t.year, t.month, t.day)
        case None => None
        case Some(date) => Some(AtMinute(date, minutes + MinutesPerDay, t.second))
      else if minutes < MinutesPerDay then
        Some(AtMinute((t.year, t.month, t.day), minutes, t.second))
      else
        match NextDay(t.year, t.month, t.day)
        case None => None
        case Some(date) => Some(AtMinute(date, minutes - MinutesPerDay, t.second))
  }

  /** Normalisation fails exactly when the instant lies outside the years 1 to 9999 in UTC. */
  lemma NormalizeTsFails(t: DateTime)
    ensures NormalizeTs(t).None? <==> UtcSeconds(t) < FirstSecond() || UtcSeconds(t) >= EndSecond()
  {
    match NormalizeTs(t)
    case Some(u) => SecondsInRange(u);
    case None =>
  }

  /** Normalising a normalised value changes nothing. */
  lemma NormalizeTsIdempotent(t: DateTime)
    requires NormalizeTs(t).Some?
    ensures NormalizeTs(NormalizeTs(t).value) == NormalizeTs(t)
  {
  }

  /** Two values denoting the same instant normalise to the same value. */
  lemma NormalizeTsSameInstant(t: DateTime, u: DateTime)
    requires UtcSeconds(t) == UtcSeconds(u)
    ensures NormalizeTs(t) == NormalizeTs(u)
  {
    NormalizeTsFails(t);
    NormalizeTsFails(u);
    if NormalizeTs(t).Some? {
      NaiveInstantUnique(NormalizeTs(t).value, NormalizeTs(u).value);
    }
  }

  /** A naive value is determined by the second it denotes. */
  lemma NaiveInstantUnique(a: DateTime, b: DateTime)
    requires a.offset.None? && b.offset.None? && LocalSeconds(a) == LocalSeconds(b)
    ensures a == b
  {
    var da, db := Ordinal(a.year, a.month, a.day), Ordinal(b.year, b.month, b.day);
    var sa, sb := a.hour * 3600 + a.minute * 60 + a.second, b.hour * 3600 + b.minute * 60 + b.second;
    assert da * SecondsPerDay + sa == db * SecondsPerDay + sb;
    assert da == db;
    OrdinalInjective(a.year, a.month, a.day, b.year, b.month, b.day);
  }

  /** Distinct dates have distinct day numbers. */
  lemma OrdinalInjective(y1: int, m1: int, d1: int, y2: int, m2: int, d2: int)
    requires Moment(y1, m1, d1, 0, 0, 0, None).ValidDate() && Moment(y2, m2, d2, 0, 0, 0, None).ValidDate()
    requires Ordinal(y1, m1, d1) == Ordinal(y2, m2, d2)
    ensures (y1, m1, d1) == (y2, m2, d2)
  {
    if y1 < y2 {
      YearEndsBefore(y1, m1, d1, y2);
    } else if y2 < y1 {
      YearEndsBefore(y2, m2, d2, y1);
    } else {
      assert DaysBeforeMonth(y1, m1) + d1 == DaysBeforeMonth(y2, m2) + d2;
    }
  }

  /** Every day of year `y` comes before every day of a later year. */
  lemma YearEndsBefore(y: int, m: int, d: int, z: int)
    requires Moment(y, m, d, 0, 0, 0, None).ValidDate() && y < z
    ensures Ordinal(y, m, d) < DaysBeforeYear(z) + 1
  {
    assert DaysBeforeMonth(y, m) + DaysInMonth(y, m) <= (if IsLeapYear(y) then 366 else 365);
    DaysBeforeYearMonotone(y + 1, z);
  }

  // ---------------------------------------------------------------------------
  // The tables
  // ---------------------------------------------------------------------------

  /** A `user_agents` row, keyed by its `user_agent_string`. */
  datatype UserAgentRow = UserAgentRow(id: nat, os: Os, browser: Browser, device: Device)

  /** A `log_entries` row. */
  datatype Entry = Entry(
    ipAddress: string,
    timestamp: DateTime,
    httpMethod: string,
    path: string,
    statusCode: int,
    bytesSent: int,
    referrer: Option<string>,
    userAgentId: Option<nat>)

  /** Both tables and the next id `AUTO_INCREMENT` hands out in `user_agents`. */
  datatype Tables = Tables(userAgents: map<string, UserAgentRow>, nextId: nat, entries: seq<Entry>)

  /**
   * The unique key of `log_entries` is `keyOf(e)`: `None` when one of the key's
   * columns holds `NULL`, since a unique index never matches such a key.
   */

  /** Some `log_entries` row has unique key `k`. */
  predicate KeyPresent<K(==)>(keyOf: Entry -> Option<K>, entries: seq<Entry>, k: K)
  {
    exists i :: 0 <= i < |entries| && keyOf(entries[i]) == Some(k)
  }

  /** No two `log_entries` rows share a unique key free of `NULL`. */
  predicate KeysUnique<K(==)>(keyOf: Entry -> Option<K>, entries: seq<Entry>)
  {
    forall i, j :: 0 <= i < j < |entries| && keyOf(entries[i]).Some? ==> keyOf(entries[i]) != keyOf(entries[j])
  }

  /** Every key column is declared `NOT NULL`. */
  ghost predicate NeverNull<K>(keyOf: Entry -> Option<K>)
  {
    forall e :: keyOf(e).Some?
  }

  /**
   * What the tables keep true: ids below the counter and distinct, one row per
   * user-agent string (a map), every `user_agent_id` naming a row, unique keys in
   * `log_entries` and naive UTC timestamps there.
   */
  ghost predicate TablesValid<K>(keyOf: Entry -> Option<K>, t: Tables)
  {
    && t.nextId >= 1
    && (forall s :: s in t.userAgents ==> 1 <= t.userAgents[s].id < t.nextId)
    && (forall s1, s2 :: s1 in t.userAgents && s2 in t.userAgents && s1 != s2 ==>
          t.userAgents[s1].id != t.userAgents[s2].id)
    && (forall i :: 0 <= i < |t.entries| && t.entries[i].userAgentId.Some? ==>
          exists s :: s in t.userAgents && t.userAgents[s].id == t.entries[i].userAgentId.value)
    && KeysUnique(keyOf, t.entries)
    && (forall i :: 0 <= i < |t.entries| ==> t.entries[i].timestamp.offset.None?)
  }

  /** The tables of a fresh database. */
  function EmptyTables(): Tables { Tables(map[], 1, []) }

  lemma EmptyTablesValid<K>(keyOf: Entry -> Option<K>)
    ensures TablesValid(keyOf, EmptyTables())
  {
  }

  /** The classification a new `user_agents` row is filled with. */
  function NewUserAgentRow(id: nat, ua: string): (row: UserAgentRow)
  {
    UserAgentRow(id, OsOf(ua), BrowserOf(ua), DeviceOf(ua))
  }

  /**
   * `_get_or_insert_user_agent`: no id for a missing or empty string; the stored id
   * for a known string; otherwise a new classified row under the next id.
   */
  function Resolve(t: Tables, ua: Option<string>): (r: (Tables, Option<nat>))
    ensures r.1.None? <==> ua.None? || ua.value == ""
    ensures r.1.None? ==> r.0 == t
    ensures ua.Some? && ua.value != "" && ua.value in t.userAgents ==> r == (t, Some(t.userAgents[ua.value].id))
    ensures ua.Some? && ua.value != "" && ua.value !in t.userAgents ==>
      && r.1 == Some(t.nextId)
      && r.0 == t.(userAgents := t.userAgents[ua.value := NewUserAgentRow(t.nextId, ua.value)],
                   nextId := t.nextId + 1)
  {
    if ua.None? || ua.value == "" then (t, None)
    else if ua.value in t.userAgents then (t, Some(t.userAgents[ua.value].id))
    else
      (t.(userAgents := t.userAgents[ua.value := NewUserAgentRow(t.nextId, ua.value)], nextId := t.nextId + 1),
       Some(t.nextId))
  }

  /**
   * After resolving, the string has exactly one row, the returned id is that row's,
   * every other row is unchanged, at most one row was added, and `log_entries` is
   * untouched; the tables stay valid.
   */
  lemma ResolveMeaning<K>(keyOf: Entry -> Option<K>, t: Tables, ua: Option<string>)
    requires TablesValid(keyOf, t)
    ensures var (t', id) := Resolve(t, ua);
      && TablesValid(keyOf, t')
      && t'.entries == t.entries
      && (forall s :: s in t.userAgents ==> s in t'.userAgents && t'.userAgents[s] == t.userAgents[s])
      && (forall s :: s in t'.userAgents && s !in t.userAgents ==> ua == Some(s))
      && (id.Some? ==> ua.value in t'.userAgents && t'.userAgents[ua.value].id == id.value)
      && (id.Some? && ua.value !in t.userAgents ==>
            forall s :: s in t.userAgents ==> t.userAgents[s].id != id.value)
  {
    var (t', id) := Resolve(t, ua);
    if ua.Some? && ua.value != "" && ua.value !in t.userAgents {
      forall i | 0 <= i < |t'.entries| && t'.entries[i].userAgentId.Some?
        ensures exists s :: s in t'.userAgents && t'.userAgents[s].id == t'.entries[i].userAgentId.value
      {
        var s :| s in t.userAgents && t.userAgents[s].id == t.entries[i].userAgentId.value;
        assert s in t'.userAgents && t'.userAgents[s] == t.userAgents[s];
      }
    }
  }

  /** Resolving the same string again returns the same id and adds nothing. */
  lemma ResolveIdempotent(t: Tables, ua: Option<string>)
    ensures var (t', id) := Resolve(t, ua); Resolve(t', ua) == (t', id)
  {
  }

  /** The `log_entries` row for a parsed record, its normalised timestamp and its user-agent id. */
  function MakeEntry(r: LogRecord, ts: DateTime, id: Option<nat>): Entry
  {
    Entry(r.ipAddress, ts, r.httpMethod, r.path, r.statusCode, r.bytesSent, r.referrer, id)
  }

  /**
   * `INSERT IGNORE`: the row is added unless a row with its key is already present;
   * a row whose key holds `NULL` is always added.
   */
  function InsertIgnore<K(==)>(keyOf: Entry -> Option<K>, entries: seq<Entry>, e: Entry): (r: seq<Entry>)
    ensures keyOf(e).Some? && KeyPresent(keyOf, entries, keyOf(e).value) ==> r == entries
    ensures keyOf(e).None? || !KeyPresent(keyOf, entries, keyOf(e).value) ==> r == entries + [e]
  {
    if keyOf(e).Some? && KeyPresent(keyOf, entries, keyOf(e).value) then entries else entries + [e]
  }

  /** `INSERT IGNORE` keeps keys unique and leaves a row with the new key present. */
  lemma InsertIgnoreUnique<K>(keyOf: Entry -> Option<K>, entries: seq<Entry>, e: Entry)
    requires KeysUnique(keyOf, entries)
    ensures KeysUnique(keyOf, InsertIgnore(keyOf, entries, e))
    ensures keyOf(e).Some? ==> KeyPresent(keyOf, InsertIgnore(keyOf, entries, e), keyOf(e).value)
  {
    var r := InsertIgnore(keyOf, entries, e);
    if keyOf(e).None? || !KeyPresent(keyOf, entries, keyOf(e).value) {
      assert r[|entries|] == e;
    }
  }

  /**
   * One pass of the loop body: resolve the user agent, normalise the timestamp,
   * insert with duplicates ignored. `false` stands for the exception a failed
   * normalisation raises, after the user-agent row was written.
   */
  function InsertOne<K(==)>(keyOf: Entry -> Option<K>, t: Tables, r: LogRecord): (Tables, bool)
  {
    var (t1, id) := Resolve(t, r.userAgent);
    match NormalizeTs(r.timestamp)
    case None => (t1, false)
    case Some(ts) => (t1.(entries := InsertIgnore(keyOf, t1.entries, MakeEntry(r, ts, id))), true)
  }

  /** `insert_batch_log_entries`: the records in order, stopping at the first failure. */
  function InsertAll<K(==)>(keyOf: Entry -> Option<K>, t: Tables, rs: seq<LogRecord>): (Tables, bool)
    decreases |rs|
  {
    if |rs| == 0 then (t, true)
    else
      var (t1, ok) := InsertOne(keyOf, t, rs[0]);
      if !ok then (t1, false) else InsertAll(keyOf, t1, rs[1..])
  }

  /** `t'` grew from `t`: every user-agent row kept as it was, old entries a prefix of the new. */
  ghost predicate Extends(t: Tables, t': Tables)
  {
    && (forall s :: s in t.userAgents ==> s in t'.userAgents && t'.userAgents[s] == t.userAgents[s])
    && t.entries <= t'.entries
  }

  lemma ExtendsTransitive(a: Tables, b: Tables, c: Tables)
    requires Extends(a, b) && Extends(b, c)
    ensures Extends(a, c)
  {
  }

  /** One insert keeps the tables valid and only adds. */
  lemma InsertOneMeaning<K>(keyOf: Entry -> Option<K>, t: Tables, r: LogRecord)
    requires TablesValid(keyOf, t)
    ensures TablesValid(keyOf, InsertOne(keyOf, t, r).0)
    ensures Extends(t, InsertOne(keyOf, t, r).0)
    ensures InsertOne(keyOf, t, r).1 <==> NormalizeTs(r.timestamp).Some?
    ensures |InsertOne(keyOf, t, r).0.entries| <= |t.entries| + 1
  {
    ResolveMeaning(keyOf, t, r.userAgent);
    var (t1, id) := Resolve(t, r.userAgent);
    assert Extends(t, t1);
    var norm := NormalizeTs(r.timestamp);
    if norm.Some? {
      var e := MakeEntry(r, norm.value, id);
      StoreMeaning(keyOf, t1, e);
      ExtendsTransitive(t, t1, t1.(entries := InsertIgnore(keyOf, t1.entries, e)));
    }
  }

  /** Storing a normalised entry whose user-agent id is known keeps the tables valid and extends them. */
  lemma StoreMeaning<K>(keyOf: Entry -> Option<K>, t: Tables, e: Entry)
    requires TablesValid(keyOf, t) && e.timestamp.offset.None?
    requires e.userAgentId.Some? ==> exists s :: s in t.userAgents && t.userAgents[s].id == e.userAgentId.value
    ensures var t' := t.(entries := InsertIgnore(keyOf, t.entries, e));
      TablesValid(keyOf, t') && Extends(t, t') && |t'.entries| <= |t.entries| + 1
  {
    InsertIgnoreUnique(keyOf, t.entries, e);
    var es := InsertIgnore(keyOf, t.entries, e);
    assert forall i :: 0 <= i < |es| ==> es[i] == e || es[i] == t.entries[i];
  }

  /** A batch insert keeps the tables valid and only adds: nothing stored is overwritten. */
  lemma {:induction false} InsertAllMeaning<K>(keyOf: Entry -> Option<K>, t: Tables, rs: seq<LogRecord>)
    requires TablesValid(keyOf, t)
    ensures TablesValid(keyOf, InsertAll(keyOf, t, rs).0)
    ensures Extends(t, InsertAll(keyOf, t, rs).0)
    ensures InsertAll(keyOf, t, rs).1 <==> forall i :: 0 <= i < |rs| ==> NormalizeTs(rs[i].timestamp).Some?
    decreases |rs|
  {
    if |rs| > 0 {
      InsertOneMeaning(keyOf, t, rs[0]);
      var (t1, ok) := InsertOne(keyOf, t, rs[0]);
      if ok {
        InsertAllMeaning(keyOf, t1, rs[1..]);
        ExtendsTransitive(t, t1, InsertAll(keyOf, t1, rs[1..]).0);
        assert forall i :: 1 <= i < |rs| ==> rs[i] == rs[1..][i - 1];
      }
    }
  }

  /** The row a record becomes when it is inserted into `t`, if its timestamp normalises. */
  function RowFor(t: Tables, r: LogRecord): (e: Option<Entry>)
    ensures e.Some? <==> NormalizeTs(r.timestamp).Some?
    ensures e.Some? ==> e.value.userAgentId == Resolve(t, r.userAgent).1 && e.value.timestamp.offset.None?
  {
    match NormalizeTs(r.timestamp)
    case None => None
    case Some(ts) => Some(MakeEntry(r, ts, Resolve(t, r.userAgent).1))
  }

  /** The record's row, if it has one, has a key free of `NULL`. */
  ghost predicate KeyNotNull<K>(keyOf: Entry -> Option<K>, t: Tables, r: LogRecord)
  {
    RowFor(t, r).Some? ==> keyOf(RowFor(t, r).value).Some?
  }

  /** The record's user agent and, if its timestamp normalises, its row's key are already stored. */
  ghost predicate Covered<K>(keyOf: Entry -> Option<K>, t: Tables, r: LogRecord)
  {
    && (r.userAgent.None? || r.userAgent.value == "" || r.userAgent.value in t.userAgents)
    && (RowFor(t, r).Some? ==>
          keyOf(RowFor(t, r).value).Some? && KeyPresent(keyOf, t.entries, keyOf(RowFor(t, r).value).value))
  }

  /** After a record whose key holds no `NULL` is inserted, it is covered. */
  lemma InsertOneCovers<K>(keyOf: Entry -> Option<K>, t: Tables, r: LogRecord)
    requires KeyNotNull(keyOf, t, r)
    ensures Covered(keyOf, InsertOne(keyOf, t, r).0, r)
  {
    var (t1, id) := Resolve(t, r.userAgent);
    ResolveIdempotent(t, r.userAgent);
    if NormalizeTs(r.timestamp).Some? {
      var e := MakeEntry(r, NormalizeTs(r.timestamp).value, id);
      var es := InsertIgnore(keyOf, t1.entries, e);
      if !KeyPresent(keyOf, t1.entries, keyOf(e).value) {
        assert es[|t1.entries|] == e;
      }
      assert Resolve(t1.(entries := es), r.userAgent).1 == id;
    }
  }

  /** A covered record stays covered as the tables grow. */
  lemma CoveredExtends<K>(keyOf: Entry -> Option<K>, t: Tables, t': Tables, r: LogRecord)
    requires Covered(keyOf, t, r) && Extends(t, t')
    ensures Covered(keyOf, t', r)
  {
    if NormalizeTs(r.timestamp).Some? {
      assert Resolve(t', r.userAgent).1 == Resolve(t, r.userAgent).1;
      assert RowFor(t', r) == RowFor(t, r);
      var k := keyOf(RowFor(t, r).value).value;
      var i :| 0 <= i < |t.entries| && keyOf(t.entries[i]) == Some(k);
      assert t'.entries[i] == t.entries[i];
    }
  }

  /** Inserting a covered record changes nothing. */
  lemma InsertCovered<K>(keyOf: Entry -> Option<K>, t: Tables, r: LogRecord)
    requires Covered(keyOf, t, r)
    ensures InsertOne(keyOf, t, r) == (t, NormalizeTs(r.timestamp).Some?)
  {
  }

  /**
   * A record repeated later in the same batch is dropped when its key holds no
   * `NULL`: inserting it twice is inserting it once.
   */
  lemma DuplicateInBatch<K>(keyOf: Entry -> Option<K>, t: Tables, r: LogRecord)
    requires KeyNotNull(keyOf, t, r)
    ensures InsertAll(keyOf, t, [r, r]) == InsertAll(keyOf, t, [r])
  {
    var (t1, ok) := InsertOne(keyOf, t, r);
    InsertOneCovers(keyOf, t, r);
    InsertCovered(keyOf, t1, r);
    assert [r, r][1..] == [r];
    assert [r][1..] == [];
  }

  /** A record whose key holds `NULL` never collides, so each copy of it in a batch is stored. */
  lemma DuplicateNullKey<K>(keyOf: Entry -> Option<K>, t: Tables, r: LogRecord)
    requires RowFor(t, r).Some? && keyOf(RowFor(t, r).value).None?
    ensures InsertAll(keyOf, t, [r, r]).1
    ensures InsertAll(keyOf, t, [r, r]).0.entries == t.entries + [RowFor(t, r).value, RowFor(t, r).value]
  {
    var e := RowFor(t, r).value;
    var (t1, ok) := InsertOne(keyOf, t, r);
    ResolveIdempotent(t, r.userAgent);
    assert ok && t1.entries == t.entries + [e];
    var ta := Resolve(t, r.userAgent).0;
    assert Resolve(t1, r.userAgent) == (t1, Resolve(t, r.userAgent).1) by {
      assert t1 == ta.(entries := t.entries + [e]);
    }
    var (t2, ok2) := InsertOne(keyOf, t1, r);
    assert ok2 && t2.entries == t1.entries + [e];
    assert [r, r][1..] == [r];
    assert [r][1..] == [];
    assert InsertAll(keyOf, t1, [r]) == InsertAll(keyOf, t2, []);
  }

  /**
   * Loading the same batch a second time changes nothing and ends the same way:
   * every row it would add is already there and every user agent already has its row.
   */
  lemma {:induction false} ReIngest<K>(keyOf: Entry -> Option<K>, t: Tables, rs: seq<LogRecord>)
    requires NeverNull(keyOf)
    ensures InsertAll(keyOf, InsertAll(keyOf, t, rs).0, rs) == InsertAll(keyOf, t, rs)
    decreases |rs|
  {
    if |rs| > 0 {
      var (t1, ok) := InsertOne(keyOf, t, rs[0]);
      InsertOneCovers(keyOf, t, rs[0]);
      if !ok {
        InsertCovered(keyOf, t1, rs[0]);
      } else {
        var t2 := InsertAll(keyOf, t1, rs[1..]).0;
        ReIngest(keyOf, t1, rs[1..]);
        ExtendsAll(keyOf, t1, rs[1..]);
        CoveredExtends(keyOf, t1, t2, rs[0]);
        InsertCovered(keyOf, t2, rs[0]);
      }
    }
  }

  /** A batch insert only adds, whether or not the tables were valid. */
  lemma {:induction false} ExtendsAll<K>(keyOf: Entry -> Option<K>, t: Tables, rs: seq<LogRecord>)
    ensures Extends(t, InsertAll(keyOf, t, rs).0)
    decreases |rs|
  {
    if |rs| > 0 {
      var (t1, ok) := InsertOne(keyOf, t, rs[0]);
      assert Extends(t, t1);
      if ok {
        ExtendsAll(keyOf, t1, rs[1..]);
        ExtendsTransitive(t, t1, InsertAll(keyOf, t1, rs[1..]).0);
      }
    }
  }

  // ---------------------------------------------------------------------------
  // The handler as an object holding the tables
  // ---------------------------------------------------------------------------

  /** The database behind one `MySQLHandler`. */
  class LogStore<K(==)> {
    const keyOf: Entry -> Option<K>
    var userAgents: map<string, UserAgentRow>
    var nextId: nat
    var entries: seq<Entry>

    function State(): Tables
      reads this
    {
      Tables(userAgents, nextId, entries)
    }

    ghost predicate Valid()
      reads this
    {
      TablesValid(keyOf, State())
    }

    /** A handler over existing tables. */
    constructor (keyOf: Entry -> Option<K>, initial: Tables)
      requires TablesValid(keyOf, initial)
      ensures this.keyOf == keyOf && State() == initial && Valid()
    {
      this.keyOf := keyOf;
      userAgents := initial.userAgents;
      nextId := initial.nextId;
      entries := initial.entries;
    }

    /** `_get_or_insert_user_agent`. */
    method ResolveUserAgent(ua: Option<string>) returns (id: Option<nat>)
      requires Valid()
      modifies this
      ensures Valid()
      ensures (State(), id) == Resolve(old(State()), ua)
    {
      ResolveMeaning(keyOf, State(), ua);
      if ua.None? || ua.value == "" {
        return None;
      }
      if ua.value in userAgents {
        return Some(userAgents[ua.value].id);
      }
      userAgents := userAgents[ua.value := NewUserAgentRow(nextId, ua.value)];
      id := Some(nextId);
      nextId := nextId + 1;
    }

    /** `insert_batch_log_entries`; `false` stands for the exception a failed normalisation raises. */
    method InsertBatch(records: seq<LogRecord>) returns (ok: bool)
      requires Valid()
      modifies this
      ensures Valid()
      ensures (State(), ok) == InsertAll(keyOf, old(State()), records)
    {
      if |records| == 0 {
        return true;
      }
      var i := 0;
      while i < |records|
        invariant 0 <= i <= |records|
        invariant Valid()
        invariant InsertAll(keyOf, State(), records[i..]) == InsertAll(keyOf, old(State()), records)
      {
        var r := records[i];
        ghost var before := State();
        InsertOneMeaning(keyOf, before, r);
        var id := ResolveUserAgent(r.userAgent);
        var ts := NormalizeTs(r.timestamp);
        if ts.None? {
          return false;
        }
        var e := MakeEntry(r, ts.value, id);
        var k := keyOf(e);
        if k.None? || !KeyPresent(keyOf, entries, k.value) {
          entries := entries + [e];
        }
        assert State() == InsertOne(keyOf, before, r).0;
        assert records[i..][1..] == records[i + 1..];
        i := i + 1;
      }
      return true;
    }
  }

  // ---------------------------------------------------------------------------
  // Reports over log_entries
  // ---------------------------------------------------------------------------

  function IpsOf(entries: seq<Entry>): (ips: seq<string>)
    ensures |ips| == |entries| && forall i :: 0 <= i < |entries| ==> ips[i] == entries[i].ipAddress
  {
    seq(|entries|, i requires 0 <= i < |entries| => entries[i].ipAddress)
  }

  function StatusesOf(entries: seq<Entry>): (codes: seq<int>)
    ensures |codes| == |entries| && forall i :: 0 <= i < |entries| ==> codes[i] == entries[i].statusCode
  {
    seq(|entries|, i requires 0 <= i < |entries| => entries[i].statusCode)
  }

  /** `get_top_n_ips`: request counts per address, most frequent first, at most `n` rows. */
  function TopNIps(entries: seq<Entry>, n: nat): (rows: seq<GroupCount<string>>)
    ensures IsTopN(IpsOf(entries), rows, n)
  {
    TopNIsTopN(IpsOf(entries), n);
    TopN(IpsOf(entries), n)
  }

  /** A row of `get_status_code_distribution`. */
  datatype StatusShare = StatusShare(statusCode: int, count: nat, percentage: real)

  /** The share of `count` in `total`, in percent. */
  function Percentage(count: nat, total: nat): real
    requires total > 0
  {
    count as real * 100.0 / total as real
  }

  function SharesOf(rows: seq<GroupCount<int>>, total: nat): (shares: seq<StatusShare>)
    requires total > 0
    ensures |shares| == |rows|
    ensures forall i :: 0 <= i < |rows| ==>
      shares[i] == StatusShare(rows[i].key, rows[i].count, Percentage(rows[i].count, total))
  {
    seq(|rows|, i requires 0 <= i < |rows| => StatusShare(rows[i].key, rows[i].count, Percentage(rows[i].count, total)))
  }

  function CountsOfShares(shares: seq<StatusShare>): (rows: seq<GroupCount<int>>)
    ensures |rows| == |shares|
    ensures forall i :: 0 <= i < |shares| ==> rows[i] == GroupCount(shares[i].statusCode, shares[i].count)
  {
    seq(|shares|, i requires 0 <= i < |shares| => GroupCount(shares[i].statusCode, shares[i].count))
  }

  /**
   * `get_status_code_distribution`: one row per status code with its count and
   * its share of all rows, most frequent first.
   */
  function StatusCodeDistribution(entries: seq<Entry>): (shares: seq<StatusShare>)
    ensures IsGrouping(StatusesOf(entries), CountsOfShares(shares))
    ensures NonIncreasing(CountsOfShares(shares))
    ensures forall i :: 0 <= i < |shares| ==> shares[i].percentage == Percentage(shares[i].count, |entries|)
  {
    if |entries| == 0 then []
    else
      var g := Grouped(StatusesOf(entries));
      var rows := SortByCount(g);
      SortByCountDistinct(g);
      GroupingPermuted(StatusesOf(entries), g, rows);
      var shares := SharesOf(rows, |entries|);
      assert CountsOfShares(shares) == rows;
      shares
  }

  function SumPercentages(shares: seq<StatusShare>): real
  {
    if |shares| == 0 then 0.0 else shares[0].percentage + SumPercentages(shares[1..])
  }

  lemma {:induction false} SumShares(rows: seq<GroupCount<int>>, total: nat)
    requires total > 0
    ensures SumPercentages(SharesOf(rows, total)) == SumCounts(rows) as real * 100.0 / total as real
  {
    if |rows| > 0 {
      SumShares(rows[1..], total);
      assert SharesOf(rows, total)[1..] == SharesOf(rows[1..], total);
    }
  }

  lemma WholeIsHundredPercent(n: nat)
    requires n > 0
    ensures n as real * 100.0 / n as real == 100.0
  {
  }

  /** Over a non-empty table the percentages add up to 100. */
  lemma PercentagesSumTo100(entries: seq<Entry>)
    requires |entries| > 0
    ensures SumPercentages(StatusCodeDistribution(entries)) == 100.0
  {
    var rows := SortByCount(Grouped(StatusesOf(entries)));
    assert StatusCodeDistribution(entries) == SharesOf(rows, |entries|);
    SortedGroupedSum(StatusesOf(entries));
    SumShares(rows, |entries|);
    WholeIsHundredPercent(|entries|);
  }

  /** `LPAD(HOUR(timestamp), 2, '0')` followed by `:00`. */
  function HourLabel(hour: nat): (text: string)
    requires hour < 100
    ensures |text| == 5 && AllDigits(text[..2]) && DecimalValue(text[..2]) == hour && text[2..] == ":00"
  {
    var text := Padded(hour, 2) + ":00";
    assert text[..2] == Padded(hour, 2);
    text
  }

  function HourLabelsOf(entries: seq<Entry>): (labels: seq<string>)
    ensures |labels| == |entries|
    ensures forall i :: 0 <= i < |entries| ==> labels[i] == HourLabel(entries[i].timestamp.hour)
  {
    seq(|entries|, i requires 0 <= i < |entries| => HourLabel(entries[i].timestamp.hour))
  }

  function HoursOf(entries: seq<Entry>): (hours: seq<int>)
    ensures |hours| == |entries|
    ensures forall i :: 0 <= i < |entries| ==> hours[i] == entries[i].timestamp.hour
  {
    seq(|entries|, i requires 0 <= i < |entries| => entries[i].timestamp.hour)
  }

  /** String order, character by character, a proper prefix first. */
  predicate LexLess(a: string, b: string)
  {
    if |a| == 0 then |b| > 0
    else |b| > 0 && (a[0] < b[0] || (a[0] == b[0] && LexLess(a[1..], b[1..])))
  }

  /** Zero-padded labels sort as their hours do, and distinct hours have distinct labels. */
  lemma HourLabelOrder(h1: nat, h2: nat)
    requires h1 < h2 < 100
    ensures LexLess(HourLabel(h1), HourLabel(h2))
  {
    var a, b := HourLabel(h1)[..2], HourLabel(h2)[..2];
    assert DecimalValue(a) == 10 * DigitValue(a[0]) + DigitValue(a[1]) by {
      assert a[..1][..0] == [];
      assert a[..|a| - 1] == a[..1];
    }
    assert DecimalValue(b) == 10 * DigitValue(b[0]) + DigitValue(b[1]) by {
      assert b[..1][..0] == [];
      assert b[..|b| - 1] == b[..1];
    }
    assert HourLabel(h1)[1..][1..] == HourLabel(h2)[1..][1..];
  }

  lemma {:induction false} LexLessIrreflexive(a: string)
    ensures !LexLess(a, a)
  {
    if |a| > 0 {
      LexLessIrreflexive(a[1..]);
    }
  }

  lemma HourLabelInjective(h1: nat, h2: nat)
    requires h1 < 100 && h2 < 100 && HourLabel(h1) == HourLabel(h2)
    ensures h1 == h2
  {
  }

  /** Counting labels is counting the hours they are labels of. */
  lemma LabelCount(entries: seq<Entry>, h: nat)
    requires h < 24
    ensures multiset(HourLabelsOf(entries))[HourLabel(h)] == multiset(HoursOf(entries))[h]
  {
    var labels, hours := HourLabelsOf(entries), HoursOf(entries);
    forall i | 0 <= i < |entries| ensures labels[i] == HourLabel(h) <==> hours[i] == h {
      if labels[i] == HourLabel(h) {
        HourLabelInjective(entries[i].timestamp.hour, h);
      }
    }
    CountsCorrespond(labels, hours, HourLabel(h), h);
  }

  function LabelRows(rows: seq<GroupCount<int>>): (labelled: seq<GroupCount<string>>)
    requires forall i :: 0 <= i < |rows| ==> 0 <= rows[i].key < 24
    ensures |labelled| == |rows|
    ensures forall i :: 0 <= i < |rows| ==> labelled[i] == GroupCount(HourLabel(rows[i].key), rows[i].count)
  {
    seq(|rows|, i requires 0 <= i < |rows| => GroupCount(HourLabel(rows[i].key), rows[i].count))
  }

  /** Labels strictly increasing in string order. */
  predicate LabelsAscending(rows: seq<GroupCount<string>>)
  {
    forall i, j :: 0 <= i < j < |rows| ==> LexLess(rows[i].key, rows[j].key)
  }

  /**
   * `get_hourly_traffic`: one `HH:00` row per hour of day with traffic, with its
   * number of rows, in ascending label order.
   */
  function HourlyTraffic(entries: seq<Entry>): (rows: seq<GroupCount<string>>)
    ensures IsGrouping(HourLabelsOf(entries), rows)
    ensures LabelsAscending(rows)
  {
    var hours := HoursOf(entries);
    var byHour := GroupedByKey(hours);
    GroupedByKeyIsGrouping(hours);
    assert forall i :: 0 <= i < |byHour| ==> 0 <= byHour[i].key < 24 by {
      forall i | 0 <= i < |byHour| ensures 0 <= byHour[i].key < 24 {
        var j :| 0 <= j < |hours| && hours[j] == byHour[i].key;
      }
    }
    var rows := LabelRows(byHour);
    LabelledGrouping(entries, byHour, rows);
    rows
  }

  lemma LabelledGrouping(entries: seq<Entry>, byHour: seq<GroupCount<int>>, rows: seq<GroupCount<string>>)
    requires IsGrouping(HoursOf(entries), byHour) && Ascending(byHour)
    requires forall i :: 0 <= i < |byHour| ==> 0 <= byHour[i].key < 24
    requires rows == LabelRows(byHour)
    ensures IsGrouping(HourLabelsOf(entries), rows)
    ensures LabelsAscending(rows)
  {
    var labels := HourLabelsOf(entries);
    forall i, j | 0 <= i < j < |rows| ensures LexLess(rows[i].key, rows[j].key) {
      HourLabelOrder(byHour[i].key, byHour[j].key);
    }
    forall i, j | 0 <= i < j < |rows| ensures rows[i].key != rows[j].key {
      LexLessIrreflexive(rows[i].key);
    }
    forall i | 0 <= i < |rows| ensures rows[i].count == multiset(labels)[rows[i].key] && rows[i].key in labels {
      LabelCount(entries, byHour[i].key);
      var j :| 0 <= j < |HoursOf(entries)| && HoursOf(entries)[j] == byHour[i].key;
      assert labels[j] == rows[i].key;
    }
    forall x | x in labels ensures HasKey(rows, x) {
      var j :| 0 <= j < |labels| && labels[j] == x;
      assert HoursOf(entries)[j] in HoursOf(entries);
      var i :| 0 <= i < |byHour| && byHour[i].key == HoursOf(entries)[j];
      assert rows[i].key == x;
    }
  }
}
