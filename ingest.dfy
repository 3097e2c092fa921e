/**
 * The `process_logs` command: every line of a log file goes through the parser,
 * the records that parse are collected in file order, and the batch is handed to
 * the handler's batch insert; the command reports how many records it collected.
 */
module Ingest {
  import opened Wrappers
  import opened LogParser
  import opened Text
  import opened MySqlHandler

  /** The values of the present entries, in order. */
  function Present<T>(xs: seq<Option<T>>): (ys: seq<T>)
    ensures |ys| <= |xs|
    decreases |xs|
  {
    if |xs| == 0 then []
    else
      var init := Present(xs[..|xs| - 1]);
      match xs[|xs| - 1]
      case None => init
      case Some(y) => init + [y]
  }

  /** Every kept value comes from some present entry. */
  lemma {:induction false} PresentSound<T>(xs: seq<Option<T>>)
    ensures forall y :: y in Present(xs) ==> exists i :: 0 <= i < |xs| && xs[i] == Some(y)
    decreases |xs|
  {
    if |xs| > 0 {
      var init := xs[..|xs| - 1];
      PresentSound(init);
      forall y | y in Present(xs) ensures exists i :: 0 <= i < |xs| && xs[i] == Some(y) {
        if y in Present(init) {
          var i :| 0 <= i < |init| && init[i] == Some(y);
          assert xs[i] == init[i];
        } else {
          assert xs[|xs| - 1] == Some(y);
        }
      }
    }
  }

  /** When every entry is present, nothing is dropped and the order is kept. */
  lemma {:induction false} PresentAll<T>(xs: seq<Option<T>>)
    requires forall i :: 0 <= i < |xs| ==> xs[i].Some?
    ensures |Present(xs)| == |xs|
    ensures forall i :: 0 <= i < |xs| ==> Present(xs)[i] == xs[i].value
    decreases |xs|
  {
    if |xs| > 0 {
      PresentAll(xs[..|xs| - 1]);
    }
  }

  /** Appending an entry appends its value, if it has one. */
  lemma PresentSnoc<T>(xs: seq<Option<T>>, x: Option<T>)
    ensures Present(xs + [x]) == if x.Some? then Present(xs) + [x.value] else Present(xs)
  {
    assert (xs + [x])[..|xs|] == xs;
  }

  /** The parse of every line, in line order. */
  function ParsedEach(lines: seq<string>): (parsed: seq<Option<LogRecord>>)
    ensures |parsed| == |lines|
    decreases |lines|
  {
    if |lines| == 0 then [] else ParsedEach(lines[..|lines| - 1]) + [ParseLine(lines[|lines| - 1])]
  }

  /** Entry `i` is the parse of line `i`. */
  lemma {:induction false} ParsedEachAt(lines: seq<string>, i: nat)
    requires i < |lines|
    ensures ParsedEach(lines)[i] == ParseLine(lines[i])
    decreases |lines|
  {
    if i < |lines| - 1 {
      var init := lines[..|lines| - 1];
      ParsedEachAt(init, i);
      assert init[i] == lines[i];
    }
  }

  /** The records of the lines that parse, in line order. */
  function KeepParsed(lines: seq<string>): (batch: seq<LogRecord>)
    ensures |batch| <= |lines|
  {
    Present(ParsedEach(lines))
  }

  /** Every collected record is the parse of some line. */
  lemma KeepParsedSound(lines: seq<string>)
    ensures forall r :: r in KeepParsed(lines) ==> exists i :: 0 <= i < |lines| && ParseLine(lines[i]) == Some(r)
  {
    var parsed := ParsedEach(lines);
    PresentSound(parsed);
    forall r | r in KeepParsed(lines) ensures exists i :: 0 <= i < |lines| && ParseLine(lines[i]) == Some(r) {
      var i :| 0 <= i < |parsed| && parsed[i] == Some(r);
      ParsedEachAt(lines, i);
    }
  }

  /** When every line parses, the batch holds one record per line, in order. */
  lemma KeepParsedAll(lines: seq<string>)
    requires forall i :: 0 <= i < |lines| ==> ParseLine(lines[i]).Some?
    ensures |KeepParsed(lines)| == |lines|
    ensures forall i :: 0 <= i < |lines| ==> KeepParsed(lines)[i] == ParseLine(lines[i]).value
  {
    var parsed := ParsedEach(lines);
    forall i | 0 <= i < |lines| ensures parsed[i] == ParseLine(lines[i]) {
      ParsedEachAt(lines, i);
    }
    PresentAll(parsed);
  }

  /** The lines a formatter writes for some records, each ending in a newline. */
  function FormatLines(records: seq<LogRecord>, protocol: string): (lines: seq<string>)
    requires forall i :: 0 <= i < |records| ==> Formattable(records[i])
    ensures |lines| == |records|
    ensures forall i :: 0 <= i < |records| ==> lines[i] == FormatLine(records[i], protocol, "\n")
  {
    seq(|records|, i requires 0 <= i < |records| => FormatLine(records[i], protocol, "\n"))
  }

  /** Reading back a file of formatted lines yields the records that were written. */
  lemma ParseFormattedFile(records: seq<LogRecord>, protocol: string)
    requires forall i :: 0 <= i < |records| ==> Formattable(records[i])
    requires IsWordProtocol(protocol)
    ensures KeepParsed(FormatLines(records, protocol)) == records
  {
    var lines := FormatLines(records, protocol);
    forall i | 0 <= i < |lines| ensures ParseLine(lines[i]) == Some(records[i]) {
      RoundTrip(records[i], protocol, "\n");
    }
    KeepParsedAll(lines);
  }

  predicate IsWordProtocol(protocol: string)
  {
    IsWord(protocol) && '"' !in protocol
  }

  /** The reading loop: parse each line and keep the records that parse. */
  method ParseLines(lines: seq<string>) returns (batch: seq<LogRecord>)
    ensures batch == KeepParsed(lines)
  {
    batch := [];
    var i := 0;
    while i < |lines|
      invariant 0 <= i <= |lines|
      invariant batch == KeepParsed(lines[..i])
    {
      var r := ParseLine(lines[i]);
      KeepParsedStep(lines, i, r);
      if r.Some? {
        batch := batch + [r.value];
      }
      i := i + 1;
    }
    assert lines[..|lines|] == lines;
  }

  /** Reading one more line adds its record, if it parses. */
  lemma KeepParsedStep(lines: seq<string>, i: nat, r: Option<LogRecord>)
    requires i < |lines| && r == ParseLine(lines[i])
    ensures KeepParsed(lines[..i + 1]) == if r.Some? then KeepParsed(lines[..i]) + [r.value] else KeepParsed(lines[..i])
  {
    assert lines[..i + 1][..i] == lines[..i];
    PresentSnoc(ParsedEach(lines[..i]), r);
  }

  /**
   * `process_logs`: parse, insert the batch, and report the number of records
   * collected. `ok` is `false` when the insert stopped at a timestamp it could not
   * normalise; the exception then ends the command, so `count` is printed only
   * when `ok` holds.
   */
  method ProcessLogs<K(==)>(store: LogStore<K>, lines: seq<string>) returns (count: nat, ok: bool)
    requires store.Valid()
    modifies store
    ensures store.Valid()
    ensures count == |KeepParsed(lines)|
    ensures (store.State(), ok) == InsertAll(store.keyOf, old(store.State()), KeepParsed(lines))
  {
    var batch := ParseLines(lines);
    ok := store.InsertBatch(batch);
    count := |batch|;
  }
}
