/**
 * The results file of the last-vowel server, as a sequence of entries: a
 * banner written when the file is first created, then one block per
 * successfully analysed message. The text layout of the blocks is not
 * modelled, only which entries the file holds and in what order.
 */
module ResultLog {

  /** One block of the file: date, message, last vowel, repetitions, and "SI"/"NO" for primality. */
  datatype Record = Record(timestamp: string, message: string, lastVowel: char, count: nat, isPrime: string)

  datatype Entry = Header | Rec(record: Record)

  /** Whether the file exists, and what it holds. */
  datatype LogState = LogState(present: bool, entries: seq<Entry>)

  /** An absent file holds nothing. */
  predicate Consistent(log: LogState) {
    !log.present ==> log.entries == []
  }

  /** The file after `_initialize_log_file`: created with a banner when absent, left alone when present. */
  function Initialized(log: LogState): (r: LogState)
    ensures r.present
    ensures log.present ==> r == log
    ensures !log.present ==> r.entries == [Header]
  {
    if log.present then log else LogState(true, [Header])
  }

  /** The file after one `save_to_log`: opening in append mode creates a missing file, without a banner. */
  function Appended(log: LogState, record: Record): (r: LogState)
    ensures r.present
    ensures |r.entries| == |log.entries| + 1
    ensures r.entries[..|log.entries|] == log.entries
    ensures r.entries[|log.entries|] == Rec(record)
  {
    LogState(true, log.entries + [Rec(record)])
  }

  /** How many banners the entries hold. */
  function HeaderCount(entries: seq<Entry>): (n: nat)
    ensures n <= |entries|
  {
    if entries == [] then 0
    else HeaderCount(entries[..|entries| - 1]) + (if entries[|entries| - 1] == Header then 1 else 0)
  }

  /** The records the entries hold, in file order. */
  function Records(entries: seq<Entry>): (rs: seq<Record>)
    ensures |rs| <= |entries|
  {
    if entries == [] then []
    else
      var rest := Records(entries[..|entries| - 1]);
      match entries[|entries| - 1]
      case Header => rest
      case Rec(r) => rest + [r]
  }

  lemma {:induction false} HeaderCountConcat(a: seq<Entry>, b: seq<Entry>)
    ensures HeaderCount(a + b) == HeaderCount(a) + HeaderCount(b)
  {
    if b != [] {
      HeaderCountConcat(a, b[..|b| - 1]);
      assert (a + b)[..|a + b| - 1] == a + b[..|b| - 1];
    } else {
      assert a + b == a;
    }
  }

  lemma {:induction false} RecordsConcat(a: seq<Entry>, b: seq<Entry>)
    ensures Records(a + b) == Records(a) + Records(b)
  {
    if b != [] {
      RecordsConcat(a, b[..|b| - 1]);
      assert (a + b)[..|a + b| - 1] == a + b[..|b| - 1];
    } else {
      assert a + b == a;
    }
  }

  /** Initialising twice is initialising once. */
  lemma InitializeIdempotent(log: LogState)
    ensures Initialized(Initialized(log)) == Initialized(log)
  {
  }

  /** Initialisation writes a banner only into a file that did not exist, and never touches records. */
  lemma InitializeHeaders(log: LogState)
    requires Consistent(log)
    ensures HeaderCount(Initialized(log).entries) == if log.present then HeaderCount(log.entries) else 1
    ensures Records(Initialized(log).entries) == Records(log.entries)
  {
    if !log.present {
      assert Records([Header]) == Records([]);
    }
  }

  /** An append adds exactly its record, after all earlier ones, and no banner. */
  lemma AppendAddsOneRecord(log: LogState, record: Record)
    ensures HeaderCount(Appended(log, record).entries) == HeaderCount(log.entries)
    ensures Records(Appended(log, record).entries) == Records(log.entries) + [record]
  {
    HeaderCountConcat(log.entries, [Rec(record)]);
    RecordsConcat(log.entries, [Rec(record)]);
    assert Records([Rec(record)]) == [record] by {
      assert [Rec(record)][..0] == [];
    }
    assert HeaderCount([Rec(record)]) == 0 by {
      assert [Rec(record)][..0] == [];
    }
  }

  /** The file after saving several records one after another, as the lock around `save_to_log` serialises them. */
  function AppendAll(log: LogState, records: seq<Record>): (r: LogState)
    ensures |r.entries| == |log.entries| + |records|
  {
    if records == [] then log
    else Appended(AppendAll(log, records[..|records| - 1]), records[|records| - 1])
  }

  /** Serialised saves keep every earlier entry, in place, ahead of the new ones. */
  lemma {:induction false} AppendAllKeepsEntries(log: LogState, records: seq<Record>)
    ensures AppendAll(log, records).entries[..|log.entries|] == log.entries
  {
    if records != [] {
      var before := AppendAll(log, records[..|records| - 1]);
      AppendAllKeepsEntries(log, records[..|records| - 1]);
      assert Appended(before, records[|records| - 1]).entries[..|before.entries|] == before.entries;
    }
  }

  /** Serialised saves add no banner. */
  lemma {:induction false} AppendAllHeaders(log: LogState, records: seq<Record>)
    ensures HeaderCount(AppendAll(log, records).entries) == HeaderCount(log.entries)
  {
    if records != [] {
      var prefix := records[..|records| - 1];
      AppendAllHeaders(log, prefix);
      AppendAddsOneRecord(AppendAll(log, prefix), records[|records| - 1]);
    }
  }

  /** Serialised saves add exactly their records, in order. */
  lemma {:induction false} AppendAllRecords(log: LogState, records: seq<Record>)
    ensures Records(AppendAll(log, records).entries) == Records(log.entries) + records
  {
    if records != [] {
      var prefix, last := records[..|records| - 1], records[|records| - 1];
      AppendAllRecords(log, prefix);
      AppendAddsOneRecord(AppendAll(log, prefix), last);
      assert records == prefix + [last];
    }
  }

  /** Starting from no file: one banner, and the records in the order they were saved. */
  lemma FreshLogHoldsOneHeader(records: seq<Record>)
    ensures var log := AppendAll(Initialized(LogState(false, [])), records);
            HeaderCount(log.entries) == 1 && log.entries[0] == Header && Records(log.entries) == records
  {
    var init := Initialized(LogState(false, []));
    AppendAllHeaders(init, records);
    AppendAllRecords(init, records);
    InitializeHeaders(LogState(false, []));
    assert Records([]) == [];
    assert AppendAll(init, records).entries[..1] == [Header];
  }
}
