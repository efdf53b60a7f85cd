/** The Stats method of clamd.go: the daemon's STATS reply is folded, line by
    line, into a record with one text field per section of the report. */
module ClamdStats {
  import opened ByteText
  import opened Response

  /** The sections of a STATS report, told apart by the prefix of a line. */
  datatype Section = Pools | State | Threads | Queue | Memstats | End | Other

  /** The if-else chain of the fold: the first prefix that matches decides. */
  function SectionOf(raw: Bytes): Section {
    if HasPrefix(raw, "POOLS") then Pools
    else if HasPrefix(raw, "STATE") then State
    else if HasPrefix(raw, "THREADS") then Threads
    else if HasPrefix(raw, "QUEUE") then Queue
    else if HasPrefix(raw, "MEMSTATS") then Memstats
    else if HasPrefix(raw, "END") then End
    else Other
  }

  /** A line is stored only for the five named sections. */
  predicate Stored(s: Section) {
    s != End && s != Other
  }

  /** raw[6:] is taken of a POOLS line, so such a line must be at least six
      bytes long; a shorter one makes the Go code panic. */
  predicate PoolsLineFits(raw: Bytes) {
    SectionOf(raw) == Pools ==> |raw| >= 6
  }

  predicate PoolsLinesFit(results: seq<ScanResult>) {
    forall i | 0 <= i < |results| :: PoolsLineFits(results[i].raw)
  }

  /** The text a stored line leaves in its field: a POOLS line without its
      first six bytes and with the spaces at both ends trimmed, any other line
      whole. */
  function FieldText(raw: Bytes): Bytes
    requires PoolsLineFits(raw)
  {
    if SectionOf(raw) == Pools then TrimSpaces(raw[6..]) else raw
  }

  /** The value of a Stats record. */
  datatype StatsView = StatsView(pools: Bytes, state: Bytes, threads: Bytes, memstats: Bytes, queue: Bytes)

  const EMPTY_VIEW := StatsView([], [], [], [], [])

  /** The field of `v` that holds section `s` ([] for End and Other, which have none). */
  function Field(v: StatsView, s: Section): Bytes {
    match s
    case Pools => v.pools
    case State => v.state
    case Threads => v.threads
    case Queue => v.queue
    case Memstats => v.memstats
    case _ => []
  }

  /** One step of the fold. */
  function Apply(v: StatsView, raw: Bytes): StatsView
    requires PoolsLineFits(raw)
  {
    match SectionOf(raw)
    case Pools => v.(pools := FieldText(raw))
    case State => v.(state := raw)
    case Threads => v.(threads := raw)
    case Queue => v.(queue := raw)
    case Memstats => v.(memstats := raw)
    case _ => v
  }

  /** The record the fold gives for `results`, read in order from empty. */
  function Fold(results: seq<ScanResult>): StatsView
    requires PoolsLinesFit(results)
  {
    if |results| == 0 then EMPTY_VIEW
    else Apply(Fold(results[..|results| - 1]), results[|results| - 1].raw)
  }

  /** A step changes the field of the line's own section and no other; an END
      or unrecognised line changes nothing. */
  lemma ApplyField(v: StatsView, raw: Bytes, s: Section)
    requires PoolsLineFits(raw)
    ensures Field(Apply(v, raw), s) == if Stored(s) && SectionOf(raw) == s then FieldText(raw) else Field(v, s)
  {
    match SectionOf(raw)
    case Pools =>
    case State =>
    case Threads =>
    case Queue =>
    case Memstats =>
    case End =>
    case Other =>
  }

  /** The last line of a section decides its field: later lines of other
      sections leave it as that line set it. */
  lemma {:induction false} LastLineWins(results: seq<ScanResult>, i: nat)
    requires PoolsLinesFit(results)
    requires i < |results| && Stored(SectionOf(results[i].raw))
    requires forall j | i < j < |results| :: SectionOf(results[j].raw) != SectionOf(results[i].raw)
    ensures Field(Fold(results), SectionOf(results[i].raw)) == FieldText(results[i].raw)
    decreases |results|
  {
    var s := SectionOf(results[i].raw);
    var init := results[..|results| - 1];
    var last := results[|results| - 1];
    ApplyField(Fold(init), last.raw, s);
    if i < |results| - 1 {
      assert init[i] == results[i];
      forall j | i < j < |init| ensures SectionOf(init[j].raw) != s {
        assert init[j] == results[j];
      }
      LastLineWins(init, i);
    }
  }

  /** A section with no line in the reply keeps an empty field, and unknown
      lines never make the fold fail. */
  lemma {:induction false} MissingSectionStaysEmpty(results: seq<ScanResult>, s: Section)
    requires PoolsLinesFit(results)
    requires forall j | 0 <= j < |results| :: SectionOf(results[j].raw) != s
    ensures Field(Fold(results), s) == []
    decreases |results|
  {
    if |results| > 0 {
      var init := results[..|results| - 1];
      forall j | 0 <= j < |init| ensures SectionOf(init[j].raw) != s {
        assert init[j] == results[j];
      }
      MissingSectionStaysEmpty(init, s);
      ApplyField(Fold(init), results[|results| - 1].raw, s);
    }
  }

  /** The Stats struct, whose fields the fold sets in place. */
  class Stats {
    var pools: Bytes
    var state: Bytes
    var threads: Bytes
    var memstats: Bytes
    var queue: Bytes

    /** &Stats{}: every field empty. */
    constructor ()
      ensures View() == EMPTY_VIEW
    {
      pools, state, threads, memstats, queue := [], [], [], [], [];
    }

    function View(): StatsView
      reads this
    {
      StatsView(pools, state, threads, memstats, queue)
    }

    /** The body of the fold: the line goes into the field its prefix names. */
    method Route(raw: Bytes)
      requires PoolsLineFits(raw)
      modifies this
      ensures View() == Apply(old(View()), raw)
    {
      if HasPrefix(raw, "POOLS") {
        pools := TrimSpaces(raw[6..]);
      } else if HasPrefix(raw, "STATE") {
        state := raw;
      } else if HasPrefix(raw, "THREADS") {
        threads := raw;
      } else if HasPrefix(raw, "QUEUE") {
        queue := raw;
      } else if HasPrefix(raw, "MEMSTATS") {
        memstats := raw;
      } else if HasPrefix(raw, "END") {
      } else {
        // an unknown line is skipped: no error is reported
      }
    }
  }

  /** The loop of Stats over the records of the reply, in order. */
  method CollectStats(results: seq<ScanResult>) returns (stats: Stats)
    requires PoolsLinesFit(results)
    ensures fresh(stats)
    ensures stats.View() == Fold(results)
  {
    stats := new Stats();
    for i := 0 to |results|
      invariant stats.View() == Fold(results[..i])
    {
      assert results[..i + 1][..i] == results[..i];
      stats.Route(results[i].raw);
    }
    assert results[..|results|] == results;
  }
}
