/**
 Planning and the snapshot handler (`plan_ingest`, `make_snapshot_handler`): which sections a job
 writes, and why the order in which jobs commit, and how often, does not matter.
 */
module Ingest {
  import opened Seqs
  import opened Timeline
  import opened Corpus

  /** One job's payload, with the snapshot its date resolves to, already parsed. */
  datatype Work = Work(document: int, intervals: seq<SectionInterval>, sections: seq<ParsedSection>)

  /** `by_section`: of intervals of one section the last. */
  function BySection(intervals: seq<SectionInterval>, section: string): Option<SectionInterval>
    decreases |intervals|
  {
    if intervals == [] then None
    else if intervals[|intervals| - 1].section == section then Some(intervals[|intervals| - 1])
    else BySection(intervals[..|intervals| - 1], section)
  }

  lemma {:induction false} BySectionIn(intervals: seq<SectionInterval>, section: string)
    ensures var iv := BySection(intervals, section);
            && (iv.Some? ==> iv.value in intervals && iv.value.section == section)
            && (iv.None? ==> forall i :: i in intervals ==> i.section != section)
  {
    if intervals != [] {
      BySectionIn(intervals[..|intervals| - 1], section);
      assert intervals == intervals[..|intervals| - 1] + [intervals[|intervals| - 1]];
    }
  }

  /** A later interval of a section replaces an earlier one, and no other section's. */
  lemma LaterIntervalCounts(intervals: seq<SectionInterval>, iv: SectionInterval, section: string)
    ensures BySection(intervals + [iv], section) ==
            if section == iv.section then Some(iv) else BySection(intervals, section)
  {
    assert (intervals + [iv])[..|intervals|] == intervals;
  }

  // ------------------------------------------------------------- the handler

  datatype Tally = Tally(snapshots: nat, created: nat, existing: nat, written: nat, skipped: nat)

  /** The handler's loop: the tables inside the transaction, None once a constraint has raised, and the counters. */
  function Handled(t: Tables, tally: Tally, w: Work, sections: seq<ParsedSection>): (Option<Tables>, Tally)
    decreases |sections|
  {
    if sections == [] then (Some(t), tally)
    else
      var (before, counts) := Handled(t, tally, w, sections[..|sections| - 1]);
      if before.None? then (None, counts) else HandledOne(before.value, counts, w, sections[|sections| - 1])
  }

  function HandledOne(t: Tables, tally: Tally, w: Work, parsed: ParsedSection): (Option<Tables>, Tally) {
    var iv := BySection(w.intervals, parsed.section);
    if iv.None? then (Some(t), tally.(skipped := tally.skipped + 1))
    else
      match InsertVersion(t, VersionOf(w.document, iv.value, parsed))
      case Violation => (None, tally)
      case Existing => (Some(t), tally.(existing := tally.existing + 1))
      case Created(_) =>
        (WithVersion(t, w.document, iv.value, parsed),
         tally.(created := tally.created + 1, written := tally.written + |parsed.chunks|))
  }

  /** The tables a handler's transaction leaves, None if it raises. */
  function Committed(t: Tables, w: Work): Option<Tables> {
    Handled(t, Tally(0, 0, 0, 0, 0), w, w.sections).0
  }

  class IngestStats {
    var tally: Tally

    constructor ()
      ensures tally == Tally(0, 0, 0, 0, 0)
    {
      tally := Tally(0, 0, 0, 0, 0);
    }
  }

  /** One pass of the handler's loop; false when a constraint has raised. */
  method HandleSection(store: CorpusStore, stats: IngestStats, w: Work, parsed: ParsedSection) returns (ok: bool)
    modifies store, stats
    ensures var (t, tally) := HandledOne(old(store.Contents()), old(stats.tally), w, parsed);
            stats.tally == tally && ok == t.Some? && (ok ==> store.Contents() == t.value)
  {
    var iv := BySection(w.intervals, parsed.section);
    if iv.None? {
      stats.tally := stats.tally.(skipped := stats.tally.skipped + 1);
      return true;
    }
    var r := store.InsertSectionVersion(VersionOf(w.document, iv.value, parsed));
    if r.None? {
      return false;
    }
    if !r.value.1 {
      stats.tally := stats.tally.(existing := stats.tally.existing + 1);
      return true;
    }
    stats.tally := stats.tally.(created := stats.tally.created + 1);
    var n := store.InsertChunks(r.value.0, parsed.chunks);
    stats.tally := stats.tally.(written := stats.tally.written + n);
    return true;
  }

  /** `handle`: one transaction, rolled back when a constraint raises; the counters are not rolled back. */
  method Handle(store: CorpusStore, stats: IngestStats, w: Work) returns (done: bool)
    modifies store, stats
    ensures done == Committed(old(store.Contents()), w).Some?
    ensures store.Contents() == if done then Committed(old(store.Contents()), w).value else old(store.Contents())
    ensures var tally := Handled(old(store.Contents()), old(stats.tally), w, w.sections).1;
            stats.tally == if done then tally.(snapshots := tally.snapshots + 1) else tally
  {
    ghost var t0, tally0 := store.Contents(), stats.tally;
    var saved := store.Contents();
    SameTables(t0, tally0, Tally(0, 0, 0, 0, 0), w, w.sections);
    for i := 0 to |w.sections|
      invariant Handled(t0, tally0, w, w.sections[..i]) == (Some(store.Contents()), stats.tally)
    {
      assert w.sections[..i + 1][..i] == w.sections[..i];
      var ok := HandleSection(store, stats, w, w.sections[i]);
      if !ok {
        HandledPrefix(t0, tally0, w, w.sections, i + 1);
        store.Restore(saved);
        return false;
      }
    }
    assert w.sections[..|w.sections|] == w.sections;
    stats.tally := stats.tally.(snapshots := stats.tally.snapshots + 1);
    return true;
  }

  /** Counters do not steer the loop. */
  lemma {:induction false} SameTables(t: Tables, a: Tally, b: Tally, w: Work, sections: seq<ParsedSection>)
    ensures Handled(t, a, w, sections).0 == Handled(t, b, w, sections).0
    decreases |sections|
  {
    if sections != [] {
      SameTables(t, a, b, w, sections[..|sections| - 1]);
    }
  }

  /** Once a constraint has raised nothing more happens. */
  lemma {:induction false} HandledPrefix(t: Tables, tally: Tally, w: Work, sections: seq<ParsedSection>, n: nat)
    requires n <= |sections|
    ensures Handled(t, tally, w, sections[..n]).0.None? ==>
              Handled(t, tally, w, sections) == Handled(t, tally, w, sections[..n])
    decreases |sections|
  {
    if n == |sections| {
      assert sections[..n] == sections;
    } else {
      assert sections[..|sections| - 1][..n] == sections[..n];
      HandledPrefix(t, tally, w, sections[..|sections| - 1], n);
    }
  }
}
