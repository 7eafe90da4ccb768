/** `plan_ingest`: one job a target date, keyed by the date, with the intervals in force on it. */
module Planning {
  import opened Seqs
  import opened Timeline
  import opened Corpus
  import opened Ingest
  import opened IngestRuns
  import opened Queue

  const EXTERNAL_ID := "title-8/part-214"
  const QUEUE_NAME := "ingest"
  const KIND_SNAPSHOT := "snapshot"

  /** The idempotency key of a date, under whatever `isoformat` writes for it. */
  function KeyFor(iso: int -> string, on: int): Option<string> {
    Some(EXTERNAL_ID + "@" + iso(on))
  }

  function SpecFor(iso: int -> string, on: int): JobSpec {
    JobSpec(QUEUE_NAME, KIND_SNAPSHOT, on, KeyFor(iso, on), 0, 4, None)
  }

  lemma KeysDiffer(iso: int -> string, a: int, b: int)
    requires KeyFor(iso, a) == KeyFor(iso, b)
    ensures iso(a) == iso(b)
  {
    var prefix := EXTERNAL_ID + "@";
    assert (prefix + iso(a))[|prefix|..] == iso(a) && (prefix + iso(b))[|prefix|..] == iso(b);
  }

  // ------------------------------------------------------------- target dates

  function PlaceDate(sorted: seq<int>, d: int): seq<int> {
    if sorted == [] || d <= sorted[0] then [d] + sorted else [sorted[0]] + PlaceDate(sorted[1..], d)
  }

  /** `sorted(dates)`, which keeps repeats. */
  function SortedDates(dates: seq<int>): seq<int> {
    if dates == [] then [] else PlaceDate(SortedDates(dates[1..]), dates[0])
  }

  ghost predicate NonDescending(s: seq<int>) {
    forall i, j :: 0 <= i < j < |s| ==> s[i] <= s[j]
  }

  lemma {:induction false} PlaceDateAdds(sorted: seq<int>, d: int)
    ensures multiset(PlaceDate(sorted, d)) == multiset(sorted) + multiset{d}
  {
    if sorted != [] && d > sorted[0] {
      assert sorted == [sorted[0]] + sorted[1..];
      PlaceDateAdds(sorted[1..], d);
    }
  }

  lemma {:induction false} PlaceDateKeeps(sorted: seq<int>, d: int)
    requires NonDescending(sorted)
    ensures NonDescending(PlaceDate(sorted, d))
  {
    if sorted != [] && d > sorted[0] {
      var rest, least := PlaceDate(sorted[1..], d), sorted[0];
      PlaceDateKeeps(sorted[1..], d);
      forall i | 0 <= i < |rest| ensures least <= rest[i] {
        PlaceDateMembers(sorted[1..], d, rest[i]);
      }
    }
  }

  lemma PlaceDateMembers(sorted: seq<int>, d: int, x: int)
    requires x in PlaceDate(sorted, d)
    ensures x in sorted || x == d
  {
    PlaceDateAdds(sorted, d);
    assert x in multiset(PlaceDate(sorted, d));
  }

  lemma {:induction false} SortedDatesIs(dates: seq<int>)
    ensures NonDescending(SortedDates(dates)) && multiset(SortedDates(dates)) == multiset(dates)
  {
    if dates != [] {
      assert dates == [dates[0]] + dates[1..];
      SortedDatesIs(dates[1..]);
      PlaceDateKeeps(SortedDates(dates[1..]), dates[0]);
      PlaceDateAdds(SortedDates(dates[1..]), dates[0]);
    }
  }

  /** The targets: those asked for, or every effective date once. */
  ghost predicate TargetsOf(targets: seq<int>, records: seq<VersionRecord>, dates: seq<int>) {
    NonDescending(targets) &&
    if dates != [] then multiset(targets) == multiset(dates)
    else StrictlyRising(targets) && forall d :: d in targets <==> exists r :: r in records && r.effectiveFrom == d
  }

  // ------------------------------------------------------------- the plan

  /** The payload's intervals: each section's interval covering the day, where there is one. */
  ghost predicate PlannedFor(intervals: seq<SectionInterval>, ts: Timelines, on: int) {
    && (forall iv :: iv in intervals ==> iv.section in ts && Covering(ts, iv.section, on) == Some(iv))
    && (forall s :: s in ts && Covering(ts, s, on).Some? ==> Covering(ts, s, on).value in intervals)
  }

  method IntervalsOn(ts: Timelines, ghost records: seq<VersionRecord>, on: int)
    returns (intervals: seq<SectionInterval>)
    requires TimelinesOf(ts, records)
    ensures PlannedFor(intervals, ts, on)
  {
    intervals := [];
    var left := ts.Keys;
    while |left| > 0
      invariant left <= ts.Keys
      invariant forall iv :: iv in intervals ==> iv.section in ts && Covering(ts, iv.section, on) == Some(iv)
      invariant forall s :: s in ts && s !in left && Covering(ts, s, on).Some? ==>
                  Covering(ts, s, on).value in intervals
      decreases |left|
    {
      ghost var w := Spare(left, {});
      var section :| section in left;
      var iv := IntervalCovering(ts, section, on);
      if iv.Some? {
        CoveringOwn(ts, records, section, on);
        intervals := intervals + [iv.value];
      }
      left := left - {section};
    }
  }

  /** A covering interval is one of its section's own. */
  lemma CoveringOwn(ts: Timelines, records: seq<VersionRecord>, section: string, on: int)
    requires TimelinesOf(ts, records) && Covering(ts, section, on).Some?
    ensures var iv := Covering(ts, section, on).value; iv in ts[section] && iv.section == section
  {
    var iv := Covering(ts, section, on).value;
    var i :| 0 <= i < |ts[section]| && ts[section][i] == iv;
    assert IntervalAt(ts[section], records, section, i);
  }

  /** The body of `plan_ingest` between fetching the records and enqueueing the jobs. */
  method PlanIngest(records: seq<VersionRecord>, dates: seq<int>, iso: int -> string)
    returns (ts: Timelines, targets: seq<int>, lists: seq<seq<SectionInterval>>, specs: seq<JobSpec>)
    ensures TimelinesOf(ts, records) && TargetsOf(targets, records, dates)
    ensures |lists| == |specs| == |targets|
    ensures forall i :: 0 <= i < |targets| ==>
              specs[i] == SpecFor(iso, targets[i]) && PlannedFor(lists[i], ts, targets[i])
    ensures forall i :: 0 <= i < |targets| ==>
              && specs[i].queue == "ingest" && specs[i].kind == "snapshot" && specs[i].payload == targets[i]
              && specs[i].key == Some("title-8/part-214@" + iso(targets[i]))
              && specs[i].priority == 0 && specs[i].maxAttempts == 4 && specs[i].availableAt == None
  {
    ts := BuildTimelines(records);
    if dates != [] {
      SortedDatesIs(dates);
      targets := SortedDates(dates);
    } else {
      targets := SortDates(set r | r in records :: r.effectiveFrom);
    }
    lists, specs := [], [];
    for i := 0 to |targets|
      invariant |lists| == |specs| == i
      invariant forall k :: 0 <= k < i ==> specs[k] == SpecFor(iso, targets[k]) && PlannedFor(lists[k], ts, targets[k])
    {
      var intervals := IntervalsOn(ts, records, targets[i]);
      lists, specs := lists + [intervals], specs + [SpecFor(iso, targets[i])];
    }
    assert EXTERNAL_ID + "@" == "title-8/part-214@";
  }

  /** Every job of the plan carries its date's intervals. */
  ghost predicate PlanOf(plan: Plan, ts: Timelines) {
    forall d :: d in plan ==> PlannedFor(plan[d].intervals, ts, d)
  }

  lemma BySectionCovers(intervals: seq<SectionInterval>, ts: Timelines, records: seq<VersionRecord>, on: int,
                        section: string)
    requires TimelinesOf(ts, records) && PlannedFor(intervals, ts, on)
    ensures BySection(intervals, section) == Covering(ts, section, on)
  {
    BySectionIn(intervals, section);
    if Covering(ts, section, on).Some? {
      CoveringOwn(ts, records, section, on);
    }
  }

  /**
   No insert of one plan can break the interval constraints: its intervals are sane, and those of one
   section disjoint.
   */
  lemma PlannedIsSane(plan: Plan, ts: Timelines, records: seq<VersionRecord>)
    requires TimelinesOf(ts, records) && PlanOf(plan, ts)
    ensures SanePlan(plan)
  {
    forall d, s | d in plan && BySection(plan[d].intervals, s).Some?
      ensures Sane(BySection(plan[d].intervals, s).value) && BySection(plan[d].intervals, s).value.section == s
    {
      BySectionCovers(plan[d].intervals, ts, records, d, s);
      CoveringOwn(ts, records, s, d);
      var ivs, iv := ts[s], Covering(ts, s, d).value;
      var i :| 0 <= i < |ivs| && ivs[i] == iv;
      assert IntervalAt(ivs, records, s, i);
      if i + 1 < |ivs| {
        assert Starts(ivs)[i] < Starts(ivs)[i + 1];
      }
    }
    forall d, d', s | d in plan && d' in plan
      ensures AtPeace(BySection(plan[d].intervals, s), BySection(plan[d'].intervals, s))
    {
      BySectionCovers(plan[d].intervals, ts, records, d, s);
      BySectionCovers(plan[d'].intervals, ts, records, d', s);
      if Covering(ts, s, d).Some? && Covering(ts, s, d').Some? {
        CoveringOwn(ts, records, s, d);
        CoveringOwn(ts, records, s, d');
        DisjointOrSame(ts[s], records, s, Covering(ts, s, d).value, Covering(ts, s, d').value);
      }
    }
  }

  lemma DisjointOrSame(ivs: seq<SectionInterval>, records: seq<VersionRecord>, section: string, a: SectionInterval,
                       b: SectionInterval)
    requires TimelineOf(ivs, records, section) && a in ivs && b in ivs
    ensures a == b || !a.Overlaps(b)
  {
    var i :| 0 <= i < |ivs| && ivs[i] == a;
    var k :| 0 <= k < |ivs| && ivs[k] == b;
    if i < k {
      IntervalsDisjoint(ivs, records, section, i, k);
    } else if k < i {
      IntervalsDisjoint(ivs, records, section, k, i);
    }
  }

  /** With the default targets every interval of every section is in the job for the day it starts. */
  lemma DefaultPlanListsAll(plan: Plan, ts: Timelines, records: seq<VersionRecord>, targets: seq<int>, section: string,
                            i: nat)
    requires TimelinesOf(ts, records) && PlanOf(plan, ts) && TargetsOf(targets, records, [])
    requires forall d :: d in targets ==> d in plan
    requires section in ts && i < |ts[section]|
    ensures var iv := ts[section][i];
            iv.effectiveFrom in plan && BySection(plan[iv.effectiveFrom].intervals, section) == Some(iv)
  {
    var iv := ts[section][i];
    CoversOwnStart(ts, records, section, i);
    var r :| r in records && r.effectiveFrom == iv.effectiveFrom;
    assert iv.effectiveFrom in targets;
    BySectionCovers(plan[iv.effectiveFrom].intervals, ts, records, iv.effectiveFrom, section);
  }
}
