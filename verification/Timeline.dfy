/** Version records into validity intervals (`build_timelines`, `interval_covering`). Dates are day numbers. */
module Timeline {
  import opened Seqs

  datatype VersionRecord = VersionRecord(section: string, effectiveFrom: int, issueDate: int, removed: bool)

  datatype SectionInterval = SectionInterval(section: string, effectiveFrom: int, effectiveTo: Option<int>,
                                             issueDate: int, removed: bool)
  {
    /** Half-open: the day an interval ends belongs to the next. */
    predicate Contains(day: int) {
      effectiveFrom <= day && (effectiveTo.None? || day < effectiveTo.value)
    }

    /** `daterange && daterange` of the exclusion constraint. */
    predicate Overlaps(other: SectionInterval) {
      && (other.effectiveTo.None? || effectiveFrom < other.effectiveTo.value)
      && (effectiveTo.None? || other.effectiveFrom < effectiveTo.value)
    }
  }

  /** Two intervals that are not empty overlap exactly when they share a day. */
  lemma OverlapsExactly(a: SectionInterval, b: SectionInterval)
    requires a.effectiveTo.Some? ==> a.effectiveFrom < a.effectiveTo.value
    requires b.effectiveTo.Some? ==> b.effectiveFrom < b.effectiveTo.value
    ensures a.Overlaps(b) <==> exists day :: a.Contains(day) && b.Contains(day)
  {
    var day := if a.effectiveFrom <= b.effectiveFrom then b.effectiveFrom else a.effectiveFrom;
    assert a.Overlaps(b) ==> a.Contains(day) && b.Contains(day);
  }

  // ------------------------------------------------------------- which record counts

  predicate Dated(r: VersionRecord, section: string, from: int) {
    r.section == section && r.effectiveFrom == from
  }

  /** The record kept of a section's date once one more record is seen. */
  function Better(best: Option<VersionRecord>, rec: VersionRecord, section: string, from: int): Option<VersionRecord> {
    if Dated(rec, section, from) && (best.None? || rec.issueDate < best.value.issueDate) then Some(rec) else best
  }

  /** Of the records for one valid date, the first with the earliest issue date. */
  function Best(records: seq<VersionRecord>, section: string, from: int): Option<VersionRecord> {
    if records == [] then None
    else Better(Best(records[..|records| - 1], section, from), records[|records| - 1], section, from)
  }

  /** A valid date is kept exactly when some record has it, with the earliest issue date of those that do. */
  lemma {:induction false} BestIsEarliest(records: seq<VersionRecord>, section: string, from: int)
    ensures var b := Best(records, section, from);
            && (b.None? <==> forall r :: r in records ==> !Dated(r, section, from))
            && (b.Some? ==>
                  && b.value in records && Dated(b.value, section, from)
                  && (forall r :: r in records && Dated(r, section, from) ==> b.value.issueDate <= r.issueDate))
  {
    if records != [] {
      BestIsEarliest(records[..|records| - 1], section, from);
      assert forall r :: r in records <==> r in records[..|records| - 1] || r == records[|records| - 1];
    }
  }

  // ------------------------------------------------------------- timelines

  ghost predicate StrictlyRising(dates: seq<int>) {
    forall i, j :: 0 <= i < j < |dates| ==> dates[i] < dates[j]
  }

  function Starts(ivs: seq<SectionInterval>): (s: seq<int>)
    ensures |s| == |ivs| && forall i :: 0 <= i < |ivs| ==> s[i] == ivs[i].effectiveFrom
  {
    seq(|ivs|, i requires 0 <= i < |ivs| => ivs[i].effectiveFrom)
  }

  /** The timeline of a section: its valid dates in order, each closed by the next. */
  ghost predicate TimelineOf(ivs: seq<SectionInterval>, records: seq<VersionRecord>, section: string) {
    && StrictlyRising(Starts(ivs))
    && (forall d :: d in Starts(ivs) <==> Best(records, section, d).Some?)
    && (forall i :: 0 <= i < |ivs| ==> IntervalAt(ivs, records, section, i))
  }

  ghost predicate IntervalAt(ivs: seq<SectionInterval>, records: seq<VersionRecord>, section: string, i: nat)
    requires i < |ivs|
  {
    var best := Best(records, section, ivs[i].effectiveFrom);
    && ivs[i].section == section
    && ivs[i].effectiveTo == (if i + 1 < |ivs| then Some(ivs[i + 1].effectiveFrom) else None)
    && best.Some? && ivs[i].issueDate == best.value.issueDate && ivs[i].removed == best.value.removed
  }

  /** `sorted` on the valid dates of one section. */
  method SortDates(dates: set<int>) returns (sorted: seq<int>)
    ensures StrictlyRising(sorted) && forall d :: d in sorted <==> d in dates
  {
    sorted := [];
    var left := dates;
    while |left| > 0
      invariant left <= dates && StrictlyRising(sorted)
      invariant forall d :: d in sorted <==> d in dates && d !in left
      invariant forall d, e :: d in sorted && e in left ==> d < e
      decreases |left|
    {
      var least := LeastOf(left);
      forall i | 0 <= i < |sorted| ensures sorted[i] < least {
        var d := sorted[i];
        assert d in sorted;
      }
      sorted, left := sorted + [least], left - {least};
    }
  }

  method LeastOf(s: set<int>) returns (least: int)
    requires |s| > 0
    ensures least in s && forall d :: d in s ==> least <= d
  {
    ghost var w := Spare(s, {});
    least :| least in s;
    var rest := s - {least};
    while |rest| > 0
      invariant least in s && rest <= s
      invariant forall d :: d in s && d !in rest ==> least <= d
      decreases |rest|
    {
      w := Spare(rest, {});
      var d :| d in rest;
      if d < least {
        least := d;
      }
      rest := rest - {d};
    }
  }

  /** The dedupe loop: per section and valid date, the record that counts. */
  method GroupVersions(records: seq<VersionRecord>) returns (bySection: map<string, map<int, VersionRecord>>)
    ensures Versions(bySection, records)
  {
    bySection := map[];
    for i := 0 to |records|
      invariant Versions(bySection, records[..i])
    {
      var rec := records[i];
      assert records[..i + 1] == records[..i] + [rec];
      var versions := if rec.section in bySection then bySection[rec.section] else map[];
      GroupStep(bySection, records[..i], rec, versions);
      if rec.effectiveFrom !in versions || rec.issueDate < versions[rec.effectiveFrom].issueDate {
        versions := versions[rec.effectiveFrom := rec];
      }
      bySection := bySection[rec.section := versions];
    }
    assert records[..|records|] == records;
  }

  lemma GroupStep(bySection: map<string, map<int, VersionRecord>>, records: seq<VersionRecord>, rec: VersionRecord,
                  versions: map<int, VersionRecord>)
    requires Versions(bySection, records)
    requires versions == if rec.section in bySection then bySection[rec.section] else map[]
    ensures Versions(bySection[rec.section := Updated(versions, rec)], records + [rec])
  {
    var all := records + [rec];
    forall r ensures r in all <==> r in records || r == rec {
    }
    SectionsOf(bySection, records, rec, all);
    var next := bySection[rec.section := Updated(versions, rec)];
    forall s, d | s in next ensures Newest(next[s], all, s, d) {
      KeptAt(bySection, records, rec, versions, s, d);
    }
  }

  /** The dates of a section after one more of its records. */
  function Updated(versions: map<int, VersionRecord>, rec: VersionRecord): map<int, VersionRecord> {
    if rec.effectiveFrom !in versions || rec.issueDate < versions[rec.effectiveFrom].issueDate
    then versions[rec.effectiveFrom := rec] else versions
  }

  ghost predicate Newest(versions: map<int, VersionRecord>, records: seq<VersionRecord>, s: string, d: int) {
    if d in versions then Best(records, s, d) == Some(versions[d]) else Best(records, s, d) == None
  }

  lemma KeptAt(bySection: map<string, map<int, VersionRecord>>, records: seq<VersionRecord>, rec: VersionRecord,
               versions: map<int, VersionRecord>, s: string, d: int)
    requires Versions(bySection, records) && (s in bySection || s == rec.section)
    requires versions == if rec.section in bySection then bySection[rec.section] else map[]
    ensures Newest(if s == rec.section then Updated(versions, rec) else bySection[s], records + [rec], s, d)
  {
    BestNext(bySection, records, rec, s, d);
  }

  lemma BestNext(bySection: map<string, map<int, VersionRecord>>, records: seq<VersionRecord>, rec: VersionRecord,
                 s: string, d: int)
    requires Versions(bySection, records)
    ensures Best(records + [rec], s, d) ==
            Better(if s in bySection && d in bySection[s] then Some(bySection[s][d]) else None, rec, s, d)
  {
    assert (records + [rec])[..|records|] == records;
    assert s in bySection ==> Newest(bySection[s], records, s, d);
    if s !in bySection {
      BestIsEarliest(records, s, d);
    }
  }

  /** One more record adds its section. */
  lemma SectionsOf(bySection: map<string, map<int, VersionRecord>>, records: seq<VersionRecord>, rec: VersionRecord,
                   all: seq<VersionRecord>)
    requires forall s :: s in bySection <==> exists r :: r in records && r.section == s
    requires forall r :: r in all <==> r in records || r == rec
    ensures forall s :: s in bySection || s == rec.section <==> exists r :: r in all && r.section == s
  {
    forall s ensures s in bySection || s == rec.section <==> exists r :: r in all && r.section == s {
      if s in bySection {
        var r :| r in records && r.section == s;
        assert r in all;
      } else if s == rec.section {
        assert rec in all;
      }
    }
  }

  ghost predicate Versions(bySection: map<string, map<int, VersionRecord>>, records: seq<VersionRecord>) {
    && (forall s :: s in bySection <==> exists r :: r in records && r.section == s)
    && (forall s, d :: s in bySection ==> Newest(bySection[s], records, s, d))
  }

  /** The interval loop for one section. */
  method CloseIntervals(section: string, versions: map<int, VersionRecord>, ghost records: seq<VersionRecord>)
    returns (ivs: seq<SectionInterval>)
    requires forall d :: Newest(versions, records, section, d)
    ensures TimelineOf(ivs, records, section)
  {
    var ordered := SortDates(versions.Keys);
    ivs := [];
    for i := 0 to |ordered|
      invariant |ivs| == i
      invariant forall k :: 0 <= k < i ==> ivs[k] == Closed(section, versions, ordered, k)
    {
      ivs := ivs + [Closed(section, versions, ordered, i)];
    }
    forall d ensures d in versions ==> Best(records, section, d) == Some(versions[d])
             ensures d !in versions ==> Best(records, section, d) == None
    {
      assert Newest(versions, records, section, d);
    }
    assert Starts(ivs) == ordered;
  }

  /** One interval: from its own date to the next. */
  function Closed(section: string, versions: map<int, VersionRecord>, ordered: seq<int>, i: int): SectionInterval
    requires 0 <= i < |ordered|
  {
    var next := if i + 1 < |ordered| then Some(ordered[i + 1]) else None;
    if ordered[i] in versions
    then SectionInterval(section, ordered[i], next, versions[ordered[i]].issueDate, versions[ordered[i]].removed)
    else SectionInterval(section, ordered[i], next, 0, false)
  }

  type Timelines = map<string, seq<SectionInterval>>

  ghost predicate TimelinesOf(ts: Timelines, records: seq<VersionRecord>) {
    && (forall s :: s in ts <==> exists r :: r in records && r.section == s)
    && (forall s :: s in ts ==> TimelineOf(ts[s], records, s))
  }

  /** `build_timelines` */
  method BuildTimelines(records: seq<VersionRecord>) returns (ts: Timelines)
    ensures TimelinesOf(ts, records)
  {
    var bySection := GroupVersions(records);
    ts := map[];
    var left := bySection.Keys;
    while |left| > 0
      invariant left <= bySection.Keys
      invariant forall s :: s in ts <==> s in bySection && s !in left
      invariant forall s :: s in ts ==> TimelineOf(ts[s], records, s)
      decreases |left|
    {
      ghost var w := Spare(left, {});
      var section :| section in left;
      forall d ensures Newest(bySection[section], records, section, d) {
      }
      var ivs := CloseIntervals(section, bySection[section], records);
      ts, left := ts[section := ivs], left - {section};
    }
  }

  // ------------------------------------------------------------- what a timeline promises

  /** Intervals are non-empty and contiguous, so they are disjoint. */
  lemma IntervalsDisjoint(ivs: seq<SectionInterval>, records: seq<VersionRecord>, section: string, i: nat, j: nat)
    requires TimelineOf(ivs, records, section) && i < j < |ivs|
    ensures ivs[i].effectiveTo.Some? && ivs[i].effectiveFrom < ivs[i].effectiveTo.value <= ivs[j].effectiveFrom
    ensures !ivs[i].Overlaps(ivs[j]) && !ivs[j].Overlaps(ivs[i])
  {
    var starts := Starts(ivs);
    assert IntervalAt(ivs, records, section, i) && IntervalAt(ivs, records, section, j);
    assert starts[i] < starts[i + 1] && (i + 1 == j || starts[i + 1] < starts[j]);
    assert ivs[j].effectiveTo.Some? ==> starts[j] < starts[j + 1];
  }

  /** Every day from the first effective date on lies in exactly one interval, no earlier day in any. */
  lemma CoversOnce(ivs: seq<SectionInterval>, records: seq<VersionRecord>, section: string, day: int)
    requires TimelineOf(ivs, records, section) && ivs != []
    ensures if day < ivs[0].effectiveFrom then forall i :: 0 <= i < |ivs| ==> !ivs[i].Contains(day)
            else exists i :: 0 <= i < |ivs| && ivs[i].Contains(day) &&
                             forall j :: 0 <= j < |ivs| && j != i ==> !ivs[j].Contains(day)
  {
    var starts := Starts(ivs);
    if day < ivs[0].effectiveFrom {
      forall i | 0 <= i < |ivs| ensures !ivs[i].Contains(day) {
        assert i == 0 || starts[0] < starts[i];
      }
    } else {
      var i := LastStart(starts, day);
      assert IntervalAt(ivs, records, section, i) && ivs[i].Contains(day);
      forall j | 0 <= j < |ivs| && j != i ensures !ivs[j].Contains(day) {
        if j < i {
          IntervalsDisjoint(ivs, records, section, j, i);
        } else {
          IntervalsDisjoint(ivs, records, section, i, j);
        }
      }
    }
  }

  /** The last start not after the day. */
  lemma LastStart(starts: seq<int>, day: int) returns (i: nat)
    requires StrictlyRising(starts) && starts != [] && starts[0] <= day
    ensures i < |starts| && starts[i] <= day && (i + 1 < |starts| ==> day < starts[i + 1])
  {
    i := 0;
    while i + 1 < |starts| && starts[i + 1] <= day
      invariant i < |starts| && starts[i] <= day
    {
      i := i + 1;
    }
  }

  /** `interval_covering`: the early-return scan finds the one interval there is. */
  method IntervalCovering(ts: Timelines, section: string, day: int) returns (found: Option<SectionInterval>)
    ensures found == Covering(ts, section, day)
  {
    var ivs := if section in ts then ts[section] else [];
    for i := 0 to |ivs|
      invariant FirstCovering(ivs, day) == FirstCovering(ivs[i..], day)
    {
      if ivs[i].Contains(day) {
        return Some(ivs[i]);
      }
    }
    return None;
  }

  function FirstCovering(ivs: seq<SectionInterval>, day: int): (r: Option<SectionInterval>)
    ensures r.Some? ==> r.value in ivs && r.value.Contains(day)
    ensures r.None? ==> forall iv :: iv in ivs ==> !iv.Contains(day)
  {
    if ivs == [] then None
    else if ivs[0].Contains(day) then Some(ivs[0])
    else FirstCovering(ivs[1..], day)
  }

  function Covering(ts: Timelines, section: string, day: int): Option<SectionInterval> {
    if section in ts then FirstCovering(ts[section], day) else None
  }

  /** An interval covers its own start date, so a plan over all start dates lists every interval. */
  lemma CoversOwnStart(ts: Timelines, records: seq<VersionRecord>, section: string, i: nat)
    requires TimelinesOf(ts, records) && section in ts && i < |ts[section]|
    ensures Covering(ts, section, ts[section][i].effectiveFrom) == Some(ts[section][i])
    ensures exists r :: r in records && r.effectiveFrom == ts[section][i].effectiveFrom
  {
    var ivs := ts[section];
    var day := ivs[i].effectiveFrom;
    assert TimelineOf(ivs, records, section) && IntervalAt(ivs, records, section, i);
    assert Starts(ivs)[i] == day;
    if i + 1 < |ivs| {
      assert Starts(ivs)[i] < Starts(ivs)[i + 1];
    }
    var own := ivs[i];
    assert own in ivs && own.Contains(day);
    var found := FirstCovering(ivs, day);
    if found.Some? {
      var j :| 0 <= j < |ivs| && ivs[j] == found.value;
      if i < j {
        IntervalsDisjoint(ivs, records, section, i, j);
      } else if j < i {
        IntervalsDisjoint(ivs, records, section, j, i);
      }
    }
    BestIsEarliest(records, section, day);
  }

  // ------------------------------------------------------------- order of the records

  /** What a reordering of the records cannot change of an interval. */
  datatype Span = Span(from: int, to: Option<int>, issueDate: int)

  function Spans(ivs: seq<SectionInterval>): (s: seq<Span>)
    ensures |s| == |ivs|
  {
    seq(|ivs|, i requires 0 <= i < |ivs| => Span(ivs[i].effectiveFrom, ivs[i].effectiveTo, ivs[i].issueDate))
  }

  /** Rising lists of the same dates are the same list. */
  lemma {:induction false} RisingUnique(a: seq<int>, b: seq<int>)
    requires StrictlyRising(a) && StrictlyRising(b) && forall d :: d in a <==> d in b
    ensures a == b
  {
    if a != [] {
      var x := a[0];
      assert x in a && x in b;
      var y := b[0];
      assert y in b && y in a;
      forall d ensures d in a[1..] <==> d in b[1..] {
        if d in a[1..] { assert d in a && d != x; }
        if d in b[1..] { assert d in b && d != y; }
      }
      RisingUnique(a[1..], b[1..]);
      assert a == [x] + a[1..] && b == [y] + b[1..];
    } else if b != [] {
      var y := HeadOf(b);
    }
  }

  lemma SameBest(records: seq<VersionRecord>, records': seq<VersionRecord>, section: string, d: int)
    requires forall r :: r in records <==> r in records'
    ensures var b, b' := Best(records, section, d), Best(records', section, d);
            b.Some? == b'.Some? && (b.Some? ==> b.value.issueDate == b'.value.issueDate)
  {
    BestIsEarliest(records, section, d);
    BestIsEarliest(records', section, d);
  }

  /** The (from, to, earliest issue date) triples do not depend on the order of the records, nor on repeats. */
  lemma OrderFree(ivs: seq<SectionInterval>, records: seq<VersionRecord>, ivs': seq<SectionInterval>,
                  records': seq<VersionRecord>, section: string)
    requires TimelineOf(ivs, records, section) && TimelineOf(ivs', records', section)
    requires forall r :: r in records <==> r in records'
    ensures Spans(ivs) == Spans(ivs')
  {
    forall d ensures d in Starts(ivs) <==> d in Starts(ivs') {
      SameBest(records, records', section, d);
    }
    RisingUnique(Starts(ivs), Starts(ivs'));
    forall i | 0 <= i < |ivs| ensures Spans(ivs)[i] == Spans(ivs')[i] {
      assert Starts(ivs)[i] == Starts(ivs')[i];
      assert i + 1 < |ivs| ==> Starts(ivs)[i + 1] == Starts(ivs')[i + 1];
      assert IntervalAt(ivs, records, section, i) && IntervalAt(ivs', records', section, i);
      SameBest(records, records', section, ivs[i].effectiveFrom);
    }
  }

  // ------------------------------------------------------------- order and the removed flag

  /** A record with the earliest issue date of those for its valid date. */
  ghost predicate Earliest(records: seq<VersionRecord>, section: string, d: int, r: VersionRecord) {
    r in records && Dated(r, section, d) &&
    forall q :: q in records && Dated(q, section, d) ==> r.issueDate <= q.issueDate
  }

  /** The earliest records of a date all say the same of removal. */
  ghost predicate OneFlag(records: seq<VersionRecord>, section: string, d: int) {
    forall p, q :: Earliest(records, section, d, p) && Earliest(records, section, d, q) ==> p.removed == q.removed
  }

  ghost predicate Reordered(records: seq<VersionRecord>, records': seq<VersionRecord>) {
    multiset(records) == multiset(records')
  }

  lemma ReorderedMembers(records: seq<VersionRecord>, records': seq<VersionRecord>)
    requires Reordered(records, records')
    ensures forall r :: r in records <==> r in records'
  {
    forall r ensures r in records <==> r in records' {
      assert r in records <==> r in multiset(records);
      assert r in records' <==> r in multiset(records');
    }
  }

  /** A record that comes first and is earliest is the one kept. */
  lemma {:induction false} FirstIsKept(q: VersionRecord, records: seq<VersionRecord>, section: string, d: int)
    requires Dated(q, section, d)
    requires forall r :: r in records && Dated(r, section, d) ==> q.issueDate <= r.issueDate
    ensures Best([q] + records, section, d) == Some(q)
    decreases |records|
  {
    var all := [q] + records;
    if records == [] {
      assert all[..|all| - 1] == [] && all[|all| - 1] == q;
    } else {
      assert all[..|all| - 1] == [q] + records[..|records| - 1] && all[|all| - 1] == records[|records| - 1];
      FirstIsKept(q, records[..|records| - 1], section, d);
    }
  }

  /** Any earliest record is the one kept in some order. */
  lemma KeptInSomeOrder(records: seq<VersionRecord>, section: string, d: int, q: VersionRecord)
    returns (records': seq<VersionRecord>)
    requires Earliest(records, section, d, q)
    ensures Reordered(records, records') && Best(records', section, d) == Some(q)
  {
    var i :| 0 <= i < |records| && records[i] == q;
    var rest := records[..i] + records[i + 1..];
    assert records == records[..i] + [q] + records[i + 1..];
    records' := [q] + rest;
    forall r | r in rest && Dated(r, section, d) ensures q.issueDate <= r.issueDate {
      assert r in records;
    }
    FirstIsKept(q, rest, section, d);
  }

  /** The flag kept for a date does not depend on the order of the records. */
  ghost predicate FlagFixed(records: seq<VersionRecord>, section: string, d: int) {
    forall records' {:trigger Reordered(records, records')} :: Reordered(records, records') ==>
      SameFlag(Best(records, section, d), Best(records', section, d))
  }

  predicate SameFlag(a: Option<VersionRecord>, b: Option<VersionRecord>) {
    a.Some? == b.Some? && (a.Some? ==> a.value.removed == b.value.removed)
  }

  /** Exactly when the earliest records of that date agree on it. */
  lemma FlagFixedExactlyWhen(records: seq<VersionRecord>, section: string, d: int)
    ensures FlagFixed(records, section, d) <==> OneFlag(records, section, d)
  {
    if OneFlag(records, section, d) {
      forall records' | Reordered(records, records')
        ensures SameFlag(Best(records, section, d), Best(records', section, d))
      {
        ReorderedMembers(records, records');
        SameBest(records, records', section, d);
        BestIsEarliest(records, section, d);
        BestIsEarliest(records', section, d);
        var b, b' := Best(records, section, d), Best(records', section, d);
        assert b.Some? ==> Earliest(records, section, d, b.value) && Earliest(records, section, d, b'.value);
      }
    }
    if FlagFixed(records, section, d) {
      forall p, q | Earliest(records, section, d, p) && Earliest(records, section, d, q)
        ensures p.removed == q.removed
      {
        var first := KeptInSomeOrder(records, section, d, p);
        var second := KeptInSomeOrder(records, section, d, q);
        assert Reordered(records, first) && Reordered(records, second);
      }
    }
  }

  // ------------------------------------------------------------- and whole timelines

  lemma {:induction false} SortedOf(dates: set<int>) returns (sorted: seq<int>)
    ensures StrictlyRising(sorted) && forall d :: d in sorted <==> d in dates
    decreases |dates|
  {
    sorted := [];
    if |dates| > 0 {
      var least := SmallestOf(dates);
      var rest := SortedOf(dates - {least});
      sorted := [least] + rest;
      forall i | 0 <= i < |rest| ensures least < rest[i] {
        var d := rest[i];
        assert d in rest;
      }
    }
  }

  lemma {:induction false} SmallestOf(s: set<int>) returns (least: int)
    requires |s| > 0
    ensures least in s && forall d :: d in s ==> least <= d
    decreases |s|
  {
    least := Spare(s, {});
    var first, rest := least, s - {least};
    if |rest| > 0 {
      var other := SmallestOf(rest);
      least := if other < least then other else least;
    }
    forall d | d in s ensures least <= d {
      assert d == first || d in rest;
    }
  }

  /** Every section has a timeline. */
  lemma TimelineExists(records: seq<VersionRecord>, section: string) returns (ivs: seq<SectionInterval>)
    ensures TimelineOf(ivs, records, section)
  {
    var dates := set r | r in records && r.section == section :: r.effectiveFrom;
    var versions := map d | d in dates && Best(records, section, d).Some? :: Best(records, section, d).value;
    forall d ensures d in dates <==> Best(records, section, d).Some? {
      BestIsEarliest(records, section, d);
      if d in dates {
        var r :| r in records && r.section == section && r.effectiveFrom == d;
        assert Dated(r, section, d);
      }
    }
    var ordered := SortedOf(dates);
    ivs := seq(|ordered|, i requires 0 <= i < |ordered| => Closed(section, versions, ordered, i));
    assert Starts(ivs) == ordered;
    forall i | 0 <= i < |ivs| ensures IntervalAt(ivs, records, section, i) {
      assert ordered[i] in ordered;
    }
  }

  /** Nothing of a section's timeline depends on the order of the records. */
  ghost predicate TimelineFixed(records: seq<VersionRecord>, section: string) {
    forall records', ivs, ivs'
      {:trigger Reordered(records, records'), TimelineOf(ivs, records, section), TimelineOf(ivs', records', section)} ::
      (Reordered(records, records') && TimelineOf(ivs, records, section) && TimelineOf(ivs', records', section)) ==>
        ivs == ivs'
  }

  lemma SameIntervals(records: seq<VersionRecord>, records': seq<VersionRecord>, section: string,
                      ivs: seq<SectionInterval>, ivs': seq<SectionInterval>)
    requires Reordered(records, records') && TimelineOf(ivs, records, section) && TimelineOf(ivs', records', section)
    requires forall d :: FlagFixed(records, section, d)
    ensures ivs == ivs'
  {
    ReorderedMembers(records, records');
    OrderFree(ivs, records, ivs', records', section);
    forall i | 0 <= i < |ivs| ensures ivs[i] == ivs'[i] {
      assert Spans(ivs)[i] == Spans(ivs')[i];
      assert IntervalAt(ivs, records, section, i) && IntervalAt(ivs', records', section, i);
      assert FlagFixed(records, section, ivs[i].effectiveFrom);
    }
  }

  lemma SameFlags(records: seq<VersionRecord>, records': seq<VersionRecord>, section: string, d: int)
    requires Reordered(records, records') && TimelineFixed(records, section)
    ensures SameFlag(Best(records, section, d), Best(records', section, d))
  {
    ReorderedMembers(records, records');
    SameBest(records, records', section, d);
    var ivs := TimelineExists(records, section);
    var ivs' := TimelineExists(records', section);
    assert ivs == ivs';
    if Best(records, section, d).Some? {
      assert d in Starts(ivs);
      var i :| 0 <= i < |ivs| && Starts(ivs)[i] == d;
      assert IntervalAt(ivs, records, section, i) && IntervalAt(ivs', records', section, i);
    }
  }

  /**
   A whole timeline, removed flags included, is free of record order exactly when every date's earliest
   records agree.
   */
  lemma TimelineFixedExactlyWhen(records: seq<VersionRecord>, section: string)
    ensures TimelineFixed(records, section) <==> forall d :: OneFlag(records, section, d)
  {
    forall d ensures FlagFixed(records, section, d) <==> OneFlag(records, section, d) {
      FlagFixedExactlyWhen(records, section, d);
    }
    if forall d :: OneFlag(records, section, d) {
      forall records', ivs, ivs' |
        Reordered(records, records') && TimelineOf(ivs, records, section) && TimelineOf(ivs', records', section)
        ensures ivs == ivs'
      {
        SameIntervals(records, records', section, ivs, ivs');
      }
    }
    if TimelineFixed(records, section) {
      forall d, records' | Reordered(records, records')
        ensures SameFlag(Best(records, section, d), Best(records', section, d))
      {
        SameFlags(records, records', section, d);
      }
      forall d ensures FlagFixed(records, section, d) {
      }
    }
  }

  /** The removed flag can: of records with equal dates the first is kept. */
  lemma OrderDecidesRemoved()
    ensures var gone, kept := VersionRecord("214.2", 0, 0, true), VersionRecord("214.2", 0, 0, false);
            Best([gone, kept], "214.2", 0) == Some(gone) && Best([kept, gone], "214.2", 0) == Some(kept)
  {
    var gone, kept := VersionRecord("214.2", 0, 0, true), VersionRecord("214.2", 0, 0, false);
    assert Best([], "214.2", 0) == None;
    assert [gone][..0] == [] && [kept][..0] == [];
    assert Best([gone], "214.2", 0) == Some(gone) && Best([kept], "214.2", 0) == Some(kept);
    assert [gone, kept][..1] == [gone] && [kept, gone][..1] == [kept];
  }
}
