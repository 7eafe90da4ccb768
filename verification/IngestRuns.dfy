/**
 Convergence of ingestion: whichever jobs commit first, and however often each is run again, the
 corpus ends the same, with every version complete and no constraint ever raised.
 */
module IngestRuns {
  import opened Seqs
  import opened Timeline
  import opened Corpus
  import opened Ingest

  /** The work of each target date. */
  type Plan = map<int, Work>

  // ------------------------------------------------------------- what a job offers

  function FirstOf(sections: seq<ParsedSection>, section: string): Option<ParsedSection>
    decreases |sections|
  {
    if sections == [] then None
    else
      var before := FirstOf(sections[..|sections| - 1], section);
      if before.Some? then before
      else if sections[|sections| - 1].section == section then Some(sections[|sections| - 1])
      else None
  }

  lemma {:induction false} FirstOfListed(sections: seq<ParsedSection>, p: ParsedSection)
    requires p in sections
    ensures FirstOf(sections, p.section).Some?
    decreases |sections|
  {
    if sections[|sections| - 1] != p {
      assert sections == sections[..|sections| - 1] + [sections[|sections| - 1]];
      FirstOfListed(sections[..|sections| - 1], p);
    }
  }

  /** The row a job would write under a key: its interval of the section, and the section's first text. */
  function Offer(w: Work, sections: seq<ParsedSection>, key: Key): Option<Row> {
    var iv, parsed := BySection(w.intervals, key.section), FirstOf(sections, key.section);
    if key.document == w.document && iv.Some? && iv.value.effectiveFrom == key.from && parsed.Some?
    then Some(RowOf(iv.value, parsed.value)) else None
  }

  // ------------------------------------------------------------- assumptions about a plan

  /**
   Intervals are non-empty, and two of one section are the same or disjoint. Plans from timelines are
   (PlannedIsSane).
   */
  ghost predicate SanePlan(plan: Plan) {
    && (forall d, s {:trigger BySection(plan[d].intervals, s)} :: d in plan && BySection(plan[d].intervals, s).Some? ==>
          Sane(BySection(plan[d].intervals, s).value) && BySection(plan[d].intervals, s).value.section == s)
    && (forall d, d', s {:trigger BySection(plan[d].intervals, s), BySection(plan[d'].intervals, s)} ::
          d in plan && d' in plan && plan[d].document == plan[d'].document ==>
          AtPeace(BySection(plan[d].intervals, s), BySection(plan[d'].intervals, s)))
  }

  ghost predicate AtPeace(a: Option<SectionInterval>, b: Option<SectionInterval>) {
    a.Some? && b.Some? ==> a == b || !a.value.Overlaps(b.value)
  }

  /** Snapshots agree on a section's text throughout one validity interval. */
  ghost predicate SnapshotsAgree(plan: Plan) {
    forall d, d', s {:trigger FirstOf(plan[d].sections, s), FirstOf(plan[d'].sections, s)} ::
      && d in plan && d' in plan && plan[d].document == plan[d'].document
      && BySection(plan[d].intervals, s) == BySection(plan[d'].intervals, s)
      && FirstOf(plan[d].sections, s).Some? && FirstOf(plan[d'].sections, s).Some? ==>
      FirstOf(plan[d].sections, s) == FirstOf(plan[d'].sections, s)
  }

  /**
   The constraints refuse a work's interval of a section: it is empty, or its key is free and a
   version of an overlapping interval is there.
   */
  ghost predicate Blocked(t: Tables, w: Work, section: string) {
    var iv := BySection(w.intervals, section);
    iv.Some? && (!Sane(iv.value) || (!Present(t, OwnKey(w, iv.value)) && Overlapped(t, w.document, iv.value)))
  }

  function OwnKey(w: Work, interval: SectionInterval): Key {
    Key(w.document, interval.section, interval.effectiveFrom)
  }

  /** The exclusion constraint of a version of that interval. */
  ghost predicate Overlapped(t: Tables, document: int, interval: SectionInterval) {
    exists id :: id in t.versions && OverlapsWith(t.versions[id], document, interval)
  }

  predicate OverlapsWith(v: Version, document: int, interval: SectionInterval) {
    v.document == document && v.interval.section == interval.section && v.interval.Overlaps(interval)
  }

  /** No planned section is blocked. */
  ghost predicate Compatible(t: Tables, plan: Plan) {
    forall d, s {:trigger FirstOf(plan[d].sections, s)} ::
      d in plan && FirstOf(plan[d].sections, s).Some? ==> !Blocked(t, plan[d], s)
  }

  // ------------------------------------------------------------- one commit

  /** An insert raises exactly when its section is blocked. */
  lemma RaisesExactly(t: Tables, tally: Tally, w: Work, parsed: ParsedSection)
    ensures HandledOne(t, tally, w, parsed).0.None? <==> Blocked(t, w, parsed.section)
  {
    BySectionIn(w.intervals, parsed.section);
    var iv := BySection(w.intervals, parsed.section);
    if iv.Some? {
      var v := VersionOf(w.document, iv.value, parsed);
      assert KeyOf(v) == OwnKey(w, iv.value);
      assert forall id :: id in t.versions ==>
          (Rivals(t.versions[id], v) <==> OverlapsWith(t.versions[id], w.document, iv.value));
    }
  }

  ghost predicate AtPeaceWith(w: Work, v: Version, section: string) {
    var iv := BySection(w.intervals, section);
    iv.Some? && v.document == w.document && v.interval.section == section ==>
      v.interval == iv.value || !v.interval.Overlaps(iv.value)
  }

  /**
   A version that was free to come, of a work's own interval or one apart from it, leaves what is blocked
   as it is.
   */
  lemma VersionKeeps(t: Tables, v: Version, w: Work, section: string)
    requires t.nextId !in t.versions && Sane(v.interval) && !Present(t, KeyOf(v)) && !Clashes(t, v)
    requires AtPeaceWith(w, v, section)
    ensures Blocked(WithRow(t, v), w, section) <==> Blocked(t, w, section)
  {
    BySectionIn(w.intervals, section);
    var iv, t' := BySection(w.intervals, section), WithRow(t, v);
    if iv.Some? && Sane(iv.value) {
      var key := OwnKey(w, iv.value);
      RowPresent(t, v, key);
      RowOverlaps(t, v, w.document, iv.value);
      if KeyOf(v) == key {
        assert v.interval == iv.value;
        assert forall id :: id in t.versions ==>
          (Rivals(t.versions[id], v) <==> OverlapsWith(t.versions[id], w.document, iv.value));
      }
    }
  }

  function WithRow(t: Tables, v: Version): Tables {
    t.(versions := t.versions[t.nextId := v], nextId := t.nextId + 1)
  }

  lemma RowPresent(t: Tables, v: Version, key: Key)
    requires t.nextId !in t.versions
    ensures Present(WithRow(t, v), key) <==> Present(t, key) || KeyOf(v) == key
  {
    var t' := WithRow(t, v);
    assert t'.versions[t.nextId] == v;
    if id :| id in t.versions && KeyOf(t.versions[id]) == key {
      assert t'.versions[id] == t.versions[id];
    }
  }

  lemma RowOverlaps(t: Tables, v: Version, document: int, interval: SectionInterval)
    requires t.nextId !in t.versions
    ensures Overlapped(WithRow(t, v), document, interval) <==>
              Overlapped(t, document, interval) || OverlapsWith(v, document, interval)
  {
    var t' := WithRow(t, v);
    assert t'.versions[t.nextId] == v;
    if id :| id in t.versions && OverlapsWith(t.versions[id], document, interval) {
      assert t'.versions[id] == t.versions[id];
    }
  }

  /** Chunks are no part of what blocks. */
  lemma SameBlocked(t: Tables, t': Tables, w: Work, section: string)
    requires t.versions == t'.versions
    ensures Blocked(t, w, section) <==> Blocked(t', w, section)
  {
    var iv := BySection(w.intervals, section);
    if iv.Some? {
      assert Present(t, OwnKey(w, iv.value)) <==> Present(t', OwnKey(w, iv.value));
      assert Overlapped(t, w.document, iv.value) <==> Overlapped(t', w.document, iv.value);
    }
  }

  /** An insert changes what is blocked for no work whose intervals are at peace with its own. */
  lemma HandledOneKeeps(t: Tables, tally: Tally, w: Work, parsed: ParsedSection, w': Work, section: string)
    requires Consistent(t) && HandledOne(t, tally, w, parsed).0.Some?
    requires w.document == w'.document && section == parsed.section ==>
               AtPeace(BySection(w.intervals, section), BySection(w'.intervals, section))
    ensures Blocked(HandledOne(t, tally, w, parsed).0.value, w', section) <==> Blocked(t, w', section)
  {
    BySectionIn(w.intervals, parsed.section);
    var iv, r := BySection(w.intervals, parsed.section), HandledOne(t, tally, w, parsed).0.value;
    if iv.Some? {
      var v := VersionOf(w.document, iv.value, parsed);
      if InsertVersion(t, v).Created? {
        VersionKeeps(t, v, w', section);
        SameBlocked(r, WithRow(t, v), w', section);
      }
    }
  }

  /** A handler's transaction raises exactly when a section it parsed is blocked. */
  lemma {:induction false} HandledExactly(t: Tables, tally: Tally, w: Work, sections: seq<ParsedSection>)
    requires Consistent(t)
    ensures var r := Handled(t, tally, w, sections).0;
            && (r.None? <==> exists s :: FirstOf(sections, s).Some? && Blocked(t, w, s))
            && (r.Some? ==> Consistent(r.value) && forall s :: Blocked(r.value, w, s) <==> Blocked(t, w, s))
    decreases |sections|
  {
    if sections == [] {
      assert forall s :: FirstOf(sections, s).None?;
    } else {
      var rest, last := sections[..|sections| - 1], sections[|sections| - 1];
      HandledExactly(t, tally, w, rest);
      var (before, counts) := Handled(t, tally, w, rest);
      assert forall s :: FirstOf(sections, s).Some? <==> FirstOf(rest, s).Some? || s == last.section;
      if before.Some? {
        RaisesExactly(before.value, counts, w, last);
        OneExactly(before.value, counts, w, last);
      }
    }
  }

  lemma OneExactly(t: Tables, tally: Tally, w: Work, parsed: ParsedSection)
    requires Consistent(t)
    ensures var r := HandledOne(t, tally, w, parsed).0;
            r.Some? ==> Consistent(r.value) && forall s :: Blocked(r.value, w, s) <==> Blocked(t, w, s)
  {
    var r := HandledOne(t, tally, w, parsed).0;
    if r.Some? {
      HandledOneConsistent(t, tally, w, parsed);
      forall s ensures Blocked(r.value, w, s) <==> Blocked(t, w, s) {
        HandledOneKeeps(t, tally, w, parsed, w, s);
      }
    }
  }

  lemma HandledOneConsistent(t: Tables, tally: Tally, w: Work, parsed: ParsedSection)
    requires Consistent(t) && HandledOne(t, tally, w, parsed).0.Some?
    ensures Consistent(HandledOne(t, tally, w, parsed).0.value)
  {
    var iv := BySection(w.intervals, parsed.section);
    if iv.Some? {
      WithVersionAdds(t, w.document, iv.value, parsed);
    }
  }

  lemma CommittedExactly(t: Tables, w: Work)
    requires Consistent(t)
    ensures Committed(t, w).None? <==> exists s :: FirstOf(w.sections, s).Some? && Blocked(t, w, s)
  {
    HandledExactly(t, Tally(0, 0, 0, 0, 0), w, w.sections);
  }

  /** Every job of a plan commits into the tables exactly when they are compatible with it. */
  lemma AllCommitExactly(t: Tables, plan: Plan)
    requires Consistent(t)
    ensures (forall d :: d in plan ==> Committed(t, plan[d]).Some?) <==> Compatible(t, plan)
  {
    forall d | d in plan
      ensures Committed(t, plan[d]).None? <==> exists s :: FirstOf(plan[d].sections, s).Some? && Blocked(t, plan[d], s)
    {
      CommittedExactly(t, plan[d]);
    }
  }

  /** A planned insert never raises, and adds its own row when there is none. */
  lemma HandledOneAdds(t: Tables, tally: Tally, plan: Plan, d: int, parsed: ParsedSection)
    requires Consistent(t) && SanePlan(plan) && Compatible(t, plan) && d in plan
    requires FirstOf(plan[d].sections, parsed.section).Some?
    ensures var w, r := plan[d], HandledOne(t, tally, plan[d], parsed).0;
            && r.Some? && Consistent(r.value) && Compatible(r.value, plan)
            && forall key :: RowFor(r.value, key) ==
                 if RowFor(t, key).Some? then RowFor(t, key) else Offer(w, [parsed], key)
  {
    var w := plan[d];
    RaisesExactly(t, tally, w, parsed);
    StaysCompatible(t, tally, plan, d, parsed);
    RowsOfOne(t, tally, w, parsed);
  }

  lemma StaysCompatible(t: Tables, tally: Tally, plan: Plan, d: int, parsed: ParsedSection)
    requires Consistent(t) && SanePlan(plan) && Compatible(t, plan) && d in plan
    requires HandledOne(t, tally, plan[d], parsed).0.Some?
    ensures Compatible(HandledOne(t, tally, plan[d], parsed).0.value, plan)
  {
    var r := HandledOne(t, tally, plan[d], parsed).0.value;
    forall d', s | d' in plan && FirstOf(plan[d'].sections, s).Some? ensures !Blocked(r, plan[d'], s) {
      assert plan[d].document == plan[d'].document ==>
          AtPeace(BySection(plan[d].intervals, s), BySection(plan[d'].intervals, s));
      HandledOneKeeps(t, tally, plan[d], parsed, plan[d'], s);
    }
  }

  lemma RowsOfOne(t: Tables, tally: Tally, w: Work, parsed: ParsedSection)
    requires Consistent(t) && HandledOne(t, tally, w, parsed).0.Some?
    ensures var r := HandledOne(t, tally, w, parsed).0.value;
            Consistent(r) && forall key :: RowFor(r, key) ==
                               if RowFor(t, key).Some? then RowFor(t, key) else Offer(w, [parsed], key)
  {
    BySectionIn(w.intervals, parsed.section);
    var iv := BySection(w.intervals, parsed.section);
    assert [parsed][..0] == [];
    assert forall s :: FirstOf([parsed], s) == if s == parsed.section then Some(parsed) else None;
    if iv.Some? {
      var v := VersionOf(w.document, iv.value, parsed);
      assert WithVersion(t, w.document, iv.value, parsed).Some?;
      WithVersionAdds(t, w.document, iv.value, parsed);
      forall key | key != KeyOf(v) ensures Offer(w, [parsed], key) == None {
      }
    }
  }

  lemma {:induction false} HandledAdds(t: Tables, tally: Tally, plan: Plan, d: int, sections: seq<ParsedSection>)
    requires Consistent(t) && SanePlan(plan) && Compatible(t, plan) && d in plan
    requires forall p :: p in sections ==> FirstOf(plan[d].sections, p.section).Some?
    ensures var w, r := plan[d], Handled(t, tally, plan[d], sections).0;
            && r.Some? && Consistent(r.value) && Compatible(r.value, plan)
            && forall key :: RowFor(r.value, key) ==
                 if RowFor(t, key).Some? then RowFor(t, key) else Offer(w, sections, key)
    decreases |sections|
  {
    if sections != [] {
      var rest, last := sections[..|sections| - 1], sections[|sections| - 1];
      HandledAdds(t, tally, plan, d, rest);
      var (before, counts) := Handled(t, tally, plan[d], rest);
      HandledOneAdds(before.value, counts, plan, d, last);
      var r := HandledOne(before.value, counts, plan[d], last).0;
      forall key ensures RowFor(r.value, key) ==
                         if RowFor(t, key).Some? then RowFor(t, key) else Offer(plan[d], sections, key)
      {
        OfferSplit(plan[d], sections, key);
      }
    }
  }

  /** The first section of a name is the one that counts. */
  lemma OfferSplit(w: Work, sections: seq<ParsedSection>, key: Key)
    requires sections != []
    ensures var rest, last := sections[..|sections| - 1], sections[|sections| - 1];
            Offer(w, sections, key) == if Offer(w, rest, key).Some? then Offer(w, rest, key) else Offer(w, [last], key)
  {
    var last := sections[|sections| - 1];
    assert [last][..0] == [];
    assert FirstOf([last], key.section) == if last.section == key.section then Some(last) else None;
  }

  // ------------------------------------------------------------- an amended section

  /**
   The key is free, and starts inside a version already there: one kept open-ended, say, before the
   section was amended.
   */
  ghost predicate Shadowed(t: Tables, key: Key) {
    !Present(t, key) && exists id :: id in t.versions && Contains(t.versions[id], key)
  }

  predicate Contains(v: Version, key: Key) {
    && v.document == key.document && v.interval.section == key.section && v.interval.effectiveFrom < key.from
    && (v.interval.effectiveTo.None? || key.from < v.interval.effectiveTo.value)
  }

  lemma ShadowBlocks(t: Tables, w: Work, section: string)
    requires var iv := BySection(w.intervals, section); iv.Some? && Shadowed(t, OwnKey(w, iv.value))
    ensures Blocked(t, w, section)
  {
    var iv := BySection(w.intervals, section).value;
    var id :| id in t.versions && Contains(t.versions[id], OwnKey(w, iv));
    assert Sane(iv) ==> OverlapsWith(t.versions[id], w.document, iv);
  }

  /** No insert of any work lifts the shadow. */
  lemma ShadowStaysOne(t: Tables, tally: Tally, w: Work, parsed: ParsedSection, key: Key)
    requires Consistent(t) && Shadowed(t, key) && HandledOne(t, tally, w, parsed).0.Some?
    ensures Consistent(HandledOne(t, tally, w, parsed).0.value)
    ensures Shadowed(HandledOne(t, tally, w, parsed).0.value, key)
  {
    BySectionIn(w.intervals, parsed.section);
    RaisesExactly(t, tally, w, parsed);
    HandledOneConsistent(t, tally, w, parsed);
    var iv, r := BySection(w.intervals, parsed.section), HandledOne(t, tally, w, parsed).0.value;
    if iv.Some? && InsertVersion(t, VersionOf(w.document, iv.value, parsed)).Created? {
      var v := VersionOf(w.document, iv.value, parsed);
      if KeyOf(v) == key {
        ShadowBlocks(t, w, parsed.section);
        assert false;
      } else {
        RowPresent(t, v, key);
        var id :| id in t.versions && Contains(t.versions[id], key);
        assert id in r.versions && r.versions[id] == t.versions[id];
        assert Present(r, key) <==> Present(WithRow(t, v), key);
      }
    }
  }

  lemma {:induction false} ShadowStays(t: Tables, tally: Tally, w: Work, sections: seq<ParsedSection>, key: Key)
    requires Consistent(t) && Shadowed(t, key) && Handled(t, tally, w, sections).0.Some?
    ensures Consistent(Handled(t, tally, w, sections).0.value) && Shadowed(Handled(t, tally, w, sections).0.value, key)
    decreases |sections|
  {
    if sections != [] {
      var rest := sections[..|sections| - 1];
      ShadowStays(t, tally, w, rest, key);
      var (before, counts) := Handled(t, tally, w, rest);
      ShadowStaysOne(before.value, counts, w, sections[|sections| - 1], key);
    }
  }

  /** The job raises, and whatever other job commits, it will raise again. */
  lemma ShadowedForGood(t: Tables, w: Work, section: string, w': Work)
    requires Consistent(t) && FirstOf(w.sections, section).Some?
    requires var iv := BySection(w.intervals, section); iv.Some? && Shadowed(t, OwnKey(w, iv.value))
    ensures Committed(t, w).None?
    ensures Committed(t, w').Some? ==>
              Consistent(Committed(t, w').value)
              && Shadowed(Committed(t, w').value, OwnKey(w, BySection(w.intervals, section).value))
  {
    ShadowBlocks(t, w, section);
    CommittedExactly(t, w);
    if Committed(t, w').Some? {
      ShadowStays(t, Tally(0, 0, 0, 0, 0), w', w'.sections, OwnKey(w, BySection(w.intervals, section).value));
    }
  }

  // ------------------------------------------------------------- any number of commits

  /** The tables after handlers commit one after another; one that raises leaves them alone. */
  function Commits(t: Tables, plan: Plan, order: seq<int>): Tables
    requires forall d :: d in order ==> d in plan
    decreases |order|
  {
    if order == [] then t
    else
      var before, last := Commits(t, plan, order[..|order| - 1]), order[|order| - 1];
      var after := Committed(before, plan[last]);
      if after.Some? then after.value else before
  }

  /** Exactly the rows of `t0` and what the committed jobs offer under the other keys. */
  ghost predicate Settled(t0: Tables, plan: Plan, committed: set<int>, t: Tables) {
    && Consistent(t) && Compatible(t, plan) && committed <= plan.Keys
    && forall key {:trigger RowFor(t, key)} :: SettledAt(t0, plan, committed, t, key)
  }

  ghost predicate SettledAt(t0: Tables, plan: Plan, committed: set<int>, t: Tables, key: Key)
    requires committed <= plan.Keys
  {
    if RowFor(t0, key).Some? then RowFor(t, key) == RowFor(t0, key)
    else
      && (RowFor(t, key).Some? ==>
            exists d :: d in committed && RowFor(t, key) == Offer(plan[d], plan[d].sections, key))
      && (forall d :: d in committed && Offer(plan[d], plan[d].sections, key).Some? ==>
            RowFor(t, key) == Offer(plan[d], plan[d].sections, key))
  }

  lemma OffersAgree(plan: Plan, d: int, d': int, key: Key)
    requires SanePlan(plan) && SnapshotsAgree(plan) && d in plan && d' in plan
    requires Offer(plan[d], plan[d].sections, key).Some? && Offer(plan[d'], plan[d'].sections, key).Some?
    ensures Offer(plan[d], plan[d].sections, key) == Offer(plan[d'], plan[d'].sections, key)
  {
    var s := key.section;
    assert AtPeace(BySection(plan[d].intervals, s), BySection(plan[d'].intervals, s));
    assert FirstOf(plan[d].sections, s) == FirstOf(plan[d'].sections, s);
  }

  /** A job's commit succeeds, and settles its own date; a repeat changes nothing. */
  lemma CommitSettles(t0: Tables, plan: Plan, committed: set<int>, t: Tables, d: int)
    requires SanePlan(plan) && SnapshotsAgree(plan) && Settled(t0, plan, committed, t) && d in plan
    ensures Committed(t, plan[d]).Some? && Settled(t0, plan, committed + {d}, Committed(t, plan[d]).value)
    ensures d in committed ==> SameCorpus(t, Committed(t, plan[d]).value)
  {
    forall p | p in plan[d].sections ensures FirstOf(plan[d].sections, p.section).Some? {
      FirstOfListed(plan[d].sections, p);
    }
    HandledAdds(t, Tally(0, 0, 0, 0, 0), plan, d, plan[d].sections);
    var t' := Committed(t, plan[d]).value;
    forall key ensures SettledAt(t0, plan, committed + {d}, t', key)
               ensures d in committed ==> RowFor(t', key) == RowFor(t, key)
    {
      assert SettledAt(t0, plan, committed, t, key);
      forall d' | d' in committed + {d} && RowFor(t0, key).None? && Offer(plan[d'], plan[d'].sections, key).Some?
        ensures RowFor(t', key) == Offer(plan[d'], plan[d'].sections, key)
      {
        if d' !in committed && RowFor(t, key).Some? {
          var d0 :| d0 in committed && RowFor(t, key) == Offer(plan[d0], plan[d0].sections, key);
          OffersAgree(plan, d, d0, key);
        }
      }
    }
  }

  lemma SettledAtStart(t0: Tables, plan: Plan)
    requires Consistent(t0) && Compatible(t0, plan)
    ensures Settled(t0, plan, {}, t0)
  {
    forall key ensures SettledAt(t0, plan, {}, t0, key) {
    }
  }

  lemma {:induction false} CommitsSettle(t0: Tables, plan: Plan, order: seq<int>)
    requires SanePlan(plan) && SnapshotsAgree(plan) && Consistent(t0) && Compatible(t0, plan)
    requires forall d :: d in order ==> d in plan
    ensures Settled(t0, plan, Elems(order), Commits(t0, plan, order))
    decreases |order|
  {
    if order == [] {
      assert Elems(order) == {};
      SettledAtStart(t0, plan);
    } else {
      var rest, last := order[..|order| - 1], order[|order| - 1];
      assert order == rest + [last] && Elems(order) == Elems(rest) + {last};
      CommitsSettle(t0, plan, rest);
      CommitSettles(t0, plan, Elems(rest), Commits(t0, plan, rest), last);
    }
  }

  lemma SettledUnique(t0: Tables, plan: Plan, committed: set<int>, t: Tables, t': Tables)
    requires Settled(t0, plan, committed, t) && Settled(t0, plan, committed, t')
    ensures SameCorpus(t, t')
  {
    forall key ensures RowFor(t, key) == RowFor(t', key) {
      assert SettledAt(t0, plan, committed, t, key) && SettledAt(t0, plan, committed, t', key);
    }
  }

  /** Any two histories in which the same jobs commit, in any order and with any repeats, end with the same corpus. */
  lemma Converges(t0: Tables, plan: Plan, order: seq<int>, order': seq<int>)
    requires SanePlan(plan) && SnapshotsAgree(plan) && Consistent(t0) && Compatible(t0, plan)
    requires (forall d :: d in order ==> d in plan) && (forall d :: d in order' ==> d in plan)
    requires Elems(order) == Elems(order')
    ensures SameCorpus(Commits(t0, plan, order), Commits(t0, plan, order'))
  {
    CommitsSettle(t0, plan, order);
    CommitsSettle(t0, plan, order');
    SettledUnique(t0, plan, Elems(order), Commits(t0, plan, order), Commits(t0, plan, order'));
  }
}
