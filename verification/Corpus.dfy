/**
 The corpus tables and their two writers (`insert_section_version`, `insert_chunks`). Every row
 here is a current belief; the digest column, a function of the body, is kept as the body.
 */
module Corpus {
  import opened Seqs
  import opened Timeline

  datatype ParsedChunk = ParsedChunk(ordinal: int, citationPath: string, text: string)

  datatype ParsedSection = ParsedSection(section: string, heading: string, chunks: seq<ParsedChunk>)

  datatype Version = Version(document: int, interval: SectionInterval, heading: string, body: string)

  /** The tables: versions by identity, chunks by the unique pair (version, ordinal). */
  datatype Tables = Tables(versions: map<int, Version>, chunks: map<(int, int), ParsedChunk>, nextId: int)

  /** The natural key of the partial unique index. */
  datatype Key = Key(document: int, section: string, from: int)

  function KeyOf(v: Version): Key {
    Key(v.document, v.interval.section, v.interval.effectiveFrom)
  }

  // ------------------------------------------------------------- insert a version

  predicate Present(t: Tables, key: Key) {
    exists id :: id in t.versions && KeyOf(t.versions[id]) == key
  }

  /** The CHECK constraint. */
  predicate Sane(interval: SectionInterval) {
    interval.effectiveTo.None? || interval.effectiveTo.value > interval.effectiveFrom
  }

  /** The exclusion constraint: the document and section have a version of an overlapping interval. */
  predicate Clashes(t: Tables, v: Version) {
    exists id :: id in t.versions && Rivals(t.versions[id], v)
  }

  predicate Rivals(a: Version, b: Version) {
    a.document == b.document && a.interval.section == b.interval.section && a.interval.Overlaps(b.interval)
  }

  datatype Inserted = Created(tables: Tables) | Existing | Violation

  /** ON CONFLICT DO NOTHING covers the natural key alone: any other constraint raises, the CHECK first of all. */
  function InsertVersion(t: Tables, v: Version): Inserted {
    if !Sane(v.interval) then Violation
    else if Present(t, KeyOf(v)) then Existing
    else if Clashes(t, v) then Violation
    else Created(t.(versions := t.versions[t.nextId := v], nextId := t.nextId + 1))
  }

  predicate SameSection(a: Version, b: Version) {
    a.document == b.document && a.interval.section == b.interval.section
  }

  /**
   What the constraints refuse, in days: an empty interval, or one of a section and document with no
   version from that very day, but one in force on a day of it.
   */
  lemma RefusedExactly(t: Tables, v: Version)
    requires forall id :: id in t.versions ==>
               var iv := t.versions[id].interval; iv.effectiveTo.Some? ==> iv.effectiveFrom < iv.effectiveTo.value
    ensures InsertVersion(t, v).Violation? <==>
              var iv := v.interval;
              || (iv.effectiveTo.Some? && iv.effectiveTo.value <= iv.effectiveFrom)
              || (&& (forall id :: id in t.versions && SameSection(t.versions[id], v) ==>
                        t.versions[id].interval.effectiveFrom != iv.effectiveFrom)
                  && exists id, day {:trigger t.versions[id].interval.Contains(day)} ::
                       id in t.versions && SameSection(t.versions[id], v)
                       && t.versions[id].interval.Contains(day) && iv.Contains(day))
  {
    if Sane(v.interval) {
      forall id | id in t.versions
        ensures t.versions[id].interval.Overlaps(v.interval) <==>
                  exists day :: t.versions[id].interval.Contains(day) && v.interval.Contains(day)
      {
        OverlapsExactly(t.versions[id].interval, v.interval);
      }
    }
  }

  // ------------------------------------------------------------- insert its chunks

  /** ON CONFLICT (section_version_id, ordinal) DO NOTHING, row by row. */
  function WithChunks(chunks: map<(int, int), ParsedChunk>, id: int, rows: seq<ParsedChunk>)
    : map<(int, int), ParsedChunk>
    decreases |rows|
  {
    if rows == [] then chunks
    else
      var before := WithChunks(chunks, id, rows[..|rows| - 1]);
      var row := rows[|rows| - 1];
      if (id, row.ordinal) in before then before else before[(id, row.ordinal) := row]
  }

  /** The chunks of a parsed section by ordinal, the first of each. */
  function ByOrdinal(rows: seq<ParsedChunk>): map<int, ParsedChunk>
    decreases |rows|
  {
    if rows == [] then map[]
    else
      var before := ByOrdinal(rows[..|rows| - 1]);
      var row := rows[|rows| - 1];
      if row.ordinal in before then before else before[row.ordinal := row]
  }

  ghost function ChunksOf(chunks: map<(int, int), ParsedChunk>, id: int): map<int, ParsedChunk> {
    map k | k in chunks && k.0 == id :: k.1 := chunks[k]
  }

  /** A new version gets exactly its section's chunks, and every other version keeps its own. */
  lemma {:induction false} WithChunksIs(chunks: map<(int, int), ParsedChunk>, id: int, rows: seq<ParsedChunk>)
    requires forall k: (int, int) :: k in chunks ==> k.0 != id
    ensures ChunksOf(WithChunks(chunks, id, rows), id) == ByOrdinal(rows)
    ensures forall other :: other != id ==> ChunksOf(WithChunks(chunks, id, rows), other) == ChunksOf(chunks, other)
    ensures forall k: (int, int) :: k in WithChunks(chunks, id, rows) ==> k in chunks || k.0 == id
    decreases |rows|
  {
    if rows != [] {
      var before, row := rows[..|rows| - 1], rows[|rows| - 1];
      WithChunksIs(chunks, id, before);
      ChunkAdded(WithChunks(chunks, id, before), id, row);
    }
  }

  lemma ChunkAdded(chunks: map<(int, int), ParsedChunk>, id: int, row: ParsedChunk)
    ensures var after := if (id, row.ordinal) in chunks then chunks else chunks[(id, row.ordinal) := row];
            var mine := ChunksOf(chunks, id);
            && ChunksOf(after, id) == (if row.ordinal in mine then mine else mine[row.ordinal := row])
            && forall other :: other != id ==> ChunksOf(after, other) == ChunksOf(chunks, other)
  {
    if (id, row.ordinal) in chunks {
      assert row.ordinal in ChunksOf(chunks, id);
    } else {
      NewChunk(chunks, id, row);
      forall other | other != id ensures ChunksOf(chunks[(id, row.ordinal) := row], other) == ChunksOf(chunks, other) {
        OtherChunks(chunks, id, row, other);
      }
    }
  }

  lemma NewChunk(chunks: map<(int, int), ParsedChunk>, id: int, row: ParsedChunk)
    requires (id, row.ordinal) !in chunks
    ensures row.ordinal !in ChunksOf(chunks, id)
    ensures ChunksOf(chunks[(id, row.ordinal) := row], id) == ChunksOf(chunks, id)[row.ordinal := row]
  {
    var after, mine := chunks[(id, row.ordinal) := row], ChunksOf(chunks, id);
    forall o ensures o in ChunksOf(after, id) <==> o in mine || o == row.ordinal {
      assert (id, o) in after <==> (id, o) in chunks || o == row.ordinal;
    }
    SameSet(ChunksOf(after, id).Keys, mine[row.ordinal := row].Keys);
    forall o | o in ChunksOf(after, id) ensures ChunksOf(after, id)[o] == mine[row.ordinal := row][o] {
      assert after[(id, o)] == if o == row.ordinal then row else chunks[(id, o)];
    }
    SameMap(ChunksOf(after, id), mine[row.ordinal := row]);
  }

  lemma OtherChunks(chunks: map<(int, int), ParsedChunk>, id: int, row: ParsedChunk, other: int)
    requires other != id
    ensures ChunksOf(chunks[(id, row.ordinal) := row], other) == ChunksOf(chunks, other)
  {
    var after := chunks[(id, row.ordinal) := row];
    forall o ensures o in ChunksOf(after, other) <==> o in ChunksOf(chunks, other) {
      assert (other, o) in after <==> (other, o) in chunks;
    }
    SameSet(ChunksOf(after, other).Keys, ChunksOf(chunks, other).Keys);
    forall o | o in ChunksOf(after, other) ensures ChunksOf(after, other)[o] == ChunksOf(chunks, other)[o] {
      assert after[(other, o)] == chunks[(other, o)];
    }
    SameMap(ChunksOf(after, other), ChunksOf(chunks, other));
  }

  // ------------------------------------------------------------- what the tables say

  /** A version as its natural key names it: all but the surrogate id. */
  datatype Row = Row(interval: SectionInterval, heading: string, body: string, chunks: map<int, ParsedChunk>)

  ghost predicate UniqueVersions(t: Tables) {
    forall a, b :: a in t.versions && b in t.versions && KeyOf(t.versions[a]) == KeyOf(t.versions[b]) ==> a == b
  }

  /** What the constraints and the identity column keep true. */
  ghost predicate Consistent(t: Tables) {
    && UniqueVersions(t)
    && (forall id :: id in t.versions ==> id < t.nextId)
    && forall k: (int, int) :: k in t.chunks ==> k.0 in t.versions
  }

  ghost function RowAt(t: Tables, id: int): Row
    requires id in t.versions
  {
    var v := t.versions[id];
    Row(v.interval, v.heading, v.body, ChunksOf(t.chunks, id))
  }

  /** The contents of both tables, by natural key. */
  ghost function RowFor(t: Tables, key: Key): Option<Row> {
    if Present(t, key) then
      var id :| id in t.versions && KeyOf(t.versions[id]) == key;
      Some(RowAt(t, id))
    else None
  }

  /** Equal tables but for surrogate ids. */
  ghost predicate SameCorpus(t: Tables, t': Tables) {
    forall key :: RowFor(t, key) == RowFor(t', key)
  }

  lemma RowForIs(t: Tables, id: int)
    requires UniqueVersions(t) && id in t.versions
    ensures RowFor(t, KeyOf(t.versions[id])) == Some(RowAt(t, id))
  {
  }

  function Body(chunks: seq<ParsedChunk>): string {
    if chunks == [] then "" else if |chunks| == 1 then chunks[0].text else chunks[0].text + "\n" + Body(chunks[1..])
  }

  /** One chunk's body is its text, and the bodies of two runs of chunks join with one newline. */
  lemma {:induction false} BodyJoins(a: seq<ParsedChunk>, b: seq<ParsedChunk>)
    requires a != [] && b != []
    ensures |a| == 1 ==> Body(a) == a[0].text
    ensures Body(a + b) == Body(a) + "\n" + Body(b)
    decreases |a|
  {
    if |a| == 1 {
      assert (a + b)[1..] == b;
    } else {
      assert (a + b)[1..] == a[1..] + b;
      BodyJoins(a[1..], b);
      assert a[0].text + "\n" + (Body(a[1..]) + "\n" + Body(b)) == a[0].text + "\n" + Body(a[1..]) + "\n" + Body(b);
    }
  }

  function VersionOf(document: int, interval: SectionInterval, parsed: ParsedSection): Version {
    Version(document, interval, parsed.heading, Body(parsed.chunks))
  }

  function RowOf(interval: SectionInterval, parsed: ParsedSection): Row {
    Row(interval, parsed.heading, Body(parsed.chunks), ByOrdinal(parsed.chunks))
  }

  /** A version and its chunks: both writers, as the handler calls them. */
  function WithVersion(t: Tables, document: int, interval: SectionInterval, parsed: ParsedSection): Option<Tables> {
    match InsertVersion(t, VersionOf(document, interval, parsed))
    case Violation => None
    case Existing => Some(t)
    case Created(t1) => Some(t1.(chunks := WithChunks(t1.chunks, t.nextId, parsed.chunks)))
  }

  /** Unless a constraint raises, the section's row is there afterwards: the old one if there was one. */
  lemma WithVersionAdds(t: Tables, document: int, interval: SectionInterval, parsed: ParsedSection)
    requires Consistent(t) && WithVersion(t, document, interval, parsed).Some?
    ensures var own := KeyOf(VersionOf(document, interval, parsed));
            var t' := WithVersion(t, document, interval, parsed).value;
            && Consistent(t')
            && RowFor(t', own) == (if RowFor(t, own).Some? then RowFor(t, own) else Some(RowOf(interval, parsed)))
            && forall key :: key != own ==> RowFor(t', key) == RowFor(t, key)
  {
    var v, t' := VersionOf(document, interval, parsed), WithVersion(t, document, interval, parsed).value;
    var id := t.nextId;
    if !Present(t, KeyOf(v)) {
      WithChunksIs(t.chunks, id, parsed.chunks);
      assert t'.versions == t.versions[id := v] && RowAt(t', id) == RowOf(interval, parsed);
      RowForIs(t', id);
      forall key | key != KeyOf(v) ensures RowFor(t', key) == RowFor(t, key) {
        if Present(t, key) {
          var k :| k in t.versions && KeyOf(t.versions[k]) == key;
          assert t'.versions[k] == t.versions[k];
          RowForIs(t, k);
          RowForIs(t', k);
        }
      }
    }
  }

  // ------------------------------------------------------------- the store

  /** The two tables behind one connection. */
  class CorpusStore {
    var versions: map<int, Version>
    var chunks: map<(int, int), ParsedChunk>
    var nextId: int

    function Contents(): Tables
      reads this
    {
      Tables(versions, chunks, nextId)
    }

    /** Into tables as some earlier transaction left them. */
    constructor (t: Tables)
      ensures Contents() == t
    {
      versions, chunks, nextId := t.versions, t.chunks, t.nextId;
    }

    /** `insert_section_version`: None when a constraint raises, otherwise (id, created). */
    method InsertSectionVersion(v: Version) returns (r: Option<(int, bool)>)
      modifies `versions, `nextId
      ensures match InsertVersion(old(Contents()), v)
              case Violation => r == None && Contents() == old(Contents())
              case Created(t) => r == Some((old(nextId), true)) && Contents() == t
              case Existing => r.Some? && !r.value.1 && Contents() == old(Contents()) &&
                               r.value.0 in versions && KeyOf(versions[r.value.0]) == KeyOf(v)
    {
      var t := Contents();
      if !Sane(v.interval) {
        return None;
      }
      if Present(t, KeyOf(v)) {
        var id :| id in versions && KeyOf(versions[id]) == KeyOf(v);
        return Some((id, false));
      }
      if Clashes(t, v) {
        return None;
      }
      versions, nextId := versions[nextId := v], nextId + 1;
      return Some((nextId - 1, true));
    }

    /** `insert_chunks`: counts the rows offered, inserted or not. */
    method InsertChunks(id: int, rows: seq<ParsedChunk>) returns (n: nat)
      modifies `chunks
      ensures chunks == WithChunks(old(chunks), id, rows) && n == |rows|
    {
      for i := 0 to |rows|
        invariant chunks == WithChunks(old(chunks), id, rows[..i])
      {
        assert rows[..i + 1][..i] == rows[..i];
        if (id, rows[i].ordinal) !in chunks {
          chunks := chunks[(id, rows[i].ordinal) := rows[i]];
        }
      }
      assert rows[..|rows|] == rows;
      return |rows|;
    }

    /** ROLLBACK */
    method Restore(t: Tables)
      modifies this
      ensures Contents() == t
    {
      versions, chunks, nextId := t.versions, t.chunks, t.nextId;
    }
  }
}
