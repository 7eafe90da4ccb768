/**
 `LexicalIndex.search`: BM25 with the filter inside the traversal, against BM25 computed from the
 documents alone. Scores are exact reals; the logarithm is any function that is positive above 1.
 */
module Bm25 {
  import opened Seqs
  import opened Heaps
  import opened Varint
  import opened Inverted
  import opened LexicalFile
  import opened LexicalIndex

  const K1 := 1.2
  const B := 0.75

  // ------------------------------------------------------------- BM25 without an index

  function Df(docs: seq<Doc>, term: Term): nat
    decreases |docs|
  {
    if docs == [] then 0
    else Df(docs[..|docs| - 1], term) + (if term in docs[|docs| - 1].terms then 1 else 0)
  }

  function Idf(log: real -> real, n: nat, df: nat): real {
    log(1.0 + (n as real - df as real + 0.5) / (df as real + 0.5))
  }

  function Denominator(tf: nat, dl: nat, avgdl: real): real
    requires avgdl > 0.0
  {
    tf as real + K1 * (1.0 - B + B * dl as real / avgdl)
  }

  /** No division by zero: the denominator is positive. */
  lemma DenominatorPositive(tf: nat, dl: nat, avgdl: real)
    requires avgdl > 0.0
    ensures Denominator(tf, dl, avgdl) > 0.0
  {
    assert B * dl as real / avgdl >= 0.0;
  }

  function Gain(idf: real, tf: nat, dl: nat, avgdl: real): real
    requires avgdl > 0.0
  {
    DenominatorPositive(tf, dl, avgdl);
    idf * (tf as real * (K1 + 1.0)) / Denominator(tf, dl, avgdl)
  }

  function Lens(docs: seq<Doc>): (r: seq<nat>)
    ensures |r| == |docs| && forall i :: 0 <= i < |docs| ==> r[i] == |docs[i].terms|
  {
    seq(|docs|, i requires 0 <= i < |docs| => |docs[i].terms|)
  }

  /** What scores depend on besides the documents: the logarithm, and the average length as the index keeps it. */
  datatype Weights = Weights(log: real -> real, avgdl: real)

  /** The average kept is positive if that of the documents is, so that nothing is divided by zero. */
  ghost predicate Averages(w: Weights, docs: seq<Doc>) {
    Average(Lens(docs)) > 0.0 ==> w.avgdl > 0.0
  }

  /** What one query term adds to a document's score. */
  function TermScore(docs: seq<Doc>, w: Weights, term: Term, i: nat): real
    requires i < |docs|
  {
    var tf := Tf(docs[i].terms, term);
    if tf == 0 || w.avgdl <= 0.0 then 0.0
    else Gain(Idf(w.log, |docs|, Df(docs, term)), tf, |docs[i].terms|, w.avgdl)
  }

  /** The sum over the query's terms, a repeated term counting each time. */
  function Score(docs: seq<Doc>, w: Weights, query: seq<Term>, i: nat): real
    requires i < |docs|
    decreases |query|
  {
    if query == [] then 0.0
    else Score(docs, w, query[..|query| - 1], i) + TermScore(docs, w, query[|query| - 1], i)
  }

  predicate Matches(doc: Doc, query: seq<Term>) {
    exists t :: t in query && t in doc.terms
  }

  // ------------------------------------------------------------- the complete ranking

  /** Score descending, then internal id: pairs keyed by the negated score. */
  function Ranking(docs: seq<Doc>, w: Weights, query: seq<Term>, mask: Mask, upto: nat): (r: seq<Scored>)
    requires upto <= |docs|
    ensures Ordered(r)
    ensures forall x :: x in r <==> 0 <= x.id < upto && Admits(mask, x.id) && Matches(docs[x.id], query)
                                    && x.key == -Score(docs, w, query, x.id)
  {
    if upto == 0 then []
    else
      var rest, i := Ranking(docs, w, query, mask, upto - 1), upto - 1;
      if Admits(mask, i) && Matches(docs[i], query) then Push(rest, Scored(-Score(docs, w, query, i), i)) else rest
  }

  function Restrict(ranking: seq<Scored>, mask: seq<bool>): seq<Scored>
    decreases |ranking|
  {
    if ranking == [] then []
    else
      var rest, last := Restrict(ranking[..|ranking| - 1], mask), ranking[|ranking| - 1];
      if Admits(Some(mask), last.id) then rest + [last] else rest
  }

  lemma {:induction false} RestrictKeeps(ranking: seq<Scored>, mask: seq<bool>)
    requires Ordered(ranking)
    ensures Ordered(Restrict(ranking, mask))
    ensures forall x :: x in Restrict(ranking, mask) <==> x in ranking && Admits(Some(mask), x.id)
    decreases |ranking|
  {
    if ranking != [] {
      var before, last := ranking[..|ranking| - 1], ranking[|ranking| - 1];
      RestrictKeeps(before, mask);
      assert ranking == before + [last];
      var rest := Restrict(before, mask);
      forall i | 0 <= i < |rest| ensures Before(rest[i], last) {
        assert rest[i] in before;
      }
    }
  }

  /** Filtering first is the same as ranking everything and then dropping what is inadmissible. */
  lemma FilteredIsRestricted(docs: seq<Doc>, w: Weights, query: seq<Term>, mask: seq<bool>)
    ensures Ranking(docs, w, query, Some(mask), |docs|) == Restrict(Ranking(docs, w, query, None, |docs|), mask)
  {
    var all := Ranking(docs, w, query, None, |docs|);
    RestrictKeeps(all, mask);
    OrderedUnique(Ranking(docs, w, query, Some(mask), |docs|), Restrict(all, mask));
  }

  // ------------------------------------------------------------- signs

  ghost predicate LogLike(log: real -> real) {
    forall x :: x > 1.0 ==> log(x) > 0.0
  }

  lemma {:induction false} DfBound(docs: seq<Doc>, term: Term)
    ensures Df(docs, term) <= |docs| && Df(docs, term) == |PostingsOf(docs, term)|
    decreases |docs|
  {
    if docs != [] {
      DfBound(docs[..|docs| - 1], term);
      TfCounts(docs[|docs| - 1].terms, term);
    }
  }

  lemma {:induction false} TotalAtLeast(lens: seq<nat>, i: nat)
    requires i < |lens|
    ensures Total(lens) >= lens[i]
    decreases |lens|
  {
    if i < |lens| - 1 {
      TotalAtLeast(lens[..|lens| - 1], i);
    }
  }

  /** A corpus with a term in it has a positive average length. */
  lemma AveragePositive(docs: seq<Doc>, i: nat)
    requires i < |docs| && docs[i].terms != []
    ensures Average(Lens(docs)) > 0.0
  {
    TotalAtLeast(Lens(docs), i);
    assert Total(Lens(docs)) as real > 0.0 && |docs| as real > 0.0;
  }

  lemma IdfPositive(log: real -> real, n: nat, df: nat)
    requires LogLike(log) && df <= n
    ensures Idf(log, n, df) > 0.0
  {
    QuotientPositive(n as real - df as real + 0.5, df as real + 0.5);
  }

  lemma QuotientPositive(a: real, b: real)
    requires a > 0.0 && b > 0.0
    ensures a / b > 0.0
  {
    var q := a / b;
    assert q * b == a;
    if q <= 0.0 {
      ProductNotPositive(q, b);
    }
  }

  lemma ProductNotPositive(q: real, b: real)
    requires q <= 0.0 && b > 0.0
    ensures q * b <= 0.0
  {
  }

  lemma GainPositive(idf: real, tf: nat, dl: nat, avgdl: real)
    requires idf > 0.0 && tf > 0 && avgdl > 0.0
    ensures Gain(idf, tf, dl, avgdl) > 0.0
  {
    DenominatorPositive(tf, dl, avgdl);
    assert idf * (tf as real * (K1 + 1.0)) > 0.0;
  }

  lemma TermScoreSign(docs: seq<Doc>, w: Weights, term: Term, i: nat)
    requires LogLike(w.log) && Averages(w, docs) && i < |docs|
    ensures TermScore(docs, w, term, i) >= 0.0
    ensures TermScore(docs, w, term, i) > 0.0 <==> term in docs[i].terms
  {
    TfCounts(docs[i].terms, term);
    if term in docs[i].terms {
      AveragePositive(docs, i);
      DfBound(docs, term);
      IdfPositive(w.log, |docs|, Df(docs, term));
      GainPositive(Idf(w.log, |docs|, Df(docs, term)), Tf(docs[i].terms, term), |docs[i].terms|, w.avgdl);
    }
  }

  /** A document's score is positive exactly when it has a term of the query; no returned score is zero. */
  lemma {:induction false} ScoreSign(docs: seq<Doc>, w: Weights, query: seq<Term>, i: nat)
    requires LogLike(w.log) && Averages(w, docs) && i < |docs|
    ensures Score(docs, w, query, i) >= 0.0
    ensures Score(docs, w, query, i) > 0.0 <==> Matches(docs[i], query)
    decreases |query|
  {
    if query != [] {
      var before, last := query[..|query| - 1], query[|query| - 1];
      ScoreSign(docs, w, before, i);
      TermScoreSign(docs, w, last, i);
      assert query == before + [last];
      if Matches(docs[i], query) && last !in docs[i].terms {
        var t :| t in query && t in docs[i].terms;
        assert t in before;
      }
    }
  }

  // ------------------------------------------------------------- the traversal

  /** An open index of these documents. */
  ghost predicate Serves(index: Index, docs: seq<Doc>) {
    && |index.docIds| == |index.docLens| == |docs|
    && (forall i :: 0 <= i < |docs| ==> index.docIds[i] == docs[i].id && index.docLens[i] == |docs[i].terms|)
    && forall t {:trigger ReadsBack(index, docs, t)} :: ReadsBack(index, docs, t)
  }

  type Scores = map<nat, real>

  function ScoreIn(scores: Scores, i: nat): real {
    if i in scores then scores[i] else 0.0
  }

  /** One document's entry after the query terms `done`: there if and only if it matches, with its score. */
  ghost predicate Scored1(scores: Scores, docs: seq<Doc>, w: Weights, done: seq<Term>, mask: Mask, i: nat) {
    && (i in scores <==> i < |docs| && Admits(mask, i) && Matches(docs[i], done))
    && (i in scores ==> scores[i] == Score(docs, w, done, i))
  }

  ghost predicate ScoresAre(scores: Scores, docs: seq<Doc>, w: Weights, done: seq<Term>, mask: Mask) {
    forall i: nat {:trigger Scored1(scores, docs, w, done, mask, i)} :: Scored1(scores, docs, w, done, mask, i)
  }

  ghost predicate Seen(plist: seq<Posting>, i: nat) {
    exists j :: 0 <= j < |plist| && plist[j].doc == i
  }

  /** Inside the postings of `term`: the documents of `seen` have it counted, the others not yet. */
  ghost predicate Traversed(scores: Scores, docs: seq<Doc>, w: Weights, done: seq<Term>, term: Term,
                            seen: seq<Posting>, mask: Mask) {
    forall i: nat {:trigger Seen(seen, i)} ::
      Scored1(scores, docs, w, if Seen(seen, i) then done + [term] else done, mask, i)
  }

  lemma {:induction false} NoMatchNoScore(docs: seq<Doc>, w: Weights, query: seq<Term>, i: nat)
    requires i < |docs| && !Matches(docs[i], query)
    ensures Score(docs, w, query, i) == 0.0
    decreases |query|
  {
    if query != [] {
      var before, last := query[..|query| - 1], query[|query| - 1];
      assert last in query && forall t :: t in before ==> t in query;
      TfCounts(docs[i].terms, last);
      NoMatchNoScore(docs, w, before, i);
    }
  }

  lemma ScoreMore(docs: seq<Doc>, w: Weights, done: seq<Term>, term: Term, i: nat)
    requires i < |docs|
    ensures Score(docs, w, done + [term], i) == Score(docs, w, done, i) + TermScore(docs, w, term, i)
    ensures Matches(docs[i], done + [term]) <==> Matches(docs[i], done) || term in docs[i].terms
    ensures term !in docs[i].terms ==> TermScore(docs, w, term, i) == 0.0
  {
    assert (done + [term])[..|done|] == done;
    TfCounts(docs[i].terms, term);
    if Matches(docs[i], done) {
      var t :| t in done && t in docs[i].terms;
      assert t in done + [term];
    }
    assert term in done + [term];
  }

  lemma SeenMore(seen: seq<Posting>, p: Posting, i: nat)
    ensures Seen(seen + [p], i) <==> Seen(seen, i) || i == p.doc
  {
    var more := seen + [p];
    if Seen(seen, i) {
      var j :| 0 <= j < |seen| && seen[j].doc == i;
      assert more[j].doc == i;
    }
    if i == p.doc {
      assert more[|seen|].doc == i;
    }
  }

  /** One posting: skipped when inadmissible, otherwise its gain is added. */
  function AddPosting(scores: Scores, idf: real, p: Posting, dl: nat, avgdl: real, mask: Mask): Scores
    requires avgdl > 0.0
  {
    if !Admits(mask, p.doc) then scores else scores[p.doc := ScoreIn(scores, p.doc) + Gain(idf, p.tf, dl, avgdl)]
  }

  lemma AddPostingKeeps(scores: Scores, docs: seq<Doc>, w: Weights, done: seq<Term>, term: Term,
                        seen: seq<Posting>, p: Posting, mask: Mask)
    requires Traversed(scores, docs, w, done, term, seen, mask) && !Seen(seen, p.doc)
    requires p.doc < |docs| && p.tf == Tf(docs[p.doc].terms, term) > 0
    requires Averages(w, docs)
    ensures w.avgdl > 0.0
    ensures var after := AddPosting(scores, Idf(w.log, |docs|, Df(docs, term)), p, |docs[p.doc].terms|, w.avgdl, mask);
            Traversed(after, docs, w, done, term, seen + [p], mask)
  {
    TfCounts(docs[p.doc].terms, term);
    AveragePositive(docs, p.doc);
    var after := AddPosting(scores, Idf(w.log, |docs|, Df(docs, term)), p, |docs[p.doc].terms|, w.avgdl, mask);
    forall i: nat ensures Scored1(after, docs, w, if Seen(seen + [p], i) then done + [term] else done, mask, i) {
      SeenMore(seen, p, i);
      assert Scored1(scores, docs, w, if Seen(seen, i) then done + [term] else done, mask, i);
      if i == p.doc {
        ScoreMore(docs, w, done, term, i);
        if !Matches(docs[i], done) {
          NoMatchNoScore(docs, w, done, i);
        }
      }
    }
  }

  lemma SeenExactly(docs: seq<Doc>, term: Term, i: nat)
    ensures Seen(PostingsOf(docs, term), i) <==> i < |docs| && term in docs[i].terms
  {
    var plist := PostingsOf(docs, term);
    PostingsExact(docs, term);
    if i < |docs| && term in docs[i].terms {
      TfCounts(docs[i].terms, term);
      var p := Posting(i, Tf(docs[i].terms, term));
      assert p in plist;
      var j :| 0 <= j < |plist| && plist[j] == p;
      assert plist[j].doc == i;
    }
    if Seen(plist, i) {
      var j :| 0 <= j < |plist| && plist[j].doc == i;
      assert plist[j] in plist;
      TfCounts(docs[i].terms, term);
    }
  }

  /** A whole list seen: every document with the term has it counted, and no other changes. */
  lemma TermDone(scores: Scores, docs: seq<Doc>, w: Weights, done: seq<Term>, term: Term, mask: Mask)
    requires Traversed(scores, docs, w, done, term, PostingsOf(docs, term), mask)
    ensures ScoresAre(scores, docs, w, done + [term], mask)
  {
    forall i: nat ensures Scored1(scores, docs, w, done + [term], mask, i) {
      SeenExactly(docs, term, i);
      assert Scored1(scores, docs, w, if Seen(PostingsOf(docs, term), i) then done + [term] else done, mask, i);
      if i < |docs| {
        ScoreMore(docs, w, done, term, i);
      }
    }
  }

  lemma TermBegins(scores: Scores, docs: seq<Doc>, w: Weights, done: seq<Term>, term: Term, mask: Mask)
    requires ScoresAre(scores, docs, w, done, mask)
    ensures Traversed(scores, docs, w, done, term, [], mask)
  {
    forall i: nat ensures Scored1(scores, docs, w, if Seen([], i) then done + [term] else done, mask, i) {
      assert Scored1(scores, docs, w, done, mask, i);
    }
  }

  /** In an ascending list a document comes once. */
  lemma NotYetSeen(plist: seq<Posting>, i: nat)
    requires Rising(plist) && i < |plist|
    ensures !Seen(plist[..i], plist[i].doc) && plist[..i + 1] == plist[..i] + [plist[i]]
  {
  }

  /** The loop over one term's postings. */
  method TraverseList(plist: seq<Posting>, docLens: seq<nat>, idf: real, w: Weights, scores: Scores,
                      mask: Mask, ghost docs: seq<Doc>, ghost done: seq<Term>,
                      ghost term: Term) returns (after: Scores)
    requires plist == PostingsOf(docs, term) && docLens == Lens(docs) && Averages(w, docs)
    requires idf == Idf(w.log, |docs|, Df(docs, term)) && ScoresAre(scores, docs, w, done, mask)
    ensures ScoresAre(after, docs, w, done + [term], mask)
  {
    after := scores;
    TermBegins(after, docs, w, done, term, mask);
    PostingsExact(docs, term);
    for i := 0 to |plist|
      invariant Traversed(after, docs, w, done, term, plist[..i], mask)
    {
      var p := plist[i];
      assert p in plist;
      NotYetSeen(plist, i);
      AddPostingKeeps(after, docs, w, done, term, plist[..i], p, mask);
      after := AddPosting(after, idf, p, docLens[p.doc], w.avgdl, mask);
    }
    assert plist[..|plist|] == plist;
    TermDone(after, docs, w, done, term, mask);
  }

  /** One query term: nothing when the dictionary has no entry for it. */
  method Traverse(index: Index, w: Weights, term: Term, scores: Scores, mask: Mask,
                  ghost docs: seq<Doc>, ghost done: seq<Term>) returns (after: Scores)
    requires Serves(index, docs) && Averages(w, docs) && ScoresAre(scores, docs, w, done, mask)
    ensures ScoresAre(after, docs, w, done + [term], mask)
  {
    assert ReadsBack(index, docs, term);
    if term !in index.terms {
      TermBegins(scores, docs, w, done, term, mask);
      TermDone(scores, docs, w, done, term, mask);
      return scores;
    }
    DfBound(docs, term);
    var idf := Idf(w.log, |index.docIds|, index.terms[term].df);
    var plist := ReadPostings(index, term);
    assert index.docLens == Lens(docs);
    after := TraverseList(plist.value, index.docLens, idf, w, scores, mask, docs, done, term);
  }

  // ------------------------------------------------------------- the answer

  datatype Hit = Hit(chunkId: int, score: real)

  /** The first k of a ranking, as chunks: `heapq.nlargest` of a negative k is empty. */
  function FirstHits(docs: seq<Doc>, ranking: seq<Scored>, k: int): (r: seq<Hit>)
    requires forall x :: x in ranking ==> 0 <= x.id < |docs|
    ensures |r| == Min(Max(k, 0), |ranking|)
    ensures forall i :: 0 <= i < |r| ==> r[i] == Hit(docs[ranking[i].id].id, -ranking[i].key)
  {
    seq(Min(Max(k, 0), |ranking|), i requires 0 <= i < |ranking| => Hit(docs[ranking[i].id].id, -ranking[i].key))
  }

  /** The score dict as pairs to sort. */
  method Items(scores: Scores) returns (items: seq<Scored>)
    ensures NoDup(items)
    ensures forall x :: x in items <==> x.id >= 0 && x.id in scores && x.key == -scores[x.id]
  {
    items := [];
    var left := scores.Keys;
    while |left| > 0
      invariant left <= scores.Keys && NoDup(items)
      invariant forall x :: x in items <==> x.id >= 0 && x.id in scores && x.id !in left && x.key == -scores[x.id]
      decreases |left|
    {
      ghost var w := Spare(left, {});
      var i :| i in left;
      items, left := items + [Scored(-scores[i], i)], left - {i};
    }
  }

  /** Sorting the score dict gives the complete ranking. */
  method Rank(scores: Scores, ghost docs: seq<Doc>, ghost w: Weights, ghost query: seq<Term>,
              ghost mask: Mask) returns (ranked: seq<Scored>)
    requires ScoresAre(scores, docs, w, query, mask)
    ensures ranked == Ranking(docs, w, query, mask, |docs|)
  {
    var items := Items(scores);
    ranked := Sorted(items);
    forall x ensures x in ranked <==> x in Ranking(docs, w, query, mask, |docs|) {
      if x.id >= 0 {
        assert Scored1(scores, docs, w, query, mask, x.id);
      }
    }
    OrderedUnique(ranked, Ranking(docs, w, query, mask, |docs|));
  }

  /** The weights of an opened index: its average length is the double in its header. */
  function WeightsOf(index: Index, log: real -> real, unpack: seq<Byte> -> real): Weights {
    Weights(log, unpack(index.avg))
  }

  /** `search`: the first k of the complete ranking of the admissible documents. */
  method Search(index: Index, w: Weights, query: seq<Term>, k: int, mask: Mask, ghost docs: seq<Doc>)
    returns (hits: seq<Hit>)
    requires Serves(index, docs) && Averages(w, docs) && (mask.Some? ==> |mask.value| == |docs|)
    ensures hits == FirstHits(docs, Ranking(docs, w, query, mask, |docs|), k)
  {
    var scores: Scores := map[];
    Nothing(docs, w, mask);
    for j := 0 to |query|
      invariant ScoresAre(scores, docs, w, query[..j], mask)
    {
      assert query[..j + 1] == query[..j] + [query[j]];
      scores := Traverse(index, w, query[j], scores, mask, docs, query[..j]);
    }
    assert query[..|query|] == query;
    var ranked := Rank(scores, docs, w, query, mask);
    hits := [];
    for i := 0 to Min(Max(k, 0), |ranked|)
      invariant |hits| == i && forall m :: 0 <= m < i ==> hits[m] == FirstHits(docs, ranked, k)[m]
    {
      assert ranked[i] in ranked;
      hits := hits + [Hit(index.docIds[ranked[i].id], -ranked[i].key)];
    }
  }

  lemma Nothing(docs: seq<Doc>, w: Weights, mask: Mask)
    ensures ScoresAre(map[], docs, w, [], mask)
  {
  }

  // ------------------------------------------------------------- the filter

  /** `compile_filter`: chunk ids to a mask over internal positions. */
  method CompileFilter(index: Index, admissible: set<int>) returns (mask: seq<bool>)
    ensures |mask| == |index.docIds| && forall i :: 0 <= i < |mask| ==> (mask[i] <==> index.docIds[i] in admissible)
  {
    mask := [];
    for i := 0 to |index.docIds|
      invariant |mask| == i && forall j :: 0 <= j < i ==> (mask[j] <==> index.docIds[j] in admissible)
    {
      mask := mask + [index.docIds[i] in admissible];
    }
  }

  /** The mask over the documents' positions. */
  function DocMask(docs: seq<Doc>, admissible: set<int>): (mask: seq<bool>)
    ensures |mask| == |docs| && forall i :: 0 <= i < |docs| ==> (mask[i] <==> docs[i].id in admissible)
  {
    seq(|docs|, i requires 0 <= i < |docs| => docs[i].id in admissible)
  }

  /** An opened file serves the documents it was built from. */
  lemma OpenServes(f: File, docs: seq<Doc>, packed: seq<Byte>, text: Text)
    requires FileOf(f, docs, packed) && |packed| == 8 && Packs(f) && Texts(docs, text)
    requires OpenFile(FileBytes(f), text).Opened?
    ensures Serves(OpenFile(FileBytes(f), text).index, docs)
  {
    OpenOfBuild(f, docs, packed, text);
  }

  /** Every hit is an admissible document with a query term, and its score is positive. */
  lemma HitsAreReal(docs: seq<Doc>, w: Weights, query: seq<Term>, mask: Mask, k: int, n: nat)
    requires LogLike(w.log) && Averages(w, docs) && n < |FirstHits(docs, Ranking(docs, w, query, mask, |docs|), k)|
    ensures var hit := FirstHits(docs, Ranking(docs, w, query, mask, |docs|), k)[n];
            hit.score > 0.0 && exists i :: 0 <= i < |docs| && docs[i].id == hit.chunkId && Admits(mask, i) &&
                                           Matches(docs[i], query) && hit.score == Score(docs, w, query, i)
  {
    var ranking := Ranking(docs, w, query, mask, |docs|);
    assert ranking[n] in ranking;
    ScoreSign(docs, w, query, ranking[n].id);
  }
}
