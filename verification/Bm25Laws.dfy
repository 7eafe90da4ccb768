/**
 What the BM25 formula is for: rare terms weigh more than common ones, repetition counts with
 diminishing returns, and long documents count less. The logarithm is any monotone function.
 */
module Bm25Laws {
  import opened Seqs
  import opened Heaps
  import opened Inverted
  import opened Bm25

  ghost predicate Monotone(log: real -> real) {
    forall x, y :: 0.0 < x <= y ==> log(x) <= log(y)
  }

  ghost predicate StrictlyMonotone(log: real -> real) {
    forall x, y :: 0.0 < x < y ==> log(x) < log(y)
  }

  // ------------------------------------------------------------- reals

  lemma ProductPositive(a: real, b: real)
    requires a > 0.0 && b > 0.0
    ensures a * b > 0.0
  {
  }

  /** A factor has the sign of its product with something positive. */
  lemma FactorPositive(a: real, b: real)
    requires a * b > 0.0 && b > 0.0
    ensures a > 0.0
  {
    if a <= 0.0 {
      ProductNotPositive(a, b);
    }
  }

  lemma QuotientIs(a: real, b: real, q: real)
    requires b > 0.0 && q * b == a
    ensures a / b == q
  {
    assert q == (q * b) / b;
  }

  // ------------------------------------------------------------- rare terms

  /** `log(1 + (n - df + 0.5) / (df + 0.5))` is the logarithm of one fraction. */
  lemma IdfIs(log: real -> real, n: nat, df: nat)
    ensures Idf(log, n, df) == log((n as real + 1.0) / (df as real + 0.5))
  {
    var b := df as real + 0.5;
    var q := (n as real - df as real + 0.5) / b;
    assert q * b == n as real - df as real + 0.5;
    assert (1.0 + q) * b == n as real + 1.0;
    QuotientIs(n as real + 1.0, b, 1.0 + q);
  }

  lemma LargerDenominator(a: real, b: real, c: real)
    requires a > 0.0 && 0.0 < b < c
    ensures 0.0 < a / c < a / b
  {
    var p, q := a / b, a / c;
    assert p * b == a && q * c == a;
    FactorPositive(q, c);
    ProductPositive(q, c - b);
    assert (p - q) * b == q * (c - b);
    FactorPositive(p - q, b);
  }

  /** The rarer of two terms has the greater weight. */
  lemma RarerWeighsMore(log: real -> real, n: nat, df: nat, df': nat)
    requires df < df' <= n
    ensures Monotone(log) ==> Idf(log, n, df) >= Idf(log, n, df')
    ensures StrictlyMonotone(log) ==> Idf(log, n, df) > Idf(log, n, df')
  {
    IdfIs(log, n, df);
    IdfIs(log, n, df');
    LargerDenominator(n as real + 1.0, df as real + 0.5, df' as real + 0.5);
  }

  // ------------------------------------------------------------- counts and lengths

  /** The denominator, cleared of the average: 0.3 = 1.2 * (1 - 0.75) and 0.9 = 1.2 * 0.75. */
  lemma DenominatorIs(tf: nat, dl: nat, avgdl: real)
    requires avgdl > 0.0
    ensures Denominator(tf, dl, avgdl) * avgdl == (tf as real + 0.3) * avgdl + 0.9 * dl as real
  {
    var q := B * dl as real / avgdl;
    assert q * avgdl == B * dl as real;
    assert Denominator(tf, dl, avgdl) == tf as real + K1 * (1.0 - B + q);
    assert (K1 * q) * avgdl == K1 * (q * avgdl);
  }

  /** The gain, cleared of its denominator: 2.2 is 1.2 + 1. */
  lemma GainIs(idf: real, tf: nat, dl: nat, avgdl: real)
    requires avgdl > 0.0
    ensures Denominator(tf, dl, avgdl) > 0.0
    ensures Gain(idf, tf, dl, avgdl) * Denominator(tf, dl, avgdl) == 2.2 * idf * tf as real
  {
    DenominatorPositive(tf, dl, avgdl);
    var x, d := idf * (tf as real * (K1 + 1.0)), Denominator(tf, dl, avgdl);
    assert x / d * d == x;
  }

  /** More weight, more gain. */
  lemma WeightierGainsMore(idf: real, idf': real, tf: nat, dl: nat, avgdl: real)
    requires tf > 0 && avgdl > 0.0
    ensures idf > idf' ==> Gain(idf, tf, dl, avgdl) > Gain(idf', tf, dl, avgdl)
    ensures idf >= idf' ==> Gain(idf, tf, dl, avgdl) >= Gain(idf', tf, dl, avgdl)
  {
    GainIs(idf, tf, dl, avgdl);
    GainIs(idf', tf, dl, avgdl);
    if idf > idf' {
      SameScale(idf, idf', tf as real, Denominator(tf, dl, avgdl), Gain(idf, tf, dl, avgdl), Gain(idf', tf, dl, avgdl));
    }
  }

  lemma SameScale(a: real, b: real, t: real, d: real, g: real, h: real)
    requires a > b && t > 0.0 && d > 0.0 && g * d == 2.2 * a * t && h * d == 2.2 * b * t
    ensures g > h
  {
    ProductPositive(a - b, t);
    assert (g - h) * d == 2.2 * ((a - b) * t);
    FactorPositive(g - h, d);
  }

  /** With the count the gain rises, and never reaches 2.2 times the weight. */
  lemma GainRises(idf: real, tf: nat, tf': nat, dl: nat, avgdl: real)
    requires idf > 0.0 && tf < tf' && avgdl > 0.0
    ensures Gain(idf, tf, dl, avgdl) < Gain(idf, tf', dl, avgdl) < 2.2 * idf
  {
    GainIs(idf, tf, dl, avgdl);
    GainIs(idf, tf', dl, avgdl);
    DenominatorPositive(0, dl, avgdl);
    Saturates(2.2 * idf, tf as real, tf' as real, Denominator(0, dl, avgdl), Gain(idf, tf, dl, avgdl),
              Gain(idf, tf', dl, avgdl));
  }

  lemma Saturates(a: real, x: real, y: real, c: real, g: real, h: real)
    requires a > 0.0 && 0.0 <= x < y && c > 0.0 && g * (x + c) == a * x && h * (y + c) == a * y
    ensures g < h < a
  {
    ProductPositive(a, c);
    assert (a - h) * (y + c) == a * c;
    FactorPositive(a - h, y + c);
    ProductPositive(a - h, y - x);
    assert (h - g) * (x + c) == (a - h) * (y - x);
    FactorPositive(h - g, x + c);
  }

  /** With the length of the document it falls. */
  lemma GainFalls(idf: real, tf: nat, dl: nat, dl': nat, avgdl: real)
    requires idf > 0.0 && tf > 0 && dl < dl' && avgdl > 0.0
    ensures Gain(idf, tf, dl, avgdl) > Gain(idf, tf, dl', avgdl)
  {
    GainIs(idf, tf, dl, avgdl);
    GainIs(idf, tf, dl', avgdl);
    DenominatorIs(tf, dl, avgdl);
    DenominatorIs(tf, dl', avgdl);
    var d, d' := Denominator(tf, dl, avgdl), Denominator(tf, dl', avgdl);
    assert (d' - d) * avgdl == 0.9 * (dl' as real - dl as real);
    FactorPositive(d' - d, avgdl);
    var g, g' := Gain(idf, tf, dl, avgdl), Gain(idf, tf, dl', avgdl);
    ProductPositive(2.2 * idf, tf as real);
    FactorPositive(g', d');
    ProductPositive(g', d' - d);
    assert (g - g') * d == g' * (d' - d);
    FactorPositive(g - g', d);
  }

  /** In a document of average length the length cancels out. */
  lemma GainAtAverage(idf: real, tf: nat, dl: nat)
    requires dl > 0
    ensures Gain(idf, tf, dl, dl as real) == idf * tf as real * 2.2 / (tf as real + 1.2)
  {
    var x := dl as real;
    GainIs(idf, tf, dl, x);
    DenominatorIs(tf, dl, x);
    var d := Denominator(tf, dl, x);
    QuotientIs((tf as real + 1.2) * x, x, d);
    QuotientIs((tf as real + 1.2) * x, x, tf as real + 1.2);
    QuotientIs(idf * tf as real * 2.2, d, Gain(idf, tf, dl, x));
  }

  // ------------------------------------------------------------- scores

  /** Of two terms with equal counts in documents of equal length the rarer scores more. */
  lemma RarerScoresMore(docs: seq<Doc>, w: Weights, t: Term, t': Term, i: nat, i': nat)
    requires i < |docs| && i' < |docs| && w.avgdl > 0.0 && Df(docs, t) < Df(docs, t')
    requires Tf(docs[i].terms, t) == Tf(docs[i'].terms, t') > 0 && |docs[i].terms| == |docs[i'].terms|
    ensures Monotone(w.log) ==> TermScore(docs, w, t, i) >= TermScore(docs, w, t', i')
    ensures StrictlyMonotone(w.log) ==> TermScore(docs, w, t, i) > TermScore(docs, w, t', i')
  {
    var tf, dl := Tf(docs[i].terms, t), |docs[i].terms|;
    DfBound(docs, t');
    RarerWeighsMore(w.log, |docs|, Df(docs, t), Df(docs, t'));
    WeightierGainsMore(Idf(w.log, |docs|, Df(docs, t)), Idf(w.log, |docs|, Df(docs, t')), tf, dl, w.avgdl);
  }

  /** Of two documents with a term equally often the shorter scores more. */
  lemma ShorterScoresMore(docs: seq<Doc>, w: Weights, t: Term, i: nat, i': nat)
    requires i < |docs| && i' < |docs| && w.avgdl > 0.0 && LogLike(w.log)
    requires Tf(docs[i].terms, t) == Tf(docs[i'].terms, t) > 0 && |docs[i].terms| < |docs[i'].terms|
    ensures TermScore(docs, w, t, i) > TermScore(docs, w, t, i')
  {
    DfBound(docs, t);
    IdfPositive(w.log, |docs|, Df(docs, t));
    GainFalls(Idf(w.log, |docs|, Df(docs, t)), Tf(docs[i].terms, t), |docs[i].terms|, |docs[i'].terms|, w.avgdl);
  }

  /** Of two documents of equal length the one with the term more often scores more. */
  lemma OftenerScoresMore(docs: seq<Doc>, w: Weights, t: Term, i: nat, i': nat)
    requires i < |docs| && i' < |docs| && w.avgdl > 0.0 && LogLike(w.log)
    requires Tf(docs[i].terms, t) > Tf(docs[i'].terms, t) && |docs[i].terms| == |docs[i'].terms|
    ensures TermScore(docs, w, t, i) > TermScore(docs, w, t, i')
  {
    var idf, dl := Idf(w.log, |docs|, Df(docs, t)), |docs[i].terms|;
    DfBound(docs, t);
    IdfPositive(w.log, |docs|, Df(docs, t));
    GainRises(idf, Tf(docs[i'].terms, t), Tf(docs[i].terms, t), dl, w.avgdl);
    if Tf(docs[i'].terms, t) == 0 {
      GainPositive(idf, Tf(docs[i].terms, t), dl, w.avgdl);
    }
  }

  // ------------------------------------------------------------- two rankings

  /** The document that scores more than every other is first. */
  lemma BestIsFirst(docs: seq<Doc>, w: Weights, query: seq<Term>, best: nat)
    requires best < |docs| && Matches(docs[best], query)
    requires forall i :: 0 <= i < |docs| && i != best ==> Score(docs, w, query, i) < Score(docs, w, query, best)
    ensures var hits := FirstHits(docs, Ranking(docs, w, query, None, |docs|), 1);
            |hits| == 1 && hits[0].chunkId == docs[best].id
  {
    var ranking := Ranking(docs, w, query, None, |docs|);
    var own := Scored(-Score(docs, w, query, best), best);
    assert own in ranking;
    var p :| 0 <= p < |ranking| && ranking[p] == own;
    assert ranking[0] in ranking;
    assert p == 0 || Before(ranking[0], ranking[p]);
  }

  const EMPLOYMENT: Term := [101]
  const THE: Term := [116]

  /** One document of a rare term before two of a common one, for a query of both. */
  lemma RankedByRarity(w: Weights)
    requires StrictlyMonotone(w.log) && w.avgdl > 0.0
    ensures var docs := [Doc(1, [EMPLOYMENT]), Doc(2, [THE]), Doc(3, [THE])];
            var hits := FirstHits(docs, Ranking(docs, w, [THE, EMPLOYMENT], None, 3), 1);
            |hits| == 1 && hits[0].chunkId == 1
  {
    var docs, query := [Doc(1, [EMPLOYMENT]), Doc(2, [THE]), Doc(3, [THE])], [THE, EMPLOYMENT];
    DfOfThree(docs, EMPLOYMENT);
    DfOfThree(docs, THE);
    forall i | 0 <= i < 3
      ensures Score(docs, w, query, i) == TermScore(docs, w, THE, i) + TermScore(docs, w, EMPLOYMENT, i)
    {
      ScoreOfTwo(docs, w, THE, EMPLOYMENT, i);
      OneTerm(docs[i].terms[0], THE);
      OneTerm(docs[i].terms[0], EMPLOYMENT);
    }
    RarerScoresMore(docs, w, EMPLOYMENT, THE, 0, 1);
    RarerScoresMore(docs, w, EMPLOYMENT, THE, 0, 2);
    assert EMPLOYMENT in query && EMPLOYMENT in docs[0].terms;
    BestIsFirst(docs, w, query, 0);
  }

  /** Of two documents with the term once, the one of one term before the one of two. */
  lemma RankedByLength(w: Weights)
    requires LogLike(w.log) && w.avgdl > 0.0
    ensures var docs := [Doc(1, [EMPLOYMENT, THE]), Doc(2, [EMPLOYMENT])];
            var hits := FirstHits(docs, Ranking(docs, w, [EMPLOYMENT], None, 2), 1);
            |hits| == 1 && hits[0].chunkId == 2
  {
    var docs, query := [Doc(1, [EMPLOYMENT, THE]), Doc(2, [EMPLOYMENT])], [EMPLOYMENT];
    OneTerm(EMPLOYMENT, EMPLOYMENT);
    assert [EMPLOYMENT, THE][..1] == [EMPLOYMENT];
    assert Tf([EMPLOYMENT, THE], EMPLOYMENT) == 1;
    ShorterScoresMore(docs, w, EMPLOYMENT, 1, 0);
    assert query[..0] == [];
    assert EMPLOYMENT in query && EMPLOYMENT in docs[1].terms;
    BestIsFirst(docs, w, query, 1);
  }

  lemma OneTerm(t: Term, term: Term)
    ensures Tf([t], term) == if t == term then 1 else 0
  {
    assert [t][..0] == [];
  }

  lemma ScoreOfTwo(docs: seq<Doc>, w: Weights, a: Term, b: Term, i: nat)
    requires i < |docs|
    ensures Score(docs, w, [a, b], i) == TermScore(docs, w, a, i) + TermScore(docs, w, b, i)
  {
    assert [a, b][..1] == [a] && [a][..0] == [];
    assert Score(docs, w, [a], i) == Score(docs, w, [], i) + TermScore(docs, w, a, i);
  }

  lemma DfOfThree(docs: seq<Doc>, term: Term)
    requires |docs| == 3
    ensures Df(docs, term) == (if term in docs[0].terms then 1 else 0) + (if term in docs[1].terms then 1 else 0)
                              + (if term in docs[2].terms then 1 else 0)
  {
    assert docs[..2][..1] == docs[..1] && docs[..1][..0] == [];
    assert Df(docs[..1], term) == Df([], term) + (if term in docs[0].terms then 1 else 0);
    assert Df(docs[..2], term) == Df(docs[..1], term) + (if term in docs[1].terms then 1 else 0);
  }
}
