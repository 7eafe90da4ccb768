/** The first half of `build_index`: documents into postings lists, and terms into dictionary order. */
module Inverted {
  import opened Seqs
  import opened Varint

  /** A term is its UTF-8 bytes, whose order is that of the code points. */
  type Term = seq<Byte>

  /** A chunk id and what the tokenizer makes of the text. */
  datatype Doc = Doc(id: int, terms: seq<Term>)

  datatype Posting = Posting(doc: nat, tf: nat)

  type Postings = map<Term, seq<Posting>>

  // ------------------------------------------------------------- what the lists should be

  function Tf(terms: seq<Term>, term: Term): nat
    decreases |terms|
  {
    if terms == [] then 0
    else Tf(terms[..|terms| - 1], term) + (if terms[|terms| - 1] == term then 1 else 0)
  }

  /** The documents with the term, in order, and how often each has it. */
  function PostingsOf(docs: seq<Doc>, term: Term): seq<Posting>
    decreases |docs|
  {
    if docs == [] then []
    else
      var before, tf := PostingsOf(docs[..|docs| - 1], term), Tf(docs[|docs| - 1].terms, term);
      if tf > 0 then before + [Posting(|docs| - 1, tf)] else before
  }

  lemma {:induction false} TfCounts(terms: seq<Term>, term: Term)
    ensures Tf(terms, term) > 0 <==> term in terms
    ensures Tf(terms, term) <= |terms|
    decreases |terms|
  {
    if terms != [] {
      TfCounts(terms[..|terms| - 1], term);
      assert terms == terms[..|terms| - 1] + [terms[|terms| - 1]];
    }
  }

  ghost predicate Rising(plist: seq<Posting>) {
    forall i, j :: 0 <= i < j < |plist| ==> plist[i].doc < plist[j].doc
  }

  lemma {:induction false} PostingsRise(docs: seq<Doc>, term: Term)
    ensures Rising(PostingsOf(docs, term)) && |PostingsOf(docs, term)| <= |docs|
    ensures forall p :: p in PostingsOf(docs, term) ==> p.doc < |docs|
    decreases |docs|
  {
    if docs != [] {
      var before := PostingsOf(docs[..|docs| - 1], term);
      PostingsRise(docs[..|docs| - 1], term);
      forall i | 0 <= i < |before| ensures before[i].doc < |docs| - 1 {
        assert before[i] in before;
      }
    }
  }

  lemma {:induction false} PostingsHold(docs: seq<Doc>, term: Term)
    ensures forall p :: p in PostingsOf(docs, term) ==> p.doc < |docs| && p.tf == Tf(docs[p.doc].terms, term) > 0
    ensures forall d :: 0 <= d < |docs| && Tf(docs[d].terms, term) > 0 ==>
              Posting(d, Tf(docs[d].terms, term)) in PostingsOf(docs, term)
    decreases |docs|
  {
    if docs != [] {
      var n := |docs| - 1;
      var before, plist := PostingsOf(docs[..n], term), PostingsOf(docs, term);
      PostingsHold(docs[..n], term);
      assert plist == before || plist == before + [Posting(n, Tf(docs[n].terms, term))];
      forall d | 0 <= d < |docs| && Tf(docs[d].terms, term) > 0 ensures Posting(d, Tf(docs[d].terms, term)) in plist {
        if d < n {
          assert docs[..n][d] == docs[d] && Posting(d, Tf(docs[d].terms, term)) in before;
        }
      }
    }
  }

  /** A postings list is ascending, and has exactly the documents that contain the term, with their counts. */
  lemma {:induction false} PostingsExact(docs: seq<Doc>, term: Term)
    ensures var plist := PostingsOf(docs, term);
            && Rising(plist)
            && (forall p :: p in plist ==> p.doc < |docs| && p.tf == Tf(docs[p.doc].terms, term) > 0)
            && (forall d :: 0 <= d < |docs| && Tf(docs[d].terms, term) > 0 ==>
                  Posting(d, Tf(docs[d].terms, term)) in plist)
            && |plist| <= |docs|
  {
    PostingsRise(docs, term);
    PostingsHold(docs, term);
  }

  // ------------------------------------------------------------- the inversion loop

  /** `collections.Counter` */
  method Counter(terms: seq<Term>) returns (counts: map<Term, nat>)
    ensures forall t :: if t in counts then counts[t] == Tf(terms, t) > 0 else Tf(terms, t) == 0
  {
    counts := map[];
    for i := 0 to |terms|
      invariant forall t :: if t in counts then counts[t] == Tf(terms[..i], t) > 0 else Tf(terms[..i], t) == 0
    {
      assert terms[..i + 1][..i] == terms[..i];
      counts := counts[terms[i] := 1 + if terms[i] in counts then counts[terms[i]] else 0];
    }
    assert terms[..|terms|] == terms;
  }

  /** The defaultdict's view of a list. */
  function ListFor(postings: Postings, term: Term): seq<Posting> {
    if term in postings then postings[term] else []
  }

  /** Every term with a posting has its list, and only those. */
  ghost predicate Inverts(postings: Postings, docs: seq<Doc>) {
    forall t {:trigger PostingsOf(docs, t)} ::
      ListFor(postings, t) == PostingsOf(docs, t) && (t in postings <==> PostingsOf(docs, t) != [])
  }

  /** Halfway through one document: its terms in `left` are still to come. */
  ghost predicate Midway(postings: Postings, docs: seq<Doc>, doc: Doc, left: set<Term>) {
    forall t {:trigger ListFor(postings, t)} {:trigger t in postings} ::
      var plist := if t in left then PostingsOf(docs, t) else PostingsOf(docs + [doc], t);
      ListFor(postings, t) == plist && (t in postings <==> plist != [])
  }

  lemma MidwayStep(postings: Postings, docs: seq<Doc>, doc: Doc, left: set<Term>, term: Term, tf: nat)
    requires Midway(postings, docs, doc, left) && term in left && tf == Tf(doc.terms, term) > 0
    ensures Midway(postings[term := ListFor(postings, term) + [Posting(|docs|, tf)]], docs, doc, left - {term})
  {
    assert (docs + [doc])[..|docs|] == docs;
    var after := postings[term := ListFor(postings, term) + [Posting(|docs|, tf)]];
    assert PostingsOf(docs + [doc], term) == PostingsOf(docs, term) + [Posting(|docs|, tf)];
    forall t ensures var plist := if t in left - {term} then PostingsOf(docs, t) else PostingsOf(docs + [doc], t);
                     ListFor(after, t) == plist && (t in after <==> plist != [])
    {
      assert t != term ==> ListFor(after, t) == ListFor(postings, t);
      assert ListFor(postings, term) == PostingsOf(docs, term);
    }
  }

  /** One document's terms, in whatever order the counter yields them. */
  method AddDoc(postings: Postings, ghost docs: seq<Doc>, doc: Doc, internalId: nat) returns (after: Postings)
    requires Inverts(postings, docs) && internalId == |docs|
    ensures Inverts(after, docs + [doc])
  {
    var counts := Counter(doc.terms);
    after := postings;
    var left := counts.Keys;
    assert (docs + [doc])[..|docs|] == docs;
    assert Midway(after, docs, doc, left) by {
      forall t ensures t !in left ==> PostingsOf(docs + [doc], t) == PostingsOf(docs, t) {
      }
    }
    while |left| > 0
      invariant left <= counts.Keys && Midway(after, docs, doc, left)
      decreases |left|
    {
      ghost var w := Spare(left, {});
      var term :| term in left;
      MidwayStep(after, docs, doc, left, term, counts[term]);
      after := after[term := ListFor(after, term) + [Posting(internalId, counts[term])]];
      left := left - {term};
    }
  }

  method Invert(docs: seq<Doc>) returns (ids: seq<int>, lens: seq<nat>, postings: Postings)
    ensures |ids| == |lens| == |docs|
    ensures forall i :: 0 <= i < |docs| ==> ids[i] == docs[i].id && lens[i] == |docs[i].terms|
    ensures Inverts(postings, docs)
  {
    ids, lens, postings := [], [], map[];
    for i := 0 to |docs|
      invariant |ids| == |lens| == i
      invariant forall k :: 0 <= k < i ==> ids[k] == docs[k].id && lens[k] == |docs[k].terms|
      invariant Inverts(postings, docs[..i])
    {
      ids, lens := ids + [docs[i].id], lens + [|docs[i].terms|];
      postings := AddDoc(postings, docs[..i], docs[i], i);
      assert docs[..i + 1] == docs[..i] + [docs[i]];
    }
    assert docs[..|docs|] == docs;
  }

  // ------------------------------------------------------------- dictionary order

  /** Byte order is that of the first byte in which two terms differ, a beginning of a term being less. */
  lemma {:induction false} LessAt(common: Term, a: Term, b: Term)
    requires b != [] && (a == [] || a[0] != b[0])
    ensures Less(common + a, common + b) <==> a == [] || a[0] < b[0]
    ensures a != [] ==> (Less(common + b, common + a) <==> b[0] < a[0])
  {
    if common == [] {
      assert common + a == a && common + b == b;
    } else {
      assert (common + a)[1..] == common[1..] + a && (common + b)[1..] == common[1..] + b;
      LessAt(common[1..], a, b);
    }
  }

  predicate Less(a: Term, b: Term) {
    if b == [] then false
    else if a == [] then true
    else a[0] < b[0] || (a[0] == b[0] && Less(a[1..], b[1..]))
  }

  lemma {:induction false} LessTotal(a: Term, b: Term)
    ensures Less(a, b) || a == b || Less(b, a)
    ensures !(Less(a, b) && Less(b, a)) && !Less(a, a)
  {
    if a != [] && b != [] {
      LessTotal(a[1..], b[1..]);
      assert a == [a[0]] + a[1..] && b == [b[0]] + b[1..];
    }
    if a != [] {
      LessTotal(a[1..], a[1..]);
    }
  }

  lemma {:induction false} LessTransitive(a: Term, b: Term, c: Term)
    requires Less(a, b) && Less(b, c)
    ensures Less(a, c)
  {
    if a != [] {
      if a[0] == b[0] == c[0] {
        LessTransitive(a[1..], b[1..], c[1..]);
      }
    }
  }

  ghost predicate Alphabetical(terms: seq<Term>) {
    forall i, j :: 0 <= i < j < |terms| ==> Less(terms[i], terms[j])
  }

  method LeastTerm(s: set<Term>) returns (least: Term)
    requires |s| > 0
    ensures least in s && forall t :: t in s && t != least ==> Less(least, t)
  {
    ghost var w := Spare(s, {});
    least :| least in s;
    var rest := s - {least};
    while |rest| > 0
      invariant least in s && rest <= s
      invariant forall t :: t in s && t !in rest && t != least ==> Less(least, t)
      decreases |rest|
    {
      w := Spare(rest, {});
      var t :| t in rest;
      LessTotal(t, least);
      if Less(t, least) {
        forall u | u in s && u !in rest && u != least ensures Less(t, u) {
          LessTransitive(t, least, u);
        }
        least := t;
      }
      rest := rest - {t};
    }
  }

  /** `sorted(postings)` */
  method SortTerms(keys: set<Term>) returns (sorted: seq<Term>)
    ensures Alphabetical(sorted) && forall t :: t in sorted <==> t in keys
  {
    sorted := [];
    var left := keys;
    while |left| > 0
      invariant left <= keys && Alphabetical(sorted)
      invariant forall t :: t in sorted <==> t in keys && t !in left
      invariant forall t, u :: t in sorted && u in left ==> Less(t, u)
      decreases |left|
    {
      var least := LeastTerm(left);
      forall i | 0 <= i < |sorted| ensures Less(sorted[i], least) {
        var t := sorted[i];
        assert t in sorted;
      }
      sorted, left := sorted + [least], left - {least};
    }
  }
}
