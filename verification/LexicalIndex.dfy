/**
 `build_index` and `LexicalIndex`: the loops that write and read the file, and the round trip from documents
 to postings.
 */
module LexicalIndex {
  import opened Seqs
  import opened Varint
  import opened Inverted
  import opened LexicalFile

  // ------------------------------------------------------------- writing

  /** The inner loop: one list onto the blob. Ascending lists have no negative gap for `write_varint` to refuse. */
  method WriteList(plist: seq<Posting>, out: ByteArray)
    requires Rising(plist)
    modifies out
    ensures out.data == old(out.data) + ListBytes(plist, 0)
  {
    var prev: nat := 0;
    for i := 0 to |plist|
      invariant out.data + ListBytes(plist[i..], prev) == old(out.data) + ListBytes(plist, 0)
      invariant prev >= 0 && (i < |plist| ==> prev <= plist[i].doc)
    {
      var p := plist[i];
      assert plist[i..][0] == p && plist[i..][1..] == plist[i + 1..];
      ghost var before := out.data;
      var gapWritten := WriteVarint(p.doc - prev, out);
      var tfWritten := WriteVarint(p.tf, out);
      WroteOne(before, Gap(p.doc, prev), p.tf, ListBytes(plist[i + 1..], p.doc));
      prev := p.doc;
    }
  }

  lemma WroteOne(before: seq<Byte>, gap: nat, tf: nat, rest: seq<Byte>)
    ensures before + Encoded(gap) + Encoded(tf) + rest == before + (Encoded(gap) + Encoded(tf) + rest)
  {
  }

  method WriteEntry(term: Term, e: Entry, out: ByteArray)
    modifies out
    ensures out.data == old(out.data) + EntryBytes(term, e)
  {
    ghost var before := out.data;
    var ok := WriteVarint(|term|, out);
    out.Extend(term);
    ok := WriteVarint(e.df, out);
    ok := WriteVarint(e.off, out);
    ok := WriteVarint(e.len, out);
    Joined(before, Encoded(|term|), term, Encoded(e.df), Encoded(e.off), Encoded(e.len));
  }

  lemma Joined(s: seq<Byte>, a: seq<Byte>, b: seq<Byte>, c: seq<Byte>, d: seq<Byte>, e: seq<Byte>)
    ensures s + a + b + c + d + e == s + (a + (b + (c + (d + e))))
  {
    assert c + (d + e) == c + d + e;
    assert b + (c + (d + e)) == b + c + d + e;
    assert a + (b + (c + (d + e))) == a + b + c + d + e;
  }

  /** The loop over the sorted terms: blob and dictionary grow together. */
  method WriteTerms(terms: seq<Term>, postings: Postings, dictionary: ByteArray, blob: ByteArray)
    requires dictionary != blob && dictionary.data == [] && blob.data == []
    requires forall t :: t in terms ==> t in postings && Rising(postings[t])
    modifies dictionary, blob
    ensures dictionary.data == Dictionary(terms, postings) && blob.data == Blob(terms, postings)
  {
    for i := 0 to |terms|
      invariant dictionary.data == Dictionary(terms[..i], postings) && blob.data == Blob(terms[..i], postings)
    {
      var term := terms[i];
      assert term in terms;
      assert terms[..i + 1][..i] == terms[..i] && terms[..i + 1][i] == term;
      var plist := postings[term];
      var start := |blob.data|;
      WriteList(plist, blob);
      var length := |blob.data| - start;
      WriteEntry(term, Entry(|plist|, start, length), dictionary);
    }
    assert terms[..|terms|] == terms;
  }

  function Total(lens: seq<nat>): nat
    decreases |lens|
  {
    if lens == [] then 0 else Total(lens[..|lens| - 1]) + lens[|lens| - 1]
  }

  /** `avgdl` */
  function Average(lens: seq<nat>): real {
    if lens == [] then 0.0 else Total(lens) as real / |lens| as real
  }

  /** The average times the number of lengths is their sum. */
  lemma AverageIs(lens: seq<nat>)
    ensures lens != [] ==> Average(lens) * |lens| as real == Total(lens) as real
    ensures |lens| == 1 ==> Total(lens) == lens[0]
  {
    if |lens| == 1 {
      assert lens[..0] == [];
    }
  }

  lemma {:induction false} TotalJoins(a: seq<nat>, b: seq<nat>)
    ensures Total(a + b) == Total(a) + Total(b)
    decreases |b|
  {
    if b == [] {
      assert a + b == a;
    } else {
      assert (a + b)[..|a + b| - 1] == a + b[..|b| - 1];
      TotalJoins(a, b[..|b| - 1]);
    }
  }

  predicate AllNats(ids: seq<int>) {
    forall i :: 0 <= i < |ids| ==> ids[i] >= 0
  }

  function AsNats(ids: seq<int>): (r: seq<nat>)
    requires AllNats(ids)
    ensures |r| == |ids| && forall i :: 0 <= i < |ids| ==> r[i] == ids[i]
  {
    seq(|ids|, i requires 0 <= i < |ids| => ids[i] as nat)
  }

  /** The file of some documents: their ids and lengths in order, and every term once, in dictionary order. */
  ghost predicate FileOf(f: File, docs: seq<Doc>, packed: seq<Byte>) {
    && |f.ids| == |f.lens| == |docs| && f.avg == packed
    && (forall i :: 0 <= i < |docs| ==> f.ids[i] == docs[i].id && f.lens[i] == |docs[i].terms|)
    && Alphabetical(f.terms) && Inverts(f.lists, docs)
    && forall t :: t in f.terms <==> t in f.lists
  }

  /**
   `build_index`: the bytes, or None where `struct.pack` raises. `pack` is the eight bytes a double is
   kept in.
   */
  method BuildIndex(docs: seq<Doc>, pack: real -> seq<Byte>) returns (bytes: Option<seq<Byte>>, ghost f: File)
    requires forall x {:trigger pack(x)} :: |pack(x)| == 8
    ensures (exists i :: 0 <= i < |docs| && docs[i].id < 0) ==> bytes.None?
    ensures (forall i :: 0 <= i < |docs| ==> docs[i].id >= 0) ==>
              && FileOf(f, docs, pack(Average(f.lens))) && Shaped(f)
              && bytes == if Packs(f) then Some(FileBytes(f)) else None
  {
    var ids, lens, postings := Invert(docs);
    f := File([], [], [], [], map[]);
    if !AllNats(ids) {
      return None, f;
    }
    var terms := SortTerms(postings.Keys);
    forall t | t in terms ensures t in postings && Rising(postings[t]) {
      assert ListFor(postings, t) == PostingsOf(docs, t);
      PostingsExact(docs, t);
    }
    var dictionary := new ByteArray();
    var blob := new ByteArray();
    WriteTerms(terms, postings, dictionary, blob);
    f := File(AsNats(ids), lens, pack(Average(lens)), terms, postings);
    bytes := Layout(AsNats(ids), lens, pack(Average(lens)), |terms|, dictionary.data, blob.data, f);
  }

  /** Header, tables, dictionary and blob in one payload. */
  method Layout(ids: seq<nat>, lens: seq<nat>, avg: seq<Byte>, nTerms: nat, dictionary: seq<Byte>, blob: seq<Byte>,
                ghost f: File) returns (bytes: Option<seq<Byte>>)
    requires Shaped(f) && f == File(ids, lens, avg, f.terms, f.lists) && nTerms == |f.terms|
    requires dictionary == Dictionary(f.terms, f.lists) && blob == Blob(f.terms, f.lists)
    ensures bytes == if Packs(f) then Some(FileBytes(f)) else None
  {
    var offLens := HEADER_SIZE + |ids| * 8;
    var offTerms := offLens + |ids| * 4;
    var offPostings := offTerms + |dictionary|;
    if !AllBelow(ids, TWO_64) || !AllBelow(lens, TWO_32) || |ids| >= TWO_32 || nTerms >= TWO_32
       || offPostings >= TWO_64 {
      return None;
    }
    assert offLens == DocLensAt(f) && offTerms == TermsAt(f) && offPostings == PostingsAt(f);
    var counts := Little(FORMAT_VERSION, 4) + (Little(|ids|, 4) + Little(nTerms, 4));
    var offsets := Little(HEADER_SIZE, 8) + (Little(offLens, 8) + (Little(offTerms, 8) + Little(offPostings, 8)));
    var header := MAGIC + (counts + (avg + offsets));
    var tables := Littles(ids, 8) + (Littles(lens, 4) + (dictionary + blob));
    assert counts == CountBytes(f) && offsets == OffsetBytes(f) && tables == Tail(f);
    return Some(header + tables);
  }

  // ------------------------------------------------------------- reading

  /** One turn of the dictionary loop, `pos` advancing number by number. */
  method ReadEntry(view: seq<Byte>, pos: nat, text: Text) returns (r: EntryRead)
    ensures r == EntryAt(view, pos, text)
  {
    var length := ReadVarint(view, pos);
    if length.Truncated? {
      return NoEntry;
    }
    var term := Slice(view, length.next, length.value);
    if !text(term) {
      return NotText;
    }
    var df := ReadVarint(view, length.next + length.value);
    if df.Truncated? {
      return NoEntry;
    }
    var off := ReadVarint(view, df.next);
    if off.Truncated? {
      return NoEntry;
    }
    var len := ReadVarint(view, off.next);
    if len.Truncated? {
      return NoEntry;
    }
    return EntryRead(term, Entry(df.value, off.value, len.value), len.next);
  }

  method ReadDictionary(view: seq<Byte>, start: nat, n: nat, text: Text) returns (r: DictionaryRead)
    ensures r == Parsed(view, start, n, text)
  {
    var terms: map<Term, Entry>, pos: nat := map[], start;
    for i := 0 to n
      invariant Parsed(view, start, i, text) == DictionaryRead(terms, pos)
    {
      var e := ReadEntry(view, pos, text);
      ParsedNext(view, start, i, terms, pos, text);
      if !e.EntryRead? {
        NoMore(view, start, i + 1, n, text);
        return if e.NoEntry? then NoDictionary else Undecoded;
      }
      terms, pos := terms[e.term := e.e], e.next;
    }
    return DictionaryRead(terms, pos);
  }

  lemma ParsedNext(view: seq<Byte>, start: nat, i: nat, terms: map<Term, Entry>, pos: nat, text: Text)
    requires Parsed(view, start, i, text) == DictionaryRead(terms, pos)
    ensures Parsed(view, start, i + 1, text) ==
              match EntryAt(view, pos, text)
              case NoEntry => NoDictionary
              case NotText => Undecoded
              case EntryRead(term, e, next) => DictionaryRead(terms[term := e], next)
  {
  }

  lemma {:induction false} NoMore(view: seq<Byte>, start: nat, i: nat, n: nat, text: Text)
    requires i <= n && !Parsed(view, start, i, text).DictionaryRead?
    ensures Parsed(view, start, n, text) == Parsed(view, start, i, text)
    decreases n
  {
    if i < n {
      NoMore(view, start, i, n - 1, text);
      StaysStuck(view, start, n, text);
    }
  }

  lemma StaysStuck(view: seq<Byte>, start: nat, n: nat, text: Text)
    requires n > 0 && !Parsed(view, start, n - 1, text).DictionaryRead?
    ensures Parsed(view, start, n, text) == Parsed(view, start, n - 1, text)
  {
  }

  /** The constructor of `LexicalIndex`. */
  method Open(data: seq<Byte>, text: Text) returns (r: Opening)
    ensures r == OpenFile(data, text)
  {
    if |data| < HEADER_SIZE {
      return TooShort;
    }
    if data[..8] != MAGIC {
      return Foreign;
    }
    var h := HeaderOf(data);
    if h.version != FORMAT_VERSION {
      return WrongVersion;
    }
    if h.offIds + h.docs * 8 > |data| {
      return TooShort;
    }
    var docIds := Numbers(data, h.offIds, h.docs, 8);
    if !AllBelow(docIds, TWO_63) {
      return Overflow;
    }
    if h.offLens + h.docs * 4 > |data| {
      return TooShort;
    }
    var docLens := Numbers(data, h.offLens, h.docs, 4);
    if !AllBelow(docLens, TWO_31) {
      return Overflow;
    }
    var dictionary := ReadDictionary(data, h.offTerms, h.terms, text);
    if !dictionary.DictionaryRead? {
      return if dictionary.NoDictionary? then TooShort else Garbled;
    }
    return Opened(Index(data, docIds, docLens, h.avg, dictionary.entries, h.offPostings));
  }

  /** `postings`, as a generator run to its end. */
  method ReadPostings(index: Index, term: Term) returns (r: Option<seq<Posting>>)
    ensures r == PostingsIn(index, term)
  {
    if term !in index.terms {
      return Some([]);
    }
    var e := index.terms[term];
    var view := Slice(index.data, index.offPostings + e.off, e.len);
    var plist: seq<Posting>, pos: nat, doc: nat := [], 0, 0;
    AfterNothing(ListFrom(view, 0, e.df, 0));
    for i := 0 to e.df
      invariant ListFrom(view, 0, e.df, 0) == After(plist, ListFrom(view, pos, e.df - i, doc))
    {
      var pair := ReadPair(view, pos);
      if pair.NoPair? {
        return None;
      }
      AfterOne(plist, Posting(doc + pair.gap, pair.tf), ListFrom(view, pair.next, e.df - i - 1, doc + pair.gap));
      doc := doc + pair.gap;
      plist, pos := plist + [Posting(doc, pair.tf)], pair.next;
    }
    assert plist + [] == plist;
    return Some(plist);
  }

  /** A gap and a count. */
  method ReadPair(view: seq<Byte>, pos: nat) returns (r: PairRead)
    ensures r == PairAt(view, pos)
  {
    var gap := ReadVarint(view, pos);
    if gap.Truncated? {
      return NoPair;
    }
    var tf := ReadVarint(view, gap.next);
    return if tf.Truncated? then NoPair else Pair(gap.value, tf.value, tf.next);
  }

  function After(done: seq<Posting>, rest: Option<seq<Posting>>): Option<seq<Posting>> {
    if rest.None? then None else Some(done + rest.value)
  }

  lemma AfterNothing(rest: Option<seq<Posting>>)
    ensures After([], rest) == rest
  {
    if rest.Some? {
      assert [] + rest.value == rest.value;
    }
  }

  lemma AfterOne(done: seq<Posting>, p: Posting, rest: Option<seq<Posting>>)
    ensures After(done, FirstThen(p, rest)) == After(done + [p], rest)
  {
    if rest.Some? {
      assert done + ([p] + rest.value) == done + [p] + rest.value;
    }
  }

  // ------------------------------------------------------------- the file of some documents

  lemma FileIsSound(f: File, docs: seq<Doc>, packed: seq<Byte>, term: Term)
    requires FileOf(f, docs, packed)
    ensures ListFor(f.lists, term) == PostingsOf(docs, term) && Rising(ListFor(f.lists, term))
    ensures term in f.terms <==> PostingsOf(docs, term) != []
  {
    assert ListFor(f.lists, term) == PostingsOf(docs, term);
    PostingsExact(docs, term);
  }

  /** Every term is the encoding of some text. */
  ghost predicate Texts(docs: seq<Doc>, text: Text) {
    forall d, t :: d in docs && t in d.terms ==> text(t)
  }

  lemma TermsAreText(f: File, docs: seq<Doc>, packed: seq<Byte>, text: Text)
    requires FileOf(f, docs, packed) && Texts(docs, text)
    ensures AllText(f.terms, text)
  {
    forall t | t in f.terms ensures text(t) {
      FileIsSound(f, docs, packed, t);
      var p := HeadOf(PostingsOf(docs, t));
      PostingsExact(docs, t);
      TfCounts(docs[p.doc].terms, t);
      assert docs[p.doc] in docs;
    }
  }

  /**
   Opening what `build_index` wrote gives back every id and length, every term with its document
   frequency, and for every term the ascending list of the documents that have it, with their
   counts. It opens exactly when ids fit 63 bits and lengths 31.
   */
  lemma OpenOfBuild(f: File, docs: seq<Doc>, packed: seq<Byte>, text: Text)
    requires FileOf(f, docs, packed) && |packed| == 8 && Packs(f) && Texts(docs, text)
    ensures OpenFile(FileBytes(f), text).Opened? <==>
              (forall d :: d in docs ==> d.id < 0x8000_0000_0000_0000 && |d.terms| < 0x8000_0000)
    ensures OpenFile(FileBytes(f), text).Opened? ==>
              var index := OpenFile(FileBytes(f), text).index;
              && index.avg == packed && |index.docIds| == |index.docLens| == |docs|
              && (forall i :: 0 <= i < |docs| ==> index.docIds[i] == docs[i].id && index.docLens[i] == |docs[i].terms|)
              && forall t :: ReadsBack(index, docs, t)
  {
    TermsAreText(f, docs, packed, text);
    FileRoundTrip(f, text);
    if OpenFile(FileBytes(f), text).Opened? {
      var index := OpenFile(FileBytes(f), text).index;
      forall d | d in docs ensures d.id < TWO_63 && |d.terms| < TWO_31 {
        var i :| 0 <= i < |docs| && docs[i] == d;
        assert f.ids[i] == d.id && f.lens[i] == |d.terms|;
      }
      forall t ensures ReadsBack(index, docs, t) {
        FileIsSound(f, docs, packed, t);
        DictionaryExact(f, index, t);
        PostingsRoundTrip(f, index, t);
      }
    } else if forall d :: d in docs ==> d.id < TWO_63 && |d.terms| < TWO_31 {
      forall i | 0 <= i < |docs| ensures f.ids[i] < TWO_63 && f.lens[i] < TWO_31 {
        assert docs[i] in docs;
      }
    }
  }

  /** One empty document whose id needs 64 bits: its file is written, and does not open. */
  lemma LargeIdDoesNotOpen(id: nat, packed: seq<Byte>, text: Text)
    requires 0x8000_0000_0000_0000 <= id < 0x1_0000_0000_0000_0000 && |packed| == 8
    ensures var f, docs := File([id], [0], packed, [], map[]), [Doc(id, [])];
            FileOf(f, docs, packed) && Packs(f) && OpenFile(FileBytes(f), text) == Overflow
  {
    var f, docs := File([id], [0], packed, [], map[]), [Doc(id, [])];
    NothingPosted(docs);
    EmptyFilePacks(f);
    FileRoundTrip(f, text);
    assert f.ids[0] >= TWO_63;
  }

  lemma NothingPosted(docs: seq<Doc>)
    requires |docs| == 1 && docs[0].terms == []
    ensures Inverts(map[], docs)
  {
    forall t ensures PostingsOf(docs, t) == [] {
      assert docs[..0] == [];
    }
  }

  lemma EmptyFilePacks(f: File)
    requires |f.ids| == |f.lens| == 1 && |f.avg| == 8 && f.terms == [] && f.ids[0] < TWO_64 && f.lens[0] == 0
    ensures Shaped(f) && Packs(f)
  {
    assert |Dictionary(f.terms, f.lists)| == 0;
  }

  /** The index knows the term exactly if some document has it, and decodes exactly its list. */
  ghost predicate ReadsBack(index: Index, docs: seq<Doc>, term: Term) {
    var plist := PostingsOf(docs, term);
    && PostingsIn(index, term) == Some(plist)
    && (term in index.terms <==> plist != [])
    && (plist != [] ==> index.terms[term].df == |plist|)
  }

  // ------------------------------------------------------------- one file per corpus

  lemma {:induction false} AlphabeticalUnique(a: seq<Term>, b: seq<Term>)
    requires Alphabetical(a) && Alphabetical(b) && forall t :: t in a <==> t in b
    ensures a == b
  {
    if a != [] {
      var x, y := a[0], HeadTerm(b, a[0]);
      assert x in b && y in a && y in b;
      LessTotal(x, y);
      assert x == y;
      LessTotal(x, x);
      forall t ensures t in a[1..] <==> t in b[1..] {
        if t in a[1..] {
          assert t in a && Less(x, t);
        }
        if t in b[1..] {
          assert t in b && Less(x, t);
        }
      }
      AlphabeticalUnique(a[1..], b[1..]);
      assert a == [x] + a[1..] && b == [y] + b[1..];
    } else if b != [] {
      var y := HeadOf(b);
    }
  }

  function HeadTerm(b: seq<Term>, otherwise: Term): Term {
    if b == [] then otherwise else b[0]
  }

  /** The bytes depend on the documents alone, not on the order in which a counter yields their terms. */
  lemma FileUnique(f: File, f': File, docs: seq<Doc>, packed: seq<Byte>)
    requires FileOf(f, docs, packed) && FileOf(f', docs, packed)
    ensures FileBytes(f) == FileBytes(f')
  {
    assert f.ids == f'.ids && f.lens == f'.lens && f.avg == f'.avg;
    forall t ensures ListFor(f.lists, t) == ListFor(f'.lists, t) && (t in f.terms <==> t in f'.terms) {
      FileIsSound(f, docs, packed, t);
      FileIsSound(f', docs, packed, t);
    }
    AlphabeticalUnique(f.terms, f'.terms);
    SameLists(f.terms, f.lists, f'.lists);
    SameTail(f, f');
  }

  /** `build_index` of document 7, "a a", and document 300, "b a": the file whose bytes `TwoDocumentBytes` lists. */
  lemma TwoDocuments(packed: seq<Byte>)
    requires |packed| == 8
    ensures var docs := [Doc(7, [[97], [97]]), Doc(300, [[98], [97]])];
            && FileOf(TwoDocumentFile(packed), docs, packed)
            && Shaped(TwoDocumentFile(packed)) && Packs(TwoDocumentFile(packed))
  {
    var docs, f := [Doc(7, [[97], [97]]), Doc(300, [[98], [97]])], TwoDocumentFile(packed);
    forall t {:trigger PostingsOf(docs, t)}
      ensures ListFor(f.lists, t) == PostingsOf(docs, t) && (t in f.lists <==> PostingsOf(docs, t) != [])
    {
      TwoPostings(docs, [97], [97], [98], [97], t);
    }
    TwoDocumentPacks(packed);
  }

  lemma TwoPostings(docs: seq<Doc>, a: Term, b: Term, c: Term, d: Term, t: Term)
    requires |docs| == 2 && docs[0].terms == [a, b] && docs[1].terms == [c, d]
    ensures var tf := (if a == t then 1 else 0) + (if b == t then 1 else 0);
            var tf' := (if c == t then 1 else 0) + (if d == t then 1 else 0);
            PostingsOf(docs, t) ==
              (if tf > 0 then [Posting(0, tf)] else []) + (if tf' > 0 then [Posting(1, tf')] else [])
  {
    TwoTerms(a, b, t);
    TwoTerms(c, d, t);
    assert docs[..1][..0] == [] && docs[..1][0] == docs[0];
    var tf := Tf([a, b], t);
    assert PostingsOf(docs[..1], t) == PostingsOf([], t) + (if tf > 0 then [Posting(0, tf)] else []);
  }

  lemma TwoTerms(a: Term, b: Term, t: Term)
    ensures Tf([a, b], t) == (if a == t then 1 else 0) + (if b == t then 1 else 0)
  {
    assert [a, b][..1] == [a] && [a][..0] == [];
    assert Tf([a], t) == Tf([], t) + if a == t then 1 else 0;
  }

  lemma SameTail(f: File, f': File)
    requires f == File(f'.ids, f'.lens, f'.avg, f'.terms, f.lists)
    requires Dictionary(f.terms, f.lists) == Dictionary(f'.terms, f'.lists)
    requires Blob(f.terms, f.lists) == Blob(f'.terms, f'.lists)
    ensures FileBytes(f) == FileBytes(f')
  {
    assert Tail(f) == Tail(f');
    assert Head(f) == Head(f') by {
      assert DocLensAt(f) == DocLensAt(f') && TermsAt(f) == TermsAt(f') && PostingsAt(f) == PostingsAt(f');
      assert OffsetBytes(f) == OffsetBytes(f') && CountBytes(f) == CountBytes(f');
    }
  }

  lemma {:induction false} SameLists(terms: seq<Term>, lists: Postings, lists': Postings)
    requires forall t :: ListFor(lists, t) == ListFor(lists', t)
    ensures Blob(terms, lists) == Blob(terms, lists') && Dictionary(terms, lists) == Dictionary(terms, lists')
    decreases |terms|
  {
    if terms != [] {
      SameLists(terms[..|terms| - 1], lists, lists');
    }
  }
}
