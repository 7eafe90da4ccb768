/**
 The index file: `build_index` prints it, `LexicalIndex` parses it, `postings` decodes one list.
 Little-endian throughout; the average length is the eight bytes of a double, whatever they are.
 */
module LexicalFile {
  import opened Seqs
  import opened Varint
  import opened Inverted

  const MAGIC: seq<Byte> := [67, 68, 76, 88, 73, 68, 88, 49] // "CDLXIDX1"
  const FORMAT_VERSION: nat := 1
  const HEADER_SIZE: nat := 60

  // ------------------------------------------------------------- fixed-width numbers

  function Width(n: nat): (w: nat)
    ensures w >= 1
  {
    if n == 0 then 1 else 256 * Width(n - 1)
  }

  /** `struct.pack` of one unsigned number in n bytes. */
  function Little(value: nat, n: nat): (s: seq<Byte>)
    ensures |s| == n
  {
    if n == 0 then [] else [value % 256] + Little(value / 256, n - 1)
  }

  function Littles(values: seq<nat>, n: nat): (s: seq<Byte>)
    ensures |s| == |values| * n
    decreases |values|
  {
    if values == [] then []
    else
      assert |values| * n == (|values| - 1) * n + n;
      Littles(values[..|values| - 1], n) + Little(values[|values| - 1], n)
  }

  /** `struct.unpack_from` of one unsigned number. */
  function Number(data: seq<Byte>, at: nat, n: nat): nat
    requires at + n <= |data|
    decreases n
  {
    if n == 0 then 0 else data[at] + 256 * Number(data, at + 1, n - 1)
  }

  function Numbers(data: seq<Byte>, at: nat, count: nat, n: nat): (r: seq<nat>)
    requires at + count * n <= |data|
    ensures |r| == count
    decreases count
  {
    if count == 0 then []
    else
      assert count * n == (count - 1) * n + n;
      Numbers(data, at, count - 1, n) + [Number(data, at + (count - 1) * n, n)]
  }

  lemma {:induction false} NumberOfLittle(data: seq<Byte>, at: nat, value: nat, n: nat)
    requires At(data, at, Little(value, n)) && value < Width(n)
    ensures Number(data, at, n) == value
    decreases n
  {
    if n > 0 {
      AtParts(data, at, [value % 256], Little(value / 256, n - 1));
      assert data[at] == data[at..at + 1][0];
      NumberOfLittle(data, at + 1, value / 256, n - 1);
    }
  }

  lemma {:induction false} NumbersOfLittles(data: seq<Byte>, at: nat, values: seq<nat>, n: nat)
    requires At(data, at, Littles(values, n))
    requires forall i :: 0 <= i < |values| ==> values[i] < Width(n)
    ensures Numbers(data, at, |values|, n) == values
    decreases |values|
  {
    if values != [] {
      var rest, last := values[..|values| - 1], values[|values| - 1];
      AtParts(data, at, Littles(rest, n), Little(last, n));
      NumbersOfLittles(data, at, rest, n);
      NumberOfLittle(data, at + |rest| * n, last, n);
    }
  }

  // ------------------------------------------------------------- one postings list

  /** The gap written for a document; it never has to be cut off at zero (FromOn). */
  function Gap(doc: nat, prev: nat): nat {
    Max(0, doc - prev)
  }

  /** Gap and count, document after document. */
  function ListBytes(plist: seq<Posting>, prev: nat): seq<Byte> {
    if plist == [] then []
    else Encoded(Gap(plist[0].doc, prev)) + Encoded(plist[0].tf) + ListBytes(plist[1..], plist[0].doc)
  }

  /** Gaps are never negative: documents ascend from `prev` on. */
  ghost predicate FromOn(plist: seq<Posting>, prev: nat) {
    (plist != [] ==> prev <= plist[0].doc) && Rising(plist)
  }

  /** `postings`: df gap and count pairs, each gap added to the document before. None is an IndexError. */
  function ListFrom(view: seq<Byte>, pos: nat, df: nat, doc: nat): Option<seq<Posting>>
    decreases df
  {
    if df == 0 then Some([])
    else
      match PairAt(view, pos)
      case NoPair => None
      case Pair(gap, tf, next) => FirstThen(Posting(doc + gap, tf), ListFrom(view, next, df - 1, doc + gap))
  }

  function FirstThen(p: Posting, rest: Option<seq<Posting>>): Option<seq<Posting>> {
    if rest.None? then None else Some([p] + rest.value)
  }

  datatype PairRead = NoPair | Pair(gap: nat, tf: nat, next: nat)

  function PairAt(view: seq<Byte>, pos: nat): PairRead {
    match Decoded(view, pos)
    case Truncated => NoPair
    case Read(gap, pos1) =>
      match Decoded(view, pos1)
      case Truncated => NoPair
      case Read(tf, pos2) => Pair(gap, tf, pos2)
  }

  lemma PairFrom(view: seq<Byte>, pos: nat, pos1: nat, next: nat, gap: nat, tf: nat)
    requires Decoded(view, pos) == Read(gap, pos1) && Decoded(view, pos1) == Read(tf, next)
    ensures PairAt(view, pos) == Pair(gap, tf, next)
  {
  }

  lemma PairRoundTrip(view: seq<Byte>, pos: nat, gap: nat, tf: nat, pos1: nat, next: nat)
    requires At(view, pos, Encoded(gap)) && pos1 == pos + |Encoded(gap)|
    requires At(view, pos1, Encoded(tf)) && next == pos1 + |Encoded(tf)|
    ensures PairAt(view, pos) == Pair(gap, tf, next)
  {
    RoundTrip(view, pos, gap);
    RoundTrip(view, pos1, tf);
    PairFrom(view, pos, pos1, next, gap, tf);
  }

  lemma ListStep(view: seq<Byte>, pos: nat, n: nat, p: Posting, prev: nat, at: nat)
    requires prev <= p.doc && At(view, pos, Encoded(Gap(p.doc, prev)) + Encoded(p.tf))
    requires at == pos + |Encoded(Gap(p.doc, prev)) + Encoded(p.tf)|
    ensures ListFrom(view, pos, n + 1, prev) == FirstThen(p, ListFrom(view, at, n, p.doc))
  {
    AtParts(view, pos, Encoded(Gap(p.doc, prev)), Encoded(p.tf));
    PairRoundTrip(view, pos, Gap(p.doc, prev), p.tf, pos + |Encoded(Gap(p.doc, prev))|, at);
    assert prev + Gap(p.doc, prev) == p.doc;
  }

  lemma ListParts(view: seq<Byte>, pos: nat, plist: seq<Posting>, prev: nat)
    requires plist != [] && At(view, pos, ListBytes(plist, prev))
    ensures var pair := Encoded(Gap(plist[0].doc, prev)) + Encoded(plist[0].tf);
            At(view, pos, pair) && At(view, pos + |pair|, ListBytes(plist[1..], plist[0].doc))
  {
    var pair := Encoded(Gap(plist[0].doc, prev)) + Encoded(plist[0].tf);
    AtParts(view, pos, pair, ListBytes(plist[1..], plist[0].doc));
  }

  lemma {:induction false} ListRoundTrip(view: seq<Byte>, pos: nat, plist: seq<Posting>, prev: nat)
    requires FromOn(plist, prev) && At(view, pos, ListBytes(plist, prev))
    ensures ListFrom(view, pos, |plist|, prev) == Some(plist)
    decreases |plist|
  {
    if plist != [] {
      var at := pos + |Encoded(Gap(plist[0].doc, prev)) + Encoded(plist[0].tf)|;
      ListParts(view, pos, plist, prev);
      FromNext(plist, prev);
      ListRoundTrip(view, at, plist[1..], plist[0].doc);
      ListStep(view, pos, |plist| - 1, plist[0], prev, at);
      HeadAndRest(plist);
    }
  }

  lemma FromNext(plist: seq<Posting>, prev: nat)
    requires plist != [] && FromOn(plist, prev)
    ensures prev <= plist[0].doc && FromOn(plist[1..], plist[0].doc)
  {
  }

  lemma HeadAndRest(plist: seq<Posting>)
    requires plist != []
    ensures |plist[1..]| + 1 == |plist| && FirstThen(plist[0], Some(plist[1..])) == Some(plist)
  {
    assert plist == [plist[0]] + plist[1..];
  }

  // ------------------------------------------------------------- dictionary and blob

  /** A term's document frequency, and where its list is in the blob. */
  datatype Entry = Entry(df: nat, off: nat, len: nat)

  function NumberBytes(e: Entry): seq<Byte> {
    Encoded(e.df) + (Encoded(e.off) + Encoded(e.len))
  }

  function EntryBytes(term: Term, e: Entry): seq<Byte> {
    Encoded(|term|) + (term + NumberBytes(e))
  }

  /** All lists, in dictionary order. */
  function Blob(terms: seq<Term>, lists: Postings): seq<Byte>
    decreases |terms|
  {
    if terms == [] then []
    else Blob(terms[..|terms| - 1], lists) + ListBytes(ListFor(lists, terms[|terms| - 1]), 0)
  }

  /** The entry of a term whose list starts at `off`. */
  function EntryOf(plist: seq<Posting>, off: nat): Entry {
    Entry(|plist|, off, |ListBytes(plist, 0)|)
  }

  /** The last term's list follows all others. */
  function LastEntry(terms: seq<Term>, lists: Postings): Entry
    requires terms != []
  {
    EntryOf(ListFor(lists, terms[|terms| - 1]), |Blob(terms[..|terms| - 1], lists)|)
  }

  function Dictionary(terms: seq<Term>, lists: Postings): seq<Byte>
    decreases |terms|
  {
    if terms == [] then []
    else Dictionary(terms[..|terms| - 1], lists) + EntryBytes(terms[|terms| - 1], LastEntry(terms, lists))
  }

  function Entries(terms: seq<Term>, lists: Postings): map<Term, Entry>
    decreases |terms|
  {
    if terms == [] then map[] else Entries(terms[..|terms| - 1], lists)[terms[|terms| - 1] := LastEntry(terms, lists)]
  }

  /** A slice of a memoryview stops at the end of the data. */
  function Slice(data: seq<Byte>, from: nat, len: nat): seq<Byte> {
    data[Min(from, |data|)..Min(from + len, |data|)]
  }

  datatype NumbersRead = NoNumbers | NumbersRead(e: Entry, next: nat)

  /** The three numbers of an entry. */
  function NumbersAt(data: seq<Byte>, pos: nat): NumbersRead {
    match Decoded(data, pos)
    case Truncated => NoNumbers
    case Read(df, pos1) =>
      match Decoded(data, pos1)
      case Truncated => NoNumbers
      case Read(off, pos2) =>
        match Decoded(data, pos2)
        case Truncated => NoNumbers
        case Read(len, next) => NumbersRead(Entry(df, off, len), next)
  }

  /** Which bytes are UTF-8. */
  type Text = seq<Byte> -> bool

  ghost predicate AllText(terms: seq<Term>, text: Text) {
    forall t :: t in terms ==> text(t)
  }

  datatype EntryRead = NoEntry | NotText | EntryRead(term: Term, e: Entry, next: nat)

  /** One turn of the dictionary loop: the term, its entry, and the next position. */
  function EntryAt(data: seq<Byte>, pos: nat, text: Text): EntryRead {
    match Decoded(data, pos)
    case Truncated => NoEntry
    case Read(length, start) =>
      if !text(Slice(data, start, length)) then NotText
      else
        match NumbersAt(data, start + length)
        case NoNumbers => NoEntry
        case NumbersRead(e, next) => EntryRead(Slice(data, start, length), e, next)
  }

  datatype DictionaryRead = NoDictionary | Undecoded | DictionaryRead(entries: map<Term, Entry>, next: nat)

  /** The dictionary loop: n entries from `pos` on. */
  function Parsed(data: seq<Byte>, pos: nat, n: nat, text: Text): DictionaryRead
    decreases n
  {
    if n == 0 then DictionaryRead(map[], pos)
    else
      match Parsed(data, pos, n - 1, text)
      case NoDictionary => NoDictionary
      case Undecoded => Undecoded
      case DictionaryRead(entries, at) =>
        match EntryAt(data, at, text)
        case NoEntry => NoDictionary
        case NotText => Undecoded
        case EntryRead(term, e, next) => DictionaryRead(entries[term := e], next)
  }

  lemma NumbersFrom(data: seq<Byte>, pos: nat, pos1: nat, pos2: nat, next: nat, e: Entry)
    requires Decoded(data, pos) == Read(e.df, pos1) && Decoded(data, pos1) == Read(e.off, pos2)
    requires Decoded(data, pos2) == Read(e.len, next)
    ensures NumbersAt(data, pos) == NumbersRead(e, next)
  {
  }

  lemma ThreeParts(data: seq<Byte>, pos: nat, a: seq<Byte>, b: seq<Byte>, c: seq<Byte>)
    requires At(data, pos, a + (b + c))
    ensures At(data, pos, a) && At(data, pos + |a|, b) && At(data, pos + |a| + |b|, c)
  {
    AtParts(data, pos, a, b + c);
    AtParts(data, pos + |a|, b, c);
  }

  lemma NumbersRoundTrip(data: seq<Byte>, pos: nat, e: Entry)
    requires At(data, pos, NumberBytes(e))
    ensures NumbersAt(data, pos) == NumbersRead(e, pos + |NumberBytes(e)|)
  {
    var pos1 := pos + |Encoded(e.df)|;
    var pos2 := pos1 + |Encoded(e.off)|;
    var next := pos2 + |Encoded(e.len)|;
    assert NumbersAt(data, pos) == NumbersRead(e, next) by {
      ThreeParts(data, pos, Encoded(e.df), Encoded(e.off), Encoded(e.len));
      RoundTrip(data, pos, e.df);
      RoundTrip(data, pos1, e.off);
      RoundTrip(data, pos2, e.len);
      NumbersFrom(data, pos, pos1, pos2, next, e);
    }
  }

  lemma EntryFrom(data: seq<Byte>, pos: nat, start: nat, term: Term, e: Entry, next: nat, text: Text)
    requires Decoded(data, pos) == Read(|term|, start) && Slice(data, start, |term|) == term
    requires NumbersAt(data, start + |term|) == NumbersRead(e, next) && text(term)
    ensures EntryAt(data, pos, text) == EntryRead(term, e, next)
  {
  }

  lemma EntryRoundTrip(data: seq<Byte>, pos: nat, term: Term, e: Entry, next: nat, text: Text)
    requires At(data, pos, EntryBytes(term, e)) && next == pos + |EntryBytes(term, e)| && text(term)
    ensures EntryAt(data, pos, text) == EntryRead(term, e, next)
  {
    var start := pos + |Encoded(|term|)|;
    assert next == start + |term| + |NumberBytes(e)|;
    ThreeParts(data, pos, Encoded(|term|), term, NumberBytes(e));
    RoundTrip(data, pos, |term|);
    SliceAt(data, start, term);
    NumbersRoundTrip(data, start + |term|, e);
    EntryFrom(data, pos, start, term, e, next, text);
  }

  lemma SliceAt(data: seq<Byte>, pos: nat, chunk: seq<Byte>)
    requires At(data, pos, chunk)
    ensures Slice(data, pos, |chunk|) == chunk
  {
  }

  /** A dictionary is that of the other terms, then the last term's entry. */
  lemma DictionaryParts(data: seq<Byte>, pos: nat, terms: seq<Term>, lists: Postings)
    requires terms != [] && At(data, pos, Dictionary(terms, lists))
    ensures var rest, last := terms[..|terms| - 1], terms[|terms| - 1];
            && At(data, pos, Dictionary(rest, lists))
            && At(data, pos + |Dictionary(rest, lists)|, EntryBytes(last, LastEntry(terms, lists)))
            && |Dictionary(terms, lists)| == |Dictionary(rest, lists)| + |EntryBytes(last, LastEntry(terms, lists))|
  {
    var rest, last := terms[..|terms| - 1], terms[|terms| - 1];
    AtParts(data, pos, Dictionary(rest, lists), EntryBytes(last, LastEntry(terms, lists)));
  }

  ghost predicate Stands(data: seq<Byte>, pos: nat, terms: seq<Term>, lists: Postings) {
    At(data, pos, Dictionary(terms, lists))
  }

  ghost predicate ReadsAs(data: seq<Byte>, pos: nat, terms: seq<Term>, lists: Postings, n: nat, text: Text) {
    Parsed(data, pos, n, text) == DictionaryRead(Entries(terms, lists), pos + |Dictionary(terms, lists)|)
  }

  lemma DictionaryRest(data: seq<Byte>, pos: nat, terms: seq<Term>, lists: Postings)
    requires terms != [] && Stands(data, pos, terms, lists)
    ensures Stands(data, pos, terms[..|terms| - 1], lists)
  {
    DictionaryParts(data, pos, terms, lists);
  }

  /** Where the last entry stands, it reads back. */
  lemma LastReads(data: seq<Byte>, pos: nat, terms: seq<Term>, lists: Postings, at: nat, next: nat, text: Text)
    requires terms != [] && Stands(data, pos, terms, lists)
    requires at == pos + |Dictionary(terms[..|terms| - 1], lists)| && next == pos + |Dictionary(terms, lists)|
    requires text(terms[|terms| - 1])
    ensures EntryAt(data, at, text) == EntryRead(terms[|terms| - 1], LastEntry(terms, lists), next)
  {
    DictionaryParts(data, pos, terms, lists);
    EntryRoundTrip(data, at, terms[|terms| - 1], LastEntry(terms, lists), next, text);
  }

  /** One more entry, whatever it is. */
  lemma ParsedStep(data: seq<Byte>, pos: nat, n: nat, entries: map<Term, Entry>, at: nat, term: Term, e: Entry,
                   next: nat, text: Text)
    requires n > 0 && Parsed(data, pos, n - 1, text) == DictionaryRead(entries, at)
    requires EntryAt(data, at, text) == EntryRead(term, e, next)
    ensures Parsed(data, pos, n, text) == DictionaryRead(entries[term := e], next)
  {
  }

  lemma DictionaryStep(data: seq<Byte>, pos: nat, terms: seq<Term>, lists: Postings, at: nat, next: nat, text: Text)
    requires terms != [] && Stands(data, pos, terms, lists) && text(terms[|terms| - 1])
    requires at == pos + |Dictionary(terms[..|terms| - 1], lists)| && next == pos + |Dictionary(terms, lists)|
    requires ReadsAs(data, pos, terms[..|terms| - 1], lists, |terms| - 1, text)
    ensures ReadsAs(data, pos, terms, lists, |terms|, text)
  {
    var last, e, before := terms[|terms| - 1], LastEntry(terms, lists), Entries(terms[..|terms| - 1], lists);
    LastReads(data, pos, terms, lists, at, next, text);
    OneMore(terms, lists, before, last, e);
    ParsedStep(data, pos, |terms|, before, at, last, e, next, text);
  }

  lemma OneMore(terms: seq<Term>, lists: Postings, before: map<Term, Entry>, last: Term, e: Entry)
    requires terms != [] && before == Entries(terms[..|terms| - 1], lists)
    requires last == terms[|terms| - 1] && e == LastEntry(terms, lists)
    ensures Entries(terms, lists) == before[last := e]
  {
  }

  lemma TextParts(terms: seq<Term>, text: Text)
    requires terms != [] && AllText(terms, text)
    ensures AllText(terms[..|terms| - 1], text) && text(terms[|terms| - 1])
  {
  }

  lemma {:induction false} DictionaryReads(data: seq<Byte>, pos: nat, terms: seq<Term>, lists: Postings, text: Text)
    requires Stands(data, pos, terms, lists) && AllText(terms, text)
    ensures ReadsAs(data, pos, terms, lists, |terms|, text)
    decreases |terms|
  {
    if terms != [] {
      var rest := terms[..|terms| - 1];
      TextParts(terms, text);
      DictionaryRest(data, pos, terms, lists);
      DictionaryReads(data, pos, rest, lists, text);
      DictionaryStep(data, pos, terms, lists, pos + |Dictionary(rest, lists)|, pos + |Dictionary(terms, lists)|, text);
    }
  }

  /** The dictionary loop reads back every entry. */
  lemma DictionaryRoundTrip(data: seq<Byte>, pos: nat, terms: seq<Term>, lists: Postings, text: Text)
    requires At(data, pos, Dictionary(terms, lists)) && AllText(terms, text)
    ensures Parsed(data, pos, |terms|, text) == DictionaryRead(Entries(terms, lists), pos + |Dictionary(terms, lists)|)
  {
    DictionaryReads(data, pos, terms, lists, text);
  }

  lemma BlobParts(data: seq<Byte>, pos: nat, terms: seq<Term>, lists: Postings)
    requires terms != [] && At(data, pos, Blob(terms, lists))
    ensures var rest, plist := terms[..|terms| - 1], ListFor(lists, terms[|terms| - 1]);
            At(data, pos, Blob(rest, lists)) && At(data, pos + |Blob(rest, lists)|, ListBytes(plist, 0))
  {
    AtParts(data, pos, Blob(terms[..|terms| - 1], lists), ListBytes(ListFor(lists, terms[|terms| - 1]), 0));
  }

  lemma {:induction false} EntriesExact(terms: seq<Term>, lists: Postings, term: Term)
    ensures term in Entries(terms, lists) <==> term in terms
    ensures term in terms ==>
              Entries(terms, lists)[term] == EntryOf(ListFor(lists, term), Entries(terms, lists)[term].off)
    decreases |terms|
  {
    if terms != [] {
      assert terms == terms[..|terms| - 1] + [terms[|terms| - 1]];
      EntriesExact(terms[..|terms| - 1], lists, term);
    }
  }

  /** Wherever the blob stands, each term's entry leads to its list. */
  lemma {:induction false} EntriesLead(data: seq<Byte>, pos: nat, terms: seq<Term>, lists: Postings, term: Term)
    requires At(data, pos, Blob(terms, lists)) && term in Entries(terms, lists)
    ensures At(data, pos + Entries(terms, lists)[term].off, ListBytes(ListFor(lists, term), 0))
    decreases |terms|
  {
    if terms != [] {
      var rest, last := terms[..|terms| - 1], terms[|terms| - 1];
      BlobParts(data, pos, terms, lists);
      if term == last {
        assert Entries(terms, lists)[term].off == |Blob(rest, lists)|;
      } else {
        assert Entries(terms, lists)[term] == Entries(rest, lists)[term];
        EntriesLead(data, pos, rest, lists, term);
      }
    }
  }

  // ------------------------------------------------------------- the whole file

  /** What a file says, before its layout. */
  datatype File = File(ids: seq<nat>, lens: seq<nat>, avg: seq<Byte>, terms: seq<Term>, lists: Postings)

  const TWO_31: nat := 0x8000_0000
  const TWO_32: nat := 0x1_0000_0000
  const TWO_63: nat := 0x8000_0000_0000_0000
  const TWO_64: nat := 0x1_0000_0000_0000_0000

  function DocLensAt(f: File): nat {
    HEADER_SIZE + |f.ids| * 8
  }

  function TermsAt(f: File): nat {
    DocLensAt(f) + |f.ids| * 4
  }

  function PostingsAt(f: File): nat {
    TermsAt(f) + |Dictionary(f.terms, f.lists)|
  }

  function OffsetBytes(f: File): seq<Byte> {
    Little(HEADER_SIZE, 8) + (Little(DocLensAt(f), 8) + (Little(TermsAt(f), 8) + Little(PostingsAt(f), 8)))
  }

  function CountBytes(f: File): seq<Byte> {
    Little(FORMAT_VERSION, 4) + (Little(|f.ids|, 4) + Little(|f.terms|, 4))
  }


  function Head(f: File): seq<Byte> {
    MAGIC + (CountBytes(f) + (f.avg + OffsetBytes(f)))
  }

  function Tail(f: File): seq<Byte> {
    Littles(f.ids, 8) + (Littles(f.lens, 4) + (Dictionary(f.terms, f.lists) + Blob(f.terms, f.lists)))
  }

  function FileBytes(f: File): seq<Byte> {
    Head(f) + Tail(f)
  }

  /** `struct.pack` takes every number. */
  ghost predicate Packs(f: File) {
    && AllBelow(f.ids, TWO_64) && AllBelow(f.lens, TWO_32)
    && |f.ids| < TWO_32 && |f.terms| < TWO_32 && PostingsAt(f) < TWO_64
  }

  ghost predicate Shaped(f: File) {
    |f.lens| == |f.ids| && |f.avg| == 8
  }

  datatype Header = Header(version: nat, docs: nat, terms: nat, avg: seq<Byte>, offIds: nat, offLens: nat,
                           offTerms: nat, offPostings: nat)

  /** `_HEADER.unpack_from` after the magic. */
  function HeaderOf(data: seq<Byte>): Header
    requires |data| >= HEADER_SIZE
  {
    Header(Number(data, 8, 4), Number(data, 12, 4), Number(data, 16, 4), data[20..28], Number(data, 28, 8),
           Number(data, 36, 8), Number(data, 44, 8), Number(data, 52, 8))
  }

  /** An open index: the mapped file with its tables and dictionary in memory. */
  datatype Index = Index(data: seq<Byte>, docIds: seq<nat>, docLens: seq<nat>, avg: seq<Byte>, terms: map<Term, Entry>,
                         offPostings: nat)

  /**
   Foreign and WrongVersion are the two ValueErrors, TooShort a struct or index error, Overflow numpy's
   for int64 and int32, Garbled a UnicodeDecodeError.
   */
  datatype Opening = Opened(index: Index) | Foreign | WrongVersion | TooShort | Overflow | Garbled

  predicate AllBelow(values: seq<nat>, bound: nat) {
    forall i :: 0 <= i < |values| ==> values[i] < bound
  }

  /** `LexicalIndex(path)` */
  function OpenFile(data: seq<Byte>, text: Text): Opening {
    if |data| < HEADER_SIZE then TooShort
    else if data[..8] != MAGIC then Foreign
    else
      var h := HeaderOf(data);
      if h.version != FORMAT_VERSION then WrongVersion
      else if h.offIds + h.docs * 8 > |data| then TooShort
      else if !AllBelow(Numbers(data, h.offIds, h.docs, 8), TWO_63) then Overflow
      else if h.offLens + h.docs * 4 > |data| then TooShort
      else if !AllBelow(Numbers(data, h.offLens, h.docs, 4), TWO_31) then Overflow
      else
        match Parsed(data, h.offTerms, h.terms, text)
        case NoDictionary => TooShort
        case Undecoded => Garbled
        case DictionaryRead(entries, _) =>
          Opened(Index(data, Numbers(data, h.offIds, h.docs, 8), Numbers(data, h.offLens, h.docs, 4), h.avg, entries,
                       h.offPostings))
  }

  /** `postings(term)`, read to the end. */
  function PostingsIn(index: Index, term: Term): Option<seq<Posting>> {
    if term !in index.terms then Some([])
    else
      var e := index.terms[term];
      ListFrom(Slice(index.data, index.offPostings + e.off, e.len), 0, e.df, 0)
  }

  // ------------------------------------------------------------- round trip

  lemma Widths()
    ensures Width(4) == TWO_32 && Width(8) == TWO_64
  {
    assert Width(1) == 256 && Width(2) == 0x1_0000 && Width(3) == 0x100_0000 && Width(4) == TWO_32;
    assert Width(5) == 256 * TWO_32 && Width(6) == 256 * Width(5) && Width(7) == 256 * Width(6);
  }

  lemma FourParts(data: seq<Byte>, pos: nat, a: seq<Byte>, b: seq<Byte>, c: seq<Byte>, d: seq<Byte>,
                  pos1: nat, pos2: nat, pos3: nat)
    requires At(data, pos, a + (b + (c + d))) && pos1 == pos + |a| && pos2 == pos1 + |b| && pos3 == pos2 + |c|
    ensures At(data, pos, a) && At(data, pos1, b) && At(data, pos2, c) && At(data, pos3, d)
  {
    AtParts(data, pos, a, b + (c + d));
    AtParts(data, pos1, b, c + d);
    AtParts(data, pos2, c, d);
  }

  /** Where the parts of a file stand in it. */
  lemma HeadParts(data: seq<Byte>, f: File)
    requires Shaped(f) && At(data, 0, Head(f))
    ensures At(data, 0, MAGIC) && At(data, 8, CountBytes(f)) && At(data, 20, f.avg) && At(data, 28, OffsetBytes(f))
  {
    FourParts(data, 0, MAGIC, CountBytes(f), f.avg, OffsetBytes(f), 8, 20, 28);
  }

  lemma TailParts(data: seq<Byte>, f: File)
    requires Shaped(f) && At(data, HEADER_SIZE, Tail(f))
    ensures At(data, HEADER_SIZE, Littles(f.ids, 8)) && At(data, DocLensAt(f), Littles(f.lens, 4))
    ensures At(data, TermsAt(f), Dictionary(f.terms, f.lists)) && At(data, PostingsAt(f), Blob(f.terms, f.lists))
  {
    FourParts(data, HEADER_SIZE, Littles(f.ids, 8), Littles(f.lens, 4), Dictionary(f.terms, f.lists),
              Blob(f.terms, f.lists), DocLensAt(f), TermsAt(f), PostingsAt(f));
  }

  lemma HeadAndTail(f: File)
    requires Shaped(f)
    ensures |FileBytes(f)| >= |Head(f)| == HEADER_SIZE
    ensures At(FileBytes(f), 0, Head(f)) && At(FileBytes(f), HEADER_SIZE, Tail(f))
  {
    assert |CountBytes(f)| == 12 && |OffsetBytes(f)| == 32;
    JoinedParts(Head(f), Tail(f));
  }

  lemma JoinedParts(a: seq<Byte>, b: seq<Byte>)
    ensures At(a + b, 0, a) && At(a + b, |a|, b)
  {
  }

  lemma ThreeLittles(data: seq<Byte>, pos: nat, a: nat, b: nat, c: nat, n: nat, pos1: nat, pos2: nat)
    requires At(data, pos, Little(a, n) + (Little(b, n) + Little(c, n))) && pos1 == pos + n && pos2 == pos1 + n
    requires a < Width(n) && b < Width(n) && c < Width(n)
    ensures pos2 + n <= |data| && Number(data, pos, n) == a && Number(data, pos1, n) == b && Number(data, pos2, n) == c
  {
    ThreeParts(data, pos, Little(a, n), Little(b, n), Little(c, n));
    NumberOfLittle(data, pos, a, n);
    NumberOfLittle(data, pos1, b, n);
    NumberOfLittle(data, pos2, c, n);
  }

  lemma CountsRoundTrip(data: seq<Byte>, f: File)
    requires Packs(f) && At(data, 8, CountBytes(f))
    ensures |data| >= 20 && Number(data, 8, 4) == FORMAT_VERSION && Number(data, 12, 4) == |f.ids|
    ensures Number(data, 16, 4) == |f.terms|
  {
    Widths();
    ThreeLittles(data, 8, FORMAT_VERSION, |f.ids|, |f.terms|, 4, 12, 16);
  }

  lemma OffsetsRoundTrip(data: seq<Byte>, f: File)
    requires Packs(f) && At(data, 28, OffsetBytes(f))
    ensures |data| >= HEADER_SIZE && Number(data, 28, 8) == HEADER_SIZE && Number(data, 36, 8) == DocLensAt(f)
    ensures Number(data, 44, 8) == TermsAt(f) && Number(data, 52, 8) == PostingsAt(f)
  {
    Widths();
    FourParts(data, 28, Little(HEADER_SIZE, 8), Little(DocLensAt(f), 8), Little(TermsAt(f), 8),
              Little(PostingsAt(f), 8), 36, 44, 52);
    NumberOfLittle(data, 28, HEADER_SIZE, 8);
    NumberOfLittle(data, 36, DocLensAt(f), 8);
    NumberOfLittle(data, 44, TermsAt(f), 8);
    NumberOfLittle(data, 52, PostingsAt(f), 8);
  }

  lemma HeaderRoundTrip(data: seq<Byte>, f: File)
    requires Shaped(f) && Packs(f) && data == FileBytes(f)
    ensures |data| >= HEADER_SIZE && data[..8] == MAGIC
    ensures HeaderOf(data) == Header(FORMAT_VERSION, |f.ids|, |f.terms|, f.avg, HEADER_SIZE, DocLensAt(f), TermsAt(f),
                                     PostingsAt(f))
  {
    HeadAndTail(f);
    HeadParts(data, f);
    CountsRoundTrip(data, f);
    OffsetsRoundTrip(data, f);
  }

  lemma TailStands(data: seq<Byte>, f: File)
    requires Shaped(f) && data == FileBytes(f)
    ensures At(data, HEADER_SIZE, Littles(f.ids, 8)) && At(data, DocLensAt(f), Littles(f.lens, 4))
    ensures At(data, TermsAt(f), Dictionary(f.terms, f.lists)) && At(data, PostingsAt(f), Blob(f.terms, f.lists))
  {
    HeadAndTail(f);
    TailParts(data, f);
  }

  lemma TableReads(data: seq<Byte>, pos: nat, values: seq<nat>, width: nat)
    requires At(data, pos, Littles(values, width)) && AllBelow(values, Width(width))
    ensures pos + |values| * width <= |data| && Numbers(data, pos, |values|, width) == values
  {
    NumbersOfLittles(data, pos, values, width);
  }

  /** Opening goes through when every part reads back. */
  lemma OpenedFrom(data: seq<Byte>, text: Text, h: Header, ids: seq<nat>, lens: seq<nat>, entries: map<Term, Entry>,
                   next: nat)
    requires |data| >= HEADER_SIZE && data[..8] == MAGIC && HeaderOf(data) == h && h.version == FORMAT_VERSION
    requires h.offIds + h.docs * 8 <= |data| && Numbers(data, h.offIds, h.docs, 8) == ids
    requires h.offLens + h.docs * 4 <= |data| && Numbers(data, h.offLens, h.docs, 4) == lens
    requires Parsed(data, h.offTerms, h.terms, text) == DictionaryRead(entries, next)
    ensures OpenFile(data, text) ==
            if AllBelow(ids, TWO_63) && AllBelow(lens, TWO_31)
            then Opened(Index(data, ids, lens, h.avg, entries, h.offPostings))
            else Overflow
  {
  }

  /** Bytes with the header, the tables and the dictionary of a file in their places open as that file. */
  lemma OpensAs(data: seq<Byte>, f: File, text: Text)
    requires Shaped(f) && Packs(f) && AllText(f.terms, text) && |data| >= HEADER_SIZE && data[..8] == MAGIC
    requires HeaderOf(data) == Header(FORMAT_VERSION, |f.ids|, |f.terms|, f.avg, HEADER_SIZE, DocLensAt(f), TermsAt(f),
                                      PostingsAt(f))
    requires At(data, HEADER_SIZE, Littles(f.ids, 8)) && At(data, DocLensAt(f), Littles(f.lens, 4))
    requires At(data, TermsAt(f), Dictionary(f.terms, f.lists))
    ensures OpenFile(data, text) ==
            if AllBelow(f.ids, TWO_63) && AllBelow(f.lens, TWO_31)
            then Opened(Index(data, f.ids, f.lens, f.avg, Entries(f.terms, f.lists), PostingsAt(f)))
            else Overflow
  {
    TablesRead(data, f);
    DictionaryRoundTrip(data, TermsAt(f), f.terms, f.lists, text);
    var next := TermsAt(f) + |Dictionary(f.terms, f.lists)|;
    OpenedFrom(data, text, HeaderOf(data), f.ids, f.lens, Entries(f.terms, f.lists), next);
  }

  lemma TablesRead(data: seq<Byte>, f: File)
    requires Shaped(f) && Packs(f)
    requires At(data, HEADER_SIZE, Littles(f.ids, 8)) && At(data, DocLensAt(f), Littles(f.lens, 4))
    ensures HEADER_SIZE + |f.ids| * 8 <= |data| && Numbers(data, HEADER_SIZE, |f.ids|, 8) == f.ids
    ensures DocLensAt(f) + |f.ids| * 4 <= |data| && Numbers(data, DocLensAt(f), |f.ids|, 4) == f.lens
  {
    Widths();
    TableReads(data, HEADER_SIZE, f.ids, 8);
    TableReads(data, DocLensAt(f), f.lens, 4);
  }

  /** Opening a written file gives back its tables and dictionary, unless an id needs 64 bits or a length 32. */
  lemma FileRoundTrip(f: File, text: Text)
    requires Shaped(f) && Packs(f) && AllText(f.terms, text)
    ensures OpenFile(FileBytes(f), text) ==
            if AllBelow(f.ids, TWO_63) && AllBelow(f.lens, TWO_31)
            then Opened(Index(FileBytes(f), f.ids, f.lens, f.avg, Entries(f.terms, f.lists), PostingsAt(f)))
            else Overflow
  {
    HeaderRoundTrip(FileBytes(f), f);
    TailStands(FileBytes(f), f);
    OpensAs(FileBytes(f), f, text);
  }

  /** The dictionary has exactly the terms, with their document frequencies. */
  lemma DictionaryExact(f: File, index: Index, term: Term)
    requires index.terms == Entries(f.terms, f.lists)
    ensures term in index.terms <==> term in f.terms
    ensures term in f.terms ==> index.terms[term] == EntryOf(ListFor(f.lists, term), index.terms[term].off)
  {
    EntriesExact(f.terms, f.lists, term);
  }

  /** An index of a file: opened, or about to be. */
  ghost predicate Maps(index: Index, f: File) {
    index.data == FileBytes(f) && index.terms == Entries(f.terms, f.lists) && index.offPostings == PostingsAt(f)
  }

  lemma EntryStands(f: File, index: Index, term: Term)
    requires Shaped(f) && Maps(index, f) && term in index.terms
    ensures At(index.data, index.offPostings + index.terms[term].off, ListBytes(ListFor(f.lists, term), 0))
  {
    EntryIn(index.data, f, index.terms, PostingsAt(f), term);
  }

  lemma EntryIn(data: seq<Byte>, f: File, entries: map<Term, Entry>, at: nat, term: Term)
    requires Shaped(f) && data == FileBytes(f) && entries == Entries(f.terms, f.lists) && at == PostingsAt(f)
    requires term in entries
    ensures At(data, at + entries[term].off, ListBytes(ListFor(f.lists, term), 0))
  {
    TailStands(data, f);
    EntriesLead(data, at, f.terms, f.lists, term);
  }

  lemma EntryReads(index: Index, term: Term, e: Entry, plist: seq<Posting>)
    requires term in index.terms && index.terms[term] == e && e == EntryOf(plist, e.off) && Rising(plist)
    requires At(index.data, index.offPostings + e.off, ListBytes(plist, 0))
    ensures PostingsIn(index, term) == Some(plist)
  {
    ListReads(index.data, index.offPostings + e.off, plist);
  }

  lemma KnownReads(f: File, index: Index, term: Term, e: Entry, plist: seq<Posting>)
    requires Shaped(f) && Maps(index, f) && term in index.terms && plist == ListFor(f.lists, term) && Rising(plist)
    requires e == index.terms[term] && e == EntryOf(plist, e.off)
    ensures PostingsIn(index, term) == Some(plist)
  {
    EntryStands(f, index, term);
    EntryReads(index, term, e, plist);
  }

  /** Each list reads back exactly; a term that is not in the dictionary has none. */
  lemma PostingsRoundTrip(f: File, index: Index, term: Term)
    requires Shaped(f) && Maps(index, f) && (term in f.terms ==> Rising(ListFor(f.lists, term)))
    ensures PostingsIn(index, term) == Some(if term in f.terms then ListFor(f.lists, term) else [])
  {
    DictionaryExact(f, index, term);
    if term in f.terms {
      KnownReads(f, index, term, index.terms[term], ListFor(f.lists, term));
    }
  }

  lemma ListReads(data: seq<Byte>, pos: nat, plist: seq<Posting>)
    requires Rising(plist) && At(data, pos, ListBytes(plist, 0))
    ensures ListFrom(Slice(data, pos, |ListBytes(plist, 0)|), 0, |plist|, 0) == Some(plist)
  {
    SliceAt(data, pos, ListBytes(plist, 0));
    var view := Slice(data, pos, |ListBytes(plist, 0)|);
    assert view == ListBytes(plist, 0) && At(view, 0, view);
    ListRoundTrip(view, 0, plist, 0);
  }

  // ------------------------------------------------------------- the first bytes

  /** Numbers are written with the lowest byte first. */
  lemma LittleIs(value: nat)
    requires value < 0x1_0000
    ensures Little(value, 4) == [value % 256, value / 256, 0, 0]
  {
    var high := value / 256;
    assert Little(high, 3) == [high] + Little(0, 2);
    assert Little(0, 2) == [0] + Little(0, 1) && Little(0, 1) == [0] + Little(0, 0);
  }

  /** Every file starts with "CDLXIDX1" and the version, 1, in four bytes. */
  lemma FileStarts(f: File)
    requires Shaped(f)
    ensures |FileBytes(f)| >= 60
    ensures FileBytes(f)[..12] == [67, 68, 76, 88, 73, 68, 88, 49, 1, 0, 0, 0]
  {
    LittleIs(1);
    FirstTwelve(f, [1, 0, 0, 0]);
  }

  lemma FirstTwelve(f: File, version: seq<Byte>)
    requires Shaped(f) && version == Little(FORMAT_VERSION, 4)
    ensures |FileBytes(f)| >= 60 && FileBytes(f)[..12] == MAGIC + version
  {
    HeadAndTail(f);
    assert FileBytes(f)[..12] == Head(f)[..12];
    assert CountBytes(f)[..4] == version;
  }

  // ------------------------------------------------------------- one file, byte for byte

  function Four(low: Byte): seq<Byte> {
    [low, 0, 0, 0]
  }

  function Eight(low: Byte, high: Byte): seq<Byte> {
    [low, high, 0, 0, 0, 0, 0, 0]
  }

  /** Document 7 is "a a", document 300 is "b a". */
  function TwoDocumentFile(avg: seq<Byte>): File {
    File([7, 300], [2, 2], avg, [[97], [98]], map[[97] := [Posting(0, 2), Posting(1, 1)], [98] := [Posting(1, 1)]])
  }

  lemma FewBytes(low: Byte, high: Byte)
    ensures Little(low, 4) == Four(low)
    ensures Little(low + 256 * high, 8) == Eight(low, high)
  {
    LittleIs(low);
    EightBytes(low, high);
  }

  lemma LittleStep(low: Byte, rest: nat, n: nat)
    ensures Little(low + 256 * rest, n + 1) == [low] + Little(rest, n)
  {
  }

  lemma EightBytes(low: Byte, high: Byte)
    ensures Little(low + 256 * high, 8) == Eight(low, high)
  {
    LittleStep(low, high, 7);
    LittleStep(high, 0, 6);
    LittleZero(6);
    TwoThenZeros(low, high, Little(0, 6));
  }

  lemma TwoThenZeros(low: Byte, high: Byte, zeros: seq<Byte>)
    requires zeros == seq(6, _ => 0)
    ensures [low] + ([high] + zeros) == Eight(low, high)
  {
  }

  lemma LittleZero(n: nat)
    ensures Little(0, n) == seq(n, _ => 0)
  {
    if n > 0 {
      LittleZero(n - 1);
    }
  }

  lemma TwoDocumentLists()
    ensures var lists := TwoDocumentFile([]).lists;
            ListBytes(lists[[97]], 0) == [0, 2, 1, 1] && ListBytes(lists[[98]], 0) == [1, 1]
  {
    var lists := TwoDocumentFile([]).lists;
    var a, b := lists[[97]], lists[[98]];
    assert a[1..] == [Posting(1, 1)] && b[1..] == [] && a[1..][1..] == [];
    assert ListBytes(a[1..], 0) == [1, 1] + ListBytes([], 1);
    assert ListBytes(a, 0) == [0, 2] + [1, 1];
  }

  /** The dictionary of two terms and their two lists, one after the other. */
  lemma TwoEntries(a: Term, b: Term, lists: Postings)
    ensures var la, lb := ListFor(lists, a), ListFor(lists, b);
            && Blob([a, b], lists) == ListBytes(la, 0) + ListBytes(lb, 0)
            && Dictionary([a, b], lists) ==
                 EntryBytes(a, EntryOf(la, 0)) + EntryBytes(b, EntryOf(lb, |ListBytes(la, 0)|))
  {
    assert [a, b][..1] == [a];
    OneEntry(a, lists);
    assert LastEntry([a, b], lists) == EntryOf(ListFor(lists, b), |Blob([a], lists)|);
  }

  lemma OneEntry(a: Term, lists: Postings)
    ensures Blob([a], lists) == ListBytes(ListFor(lists, a), 0)
    ensures Dictionary([a], lists) == EntryBytes(a, EntryOf(ListFor(lists, a), 0))
  {
    assert [a][..0] == [] && Blob([], lists) == [] && Dictionary([], lists) == [];
    assert LastEntry([a], lists) == EntryOf(ListFor(lists, a), 0);
  }

  lemma OneByte(value: nat, low: Byte)
    requires value == low
    ensures Little(value, 8) == Eight(low, 0)
  {
    EightBytes(low, 0);
  }

  lemma OffsetsAre(f: File, at: seq<Byte>, a: seq<Byte>, b: seq<Byte>, c: seq<Byte>)
    requires Little(HEADER_SIZE, 8) == at && Little(DocLensAt(f), 8) == a
    requires Little(TermsAt(f), 8) == b && Little(PostingsAt(f), 8) == c
    ensures OffsetBytes(f) == at + (a + (b + c))
  {
  }

  lemma SmallOffsets(f: File, at: Byte, a: Byte, b: Byte, c: Byte)
    requires at == HEADER_SIZE && DocLensAt(f) == a && TermsAt(f) == b && PostingsAt(f) == c
    ensures OffsetBytes(f) == Eight(at, 0) + (Eight(a, 0) + (Eight(b, 0) + Eight(c, 0)))
  {
    OneByte(HEADER_SIZE, at);
    OneByte(DocLensAt(f), a);
    OneByte(TermsAt(f), b);
    OneByte(PostingsAt(f), c);
    OffsetsAre(f, Eight(at, 0), Eight(a, 0), Eight(b, 0), Eight(c, 0));
  }

  lemma SmallCounts(f: File, docs: Byte, terms: Byte)
    requires |f.ids| == docs && |f.terms| == terms
    ensures CountBytes(f) == Four(1) + (Four(docs) + Four(terms))
  {
    FewBytes(1, 0);
    FewBytes(docs, 0);
    FewBytes(terms, 0);
  }

  lemma TwoNumbers(a: nat, b: nat, n: nat)
    ensures Littles([a, b], n) == Little(a, n) + Little(b, n)
  {
    assert [a, b][..1] == [a] && [a][..0] == [];
    assert Littles([a], n) == Littles([], n) + Little(a, n);
  }

  lemma TwoDocumentPacks(avg: seq<Byte>)
    requires |avg| == 8
    ensures var f := TwoDocumentFile(avg);
            && DocLensAt(f) == 76 && TermsAt(f) == 84 && PostingsAt(f) == 94 && Packs(f)
            && Dictionary(f.terms, f.lists) == [1, 97, 2, 0, 4] + [1, 98, 1, 4, 2]
  {
    var f := TwoDocumentFile(avg);
    TwoDocumentLists();
    TwoEntries([97], [98], f.lists);
    assert EntryBytes([97], Entry(2, 0, 4)) == [1, 97, 2, 0, 4] && EntryBytes([98], Entry(1, 4, 2)) == [1, 98, 1, 4, 2];
  }

  /** The whole file: header, ids, lengths, dictionary, postings. */
  lemma TwoDocumentBytes(avg: seq<Byte>)
    requires |avg| == 8
    ensures FileBytes(TwoDocumentFile(avg)) ==
              ([67, 68, 76, 88, 73, 68, 88, 49]
               + ((Four(1) + (Four(2) + Four(2)))
                  + (avg + (Eight(60, 0) + (Eight(76, 0) + (Eight(84, 0) + Eight(94, 0)))))))
              + ((Eight(7, 0) + Eight(44, 1))
                 + ((Four(2) + Four(2))
                    + (([1, 97, 2, 0, 4] + [1, 98, 1, 4, 2])
                       + ([0, 2, 1, 1] + [1, 1]))))
  {
    var f := TwoDocumentFile(avg);
    TwoDocumentLists();
    TwoEntries([97], [98], f.lists);
    TwoDocumentPacks(avg);
    SmallOffsets(f, 60, 76, 84, 94);
    SmallCounts(f, 2, 2);
    TwoNumbers(7, 300, 8);
    TwoNumbers(2, 2, 4);
    FewBytes(7, 0);
    FewBytes(44, 1);
    FewBytes(2, 0);
  }
}
