/** The ingestion step of src/ingest.py: the title of a Markdown document, and the three parallel
    lists (ids, chunk texts, metadata) that main builds from the loaded documents. */
module Ingest {
  import opened Text
  import opened Results
  import opened Records
  import Chunker
  import Config

  // ---------------------------------------------------------------------------------------------
  // extract_title: re.search(r"^#\s+(.+)$", text, re.MULTILINE), group 1 stripped, or "Untitled".

  /** `^` in MULTILINE mode: the start of the text or just after a newline. */
  predicate AtLineStart(text: string, p: nat) {
    p == 0 || (p <= |text| && text[p - 1] == '\n')
  }

  /** The pattern matches at position p with group 1 starting at q: a '#' at the start of a line,
      the whitespace characters text[p+1..q] (at least one, newlines included, as `\s` allows),
      and group 1 `.+` starting at a character that is not a newline. `.+` then runs to the end
      of that line, where `$` matches. */
  ghost predicate IsMatch(text: string, p: nat, q: nat) {
    p + 2 <= q < |text| && AtLineStart(text, p) && text[p] == '#'
    && (forall j :: p < j < q ==> IsSpace(text[j]))
    && text[q] != '\n'
  }

  /** The match re.search reports: the leftmost position with a match and, since `\s+` is greedy
      and only gives characters back when `.+` needs them, the largest group start there. */
  ghost predicate FirstMatch(text: string, p: nat, q: nat) {
    IsMatch(text, p, q)
    && (forall p': nat, q': nat :: p' < p ==> !IsMatch(text, p', q'))
    && (forall q': nat :: IsMatch(text, p, q') ==> q' <= q)
  }

  /** The end of the line holding position q: the first newline at or after q, or the end of the text. */
  function LineEnd(text: string, q: nat): (e: nat)
    requires q <= |text|
    ensures q <= e <= |text|
    ensures forall j :: q <= j < e ==> text[j] != '\n'
    ensures e < |text| ==> text[e] == '\n'
    decreases |text| - q
  {
    if q == |text| || text[q] == '\n' then q else LineEnd(text, q + 1)
  }

  /** Group 1 of a match whose group starts at q: `.+` taken greedily to the end of the line. */
  function Group(text: string, q: nat): (g: string)
    requires q <= |text|
    ensures '\n' !in g
  {
    var g := text[q..LineEnd(text, q)];
    assert forall k :: 0 <= k < |g| ==> g[k] == text[q + k];
    g
  }

  /** The end of the longest run of whitespace starting at i. */
  function SpaceRunEnd(text: string, i: nat): (r: nat)
    requires i <= |text|
    ensures i <= r <= |text|
    ensures forall j :: i <= j < r ==> IsSpace(text[j])
    ensures r < |text| ==> !IsSpace(text[r])
    decreases |text| - i
  {
    if i == |text| || !IsSpace(text[i]) then i else SpaceRunEnd(text, i + 1)
  }

  /** The highest index in [lo, hi) whose character is not a newline, or -1. */
  function LastNonNewline(text: string, lo: nat, hi: nat): (q: int)
    requires lo <= hi <= |text|
    ensures q == -1 || (lo <= q < hi && text[q] != '\n')
    ensures q == -1 ==> forall j :: lo <= j < hi ==> text[j] == '\n'
    ensures q != -1 ==> forall j :: q < j < hi ==> text[j] == '\n'
    decreases hi - lo
  {
    if hi == lo then -1
    else if text[hi - 1] != '\n' then hi - 1
    else LastNonNewline(text, lo, hi - 1)
  }

  /** The regex tried at position p: after the '#', `\s+` takes the whole whitespace run, then
      gives characters back until `.+` can start on a non-newline character. The result is
      the largest group start, or None when the pattern does not match at p. */
  function MatchAt(text: string, p: nat): (m: Option<nat>)
    ensures m.Some? ==> IsMatch(text, p, m.value) && forall q: nat :: IsMatch(text, p, q) ==> q <= m.value
    ensures m.None? ==> forall q: nat :: !IsMatch(text, p, q)
  {
    if p + 2 <= |text| && AtLineStart(text, p) && text[p] == '#' then
      var r := SpaceRunEnd(text, p + 1);
      if r < p + 2 then None
      else
        var hi := if r < |text| then r + 1 else |text|;
        var q := LastNonNewline(text, p + 2, hi);
        if q == -1 then None else Some(q)
    else None
  }

  /** re.search from position p on: the first position with a match, and its group start. */
  function Search(text: string, p: nat): (m: Option<(nat, nat)>)
    ensures m.Some? ==>
      (p <= m.value.0 && IsMatch(text, m.value.0, m.value.1)
       && (forall q: nat :: IsMatch(text, m.value.0, q) ==> q <= m.value.1)
       && (forall p': nat, q: nat :: p <= p' < m.value.0 ==> !IsMatch(text, p', q)))
    ensures m.None? ==> forall p': nat, q: nat :: p <= p' ==> !IsMatch(text, p', q)
    decreases |text| - p
  {
    if p >= |text| then None
    else
      match MatchAt(text, p)
      case Some(q) => Some((p, q))
      case None => Search(text, p + 1)
  }

  /** extract_title (src/ingest.py:18-20): the stripped group 1 of the first heading match, or
      "Untitled" when the pattern matches nowhere. The title never spans a line break. */
  function ExtractTitle(text: string): (t: string)
    ensures (forall p: nat, q: nat :: !IsMatch(text, p, q)) ==> t == "Untitled"
    ensures forall p: nat, q: nat :: FirstMatch(text, p, q) ==> t == Strip(Group(text, q))
    ensures (exists p: nat, q: nat :: IsMatch(text, p, q)) ==> exists p: nat, q: nat :: FirstMatch(text, p, q)
    ensures '\n' !in t
  {
    match Search(text, 0)
    case None => "Untitled"
    case Some((p, q)) =>
      assert FirstMatch(text, p, q);
      FirstMatchUnique(text, p, q);
      StripKeeps(Group(text, q), '\n');
      Strip(Group(text, q))
  }

  /** There is only one first match. */
  lemma FirstMatchUnique(text: string, p: nat, q: nat)
    requires FirstMatch(text, p, q)
    ensures forall p': nat, q': nat :: FirstMatch(text, p', q') ==> p' == p && q' == q
  {
  }

  /** Strip does not bring in characters that were not there. */
  lemma StripKeeps(s: string, c: char)
    requires c !in s
    ensures c !in Strip(s)
  {
    StripLayout(s);
    var r := Strip(s);
    var a := LeadingSpaces(s);
    assert forall k :: 0 <= k < |r| ==> r[k] == s[a + k];
  }

  /** "# Alpha\nbody" is titled "Alpha": group 1 stops at the end of the heading line. */
  lemma TitleOfHeading()
    ensures ExtractTitle("# Alpha\nbody") == "Alpha"
  {
    assert !IsSpace('A') && !IsSpace('a');
    StripTrimmed("Alpha");
    var text := "# Alpha\nbody";
    assert MatchAt(text, 0) == Some(2);
    assert LineEnd(text, 2) == 7;
    assert Group(text, 2) == "Alpha";
  }

  /** A '#' must be followed by whitespace: "## X" and "#X" have no title. */
  lemma UntitledWithoutSpace()
    ensures ExtractTitle("## X") == "Untitled"
    ensures ExtractTitle("#X") == "Untitled"
  {
    assert MatchAt("## X", 0).None?;
    assert MatchAt("#X", 0).None?;
  }

  /** `\s+` may cross line breaks: "#\n\nfoo" is titled "foo". */
  lemma TitleAcrossLines()
    ensures ExtractTitle("#\n\nfoo") == "foo"
  {
    var text := "#\n\nfoo";
    assert SpaceRunEnd(text, 1) == 3;
    assert MatchAt(text, 0) == Some(3);
    assert Group(text, 3) == "foo";
    StripTrimmed("foo");
  }

  // ---------------------------------------------------------------------------------------------
  // The entry-building loop of main (src/ingest.py:59-72).

  /** A loaded document, as load_documents builds it; title is extract_title of the content. */
  datatype Document = Document(filename: string, title: string, path: string, content: string)

  /** The three parallel lists main hands to collection.add. */
  datatype Entries = Entries(ids: seq<string>, documents: seq<string>, metadatas: seq<Metadata>)

  /** The id of chunk i of a file: f"{filename}_{i}". */
  function IdOf(filename: string, i: nat): string {
    filename + "_" + Decimal(i)
  }

  /** In an id, the '_' after the filename is the last one. */
  lemma LastUnderscore(f: string, i: nat)
    ensures IdOf(f, i)[|f|] == '_'
    ensures forall k :: |f| < k < |IdOf(f, i)| ==> IdOf(f, i)[k] != '_'
  {
    var d := Decimal(i);
    assert forall k :: |f| < k < |IdOf(f, i)| ==> IdOf(f, i)[k] == d[k - |f| - 1];
  }

  /** Distinct (file, chunk) pairs get distinct ids: the text after the last '_' is the chunk
      number, since decimal digits contain no '_'. */
  lemma IdInjective(f: string, i: nat, g: string, j: nat)
    requires IdOf(f, i) == IdOf(g, j)
    ensures f == g && i == j
  {
    var s := IdOf(f, i);
    LastUnderscore(f, i);
    LastUnderscore(g, j);
    assert |f| == |g|;
    assert f == s[..|f|] && g == s[..|g|];
    assert Decimal(i) == s[|f| + 1..] && Decimal(j) == s[|g| + 1..];
    DecimalInjective(i, j);
  }

  /** The lists are parallel, and each entry's id is the id of the file and chunk index its
      metadata names. */
  ghost predicate Consistent(e: Entries) {
    |e.ids| == |e.documents| == |e.metadatas|
    && forall j :: 0 <= j < |e.ids| ==> e.ids[j] == IdOf(e.metadatas[j].source, e.metadatas[j].chunkIndex)
  }

  function Concat(a: Entries, b: Entries): Entries {
    Entries(a.ids + b.ids, a.documents + b.documents, a.metadatas + b.metadatas)
  }

  /** The entries the inner loop appends for one document's chunks. */
  function DocEntries(d: Document, chunks: seq<string>): (e: Entries)
    ensures |e.ids| == |e.documents| == |e.metadatas| == |chunks|
    ensures forall i :: 0 <= i < |chunks| ==>
      e.ids[i] == IdOf(d.filename, i) && e.documents[i] == chunks[i] && e.metadatas[i] == Metadata(d.filename, d.title, i)
  {
    Entries(seq(|chunks|, i requires 0 <= i => IdOf(d.filename, i)), chunks, seq(|chunks|, i requires 0 <= i => Metadata(d.filename, d.title, i)))
  }

  /** What chunk_text(content, chunkSize, overlap) gives for each document. */
  function Chunkings(docs: seq<Document>, chunkSize: int, overlap: int): (rs: seq<Chunker.ChunkResult>)
    requires chunkSize > 0
    ensures |rs| == |docs|
  {
    seq(|docs|, k requires 0 <= k < |docs| => Chunker.Chunk(docs[k].content, chunkSize, overlap))
  }

  /** The entries main builds from docs, given what chunk_text gives for each of them: Err(k)
      when the chunking of document k, the first such document, is Stuck (its cursor would
      not move forward, see Chunker.ChunkResult). */
  function EntriesOf(docs: seq<Document>, chunked: seq<Chunker.ChunkResult>): (r: Result<Entries, nat>)
    requires |chunked| == |docs|
    decreases |docs|
  {
    if docs == [] then Ok(Entries([], [], []))
    else
      var n := |docs| - 1;
      match EntriesOf(docs[..n], chunked[..n])
      case Err(j) => Err(j)
      case Ok(e) =>
        if chunked[n].Stuck? then Err(n)
        else
          Ok(Concat(e, DocEntries(docs[n], chunked[n].chunks)))
  }

  /** The loop in main over the documents and their chunks (src/ingest.py:59-72), with the
      configured CHUNK_SIZE and CHUNK_OVERLAP; it stops with Err(k) at the first document k
      whose chunking is Stuck. */
  method BuildEntries(docs: seq<Document>) returns (r: Result<Entries, nat>)
    ensures r == EntriesOf(docs, Chunkings(docs, Config.CHUNK_SIZE, Config.CHUNK_OVERLAP))
  {
    ghost var chunked := Chunkings(docs, Config.CHUNK_SIZE, Config.CHUNK_OVERLAP);
    var allIds: seq<string> := [];
    var allDocuments: seq<string> := [];
    var allMetadatas: seq<Metadata> := [];
    var k := 0;
    while k < |docs|
      invariant k <= |docs|
      invariant EntriesOf(docs[..k], chunked[..k]) == Ok(Entries(allIds, allDocuments, allMetadatas))
    {
      var doc := docs[k];
      var result := Chunker.ChunkText(doc.content, Config.CHUNK_SIZE, Config.CHUNK_OVERLAP);
      assert result == chunked[k];
      EntriesOfExtend(docs, chunked, k, Entries(allIds, allDocuments, allMetadatas));
      if result.Stuck? {
        ErrorStops(docs, chunked, k + 1);
        return Err(k);
      }
      allIds, allDocuments, allMetadatas := AddChunks(allIds, allDocuments, allMetadatas, doc, result.chunks);
      k := k + 1;
    }
    assert docs[..k] == docs && chunked[..k] == chunked;
    r := Ok(Entries(allIds, allDocuments, allMetadatas));
  }

  /** The inner loop of main over one document's chunks (src/ingest.py:65-72): it appends to
      the three lists the entries of those chunks, in chunk order. */
  method AddChunks(ids: seq<string>, documents: seq<string>, metadatas: seq<Metadata>, doc: Document, chunks: seq<string>)
    returns (ids': seq<string>, documents': seq<string>, metadatas': seq<Metadata>)
    ensures Entries(ids', documents', metadatas') == Concat(Entries(ids, documents, metadatas), DocEntries(doc, chunks))
  {
    ids', documents', metadatas' := ids, documents, metadatas;
    var i := 0;
    while i < |chunks|
      invariant i <= |chunks|
      invariant Entries(ids', documents', metadatas') == Concat(Entries(ids, documents, metadatas), DocEntries(doc, chunks[..i]))
    {
      DocEntriesExtend(doc, chunks, i);
      ConcatAssoc(Entries(ids, documents, metadatas), DocEntries(doc, chunks[..i]),
        Entries([IdOf(doc.filename, i)], [chunks[i]], [Metadata(doc.filename, doc.title, i)]));
      ids' := ids' + [IdOf(doc.filename, i)];
      documents' := documents' + [chunks[i]];
      metadatas' := metadatas' + [Metadata(doc.filename, doc.title, i)];
      i := i + 1;
    }
    assert chunks[..i] == chunks;
  }

  /** One more document: what EntriesOf gives for the first k + 1 documents. */
  lemma EntriesOfExtend(docs: seq<Document>, chunked: seq<Chunker.ChunkResult>, k: nat, e: Entries)
    requires |chunked| == |docs| && k < |docs| && EntriesOf(docs[..k], chunked[..k]) == Ok(e)
    ensures chunked[k].Stuck? ==> EntriesOf(docs[..k + 1], chunked[..k + 1]) == Err(k)
    ensures chunked[k].Done? ==> EntriesOf(docs[..k + 1], chunked[..k + 1]) == Ok(Concat(e, DocEntries(docs[k], chunked[k].chunks)))
  {
    assert docs[..k + 1][..k] == docs[..k];
    assert chunked[..k + 1][..k] == chunked[..k];
  }

  /** One more chunk: what DocEntries gives for the first i + 1 chunks. */
  lemma DocEntriesExtend(d: Document, chunks: seq<string>, i: nat)
    requires i < |chunks|
    ensures DocEntries(d, chunks[..i + 1])
      == Concat(DocEntries(d, chunks[..i]), Entries([IdOf(d.filename, i)], [chunks[i]], [Metadata(d.filename, d.title, i)]))
  {
    assert chunks[..i + 1][..i] == chunks[..i];
  }

  lemma ConcatAssoc(a: Entries, b: Entries, c: Entries)
    ensures Concat(Concat(a, b), c) == Concat(a, Concat(b, c))
  {
    assert (a.ids + b.ids) + c.ids == a.ids + (b.ids + c.ids);
    assert (a.documents + b.documents) + c.documents == a.documents + (b.documents + c.documents);
    assert (a.metadatas + b.metadatas) + c.metadatas == a.metadatas + (b.metadatas + c.metadatas);
  }

  /** Once the chunking of a document is Stuck, later documents do not change the outcome. */
  lemma {:induction false} ErrorStops(docs: seq<Document>, chunked: seq<Chunker.ChunkResult>, n: nat)
    requires |chunked| == |docs| && n <= |docs| && EntriesOf(docs[..n], chunked[..n]).Err?
    ensures EntriesOf(docs, chunked) == EntriesOf(docs[..n], chunked[..n])
    decreases |docs|
  {
    if n == |docs| {
      assert docs[..n] == docs && chunked[..n] == chunked;
    } else {
      var m := |docs| - 1;
      assert docs[..m][..n] == docs[..n] && chunked[..m][..n] == chunked[..n];
      ErrorStops(docs[..m], chunked[..m], n);
    }
  }

  // ---------------------------------------------------------------------------------------------
  // What main's lists hold.

  /** The model's main gives Ok exactly when no document's chunking is Stuck; otherwise it
      reports the first document whose chunking is. */
  lemma {:induction false} EntriesOutcome(docs: seq<Document>, chunked: seq<Chunker.ChunkResult>)
    requires |chunked| == |docs|
    ensures EntriesOf(docs, chunked).Ok? <==> forall k :: 0 <= k < |docs| ==> chunked[k].Done?
    ensures EntriesOf(docs, chunked).Err? ==>
      var k := EntriesOf(docs, chunked).error;
      k < |docs| && chunked[k].Stuck? && forall j :: 0 <= j < k ==> chunked[j].Done?
    decreases |docs|
  {
    if docs != [] {
      var n := |docs| - 1;
      EntriesOutcome(docs[..n], chunked[..n]);
      assert forall j :: 0 <= j < n ==> chunked[..n][j] == chunked[j];
    }
  }

  /** Where the entries of document k start: the chunk counts of the documents before it. */
  function Offset(chunked: seq<Chunker.ChunkResult>, k: nat): nat
    requires k <= |chunked|
    decreases k
  {
    if k == 0 then 0 else Offset(chunked, k - 1) + |chunked[k - 1].chunks|
  }

  lemma {:induction false} OffsetPrefix(chunked: seq<Chunker.ChunkResult>, n: nat, k: nat)
    requires k <= n <= |chunked|
    ensures Offset(chunked[..n], k) == Offset(chunked, k)
    decreases k
  {
    if k > 0 {
      OffsetPrefix(chunked, n, k - 1);
      assert chunked[..n][k - 1] == chunked[k - 1];
    }
  }

  /** The three lists are parallel and each id is the one its metadata names (src/ingest.py:66-72). */
  lemma {:induction false} EntriesConsistent(docs: seq<Document>, chunked: seq<Chunker.ChunkResult>)
    requires |chunked| == |docs| && EntriesOf(docs, chunked).Ok?
    ensures Consistent(EntriesOf(docs, chunked).value)
    decreases |docs|
  {
    if docs != [] {
      var n := |docs| - 1;
      EntriesConsistent(docs[..n], chunked[..n]);
      var e := EntriesOf(docs[..n], chunked[..n]).value;
      var d := DocEntries(docs[n], chunked[n].chunks);
      var e' := Concat(e, d);
      assert EntriesOf(docs, chunked).value == e';
      forall j | 0 <= j < |e'.ids|
        ensures e'.ids[j] == IdOf(e'.metadatas[j].source, e'.metadatas[j].chunkIndex)
      {
        if j < |e.ids| {
          assert e'.ids[j] == e.ids[j] && e'.metadatas[j] == e.metadatas[j];
        } else {
          assert e'.ids[j] == d.ids[j - |e.ids|] && e'.metadatas[j] == d.metadatas[j - |e.ids|];
        }
      }
    }
  }

  /** The three lists have one entry per chunk of every document. */
  lemma {:induction false} EntriesCount(docs: seq<Document>, chunked: seq<Chunker.ChunkResult>)
    requires |chunked| == |docs| && EntriesOf(docs, chunked).Ok?
    ensures var e := EntriesOf(docs, chunked).value;
      |e.ids| == |e.documents| == |e.metadatas| == Offset(chunked, |docs|)
    decreases |docs|
  {
    if docs != [] {
      var n := |docs| - 1;
      EntriesCount(docs[..n], chunked[..n]);
      OffsetPrefix(chunked, n, n);
    }
  }

  /** The three lists are laid out document by document, then chunk by chunk: chunk i of document
      k sits at Offset(k) + i, with id f"{filename}_{i}", its chunk text, and metadata naming the
      file, its title and i (src/ingest.py:63-72). */
  lemma {:induction false} EntriesLayout(docs: seq<Document>, chunked: seq<Chunker.ChunkResult>, k: nat, i: nat)
    requires |chunked| == |docs| && EntriesOf(docs, chunked).Ok?
    requires k < |docs| && i < |chunked[k].chunks|
    ensures var e := EntriesOf(docs, chunked).value;
      var j := Offset(chunked, k) + i;
      j < |e.ids| && |e.ids| == |e.documents| == |e.metadatas|
      && EntryAt(e, j) == (IdOf(docs[k].filename, i), chunked[k].chunks[i], Metadata(docs[k].filename, docs[k].title, i))
    decreases |docs|
  {
    var n := |docs| - 1;
    EntriesCount(docs, chunked);
    if k < n {
      EntriesLayout(docs[..n], chunked[..n], k, i);
      OffsetPrefix(chunked, n, k);
      assert docs[..n][k] == docs[k] && chunked[..n][k] == chunked[k];
      EarlierEntry(docs, chunked, Offset(chunked, k) + i);
    } else {
      LastEntry(docs, chunked, i);
    }
  }

  /** The entries of the documents before the last one are not moved by it. */
  lemma EarlierEntry(docs: seq<Document>, chunked: seq<Chunker.ChunkResult>, j: nat)
    requires |chunked| == |docs| && docs != [] && EntriesOf(docs, chunked).Ok?
    requires j < |EntriesOf(docs[..|docs| - 1], chunked[..|docs| - 1]).value.ids|
    ensures var e0 := EntriesOf(docs[..|docs| - 1], chunked[..|docs| - 1]).value;
      var e := EntriesOf(docs, chunked).value;
      j < |e0.ids| == |e0.documents| == |e0.metadatas| && j < |e.ids| == |e.documents| == |e.metadatas|
      && EntryAt(e, j) == EntryAt(e0, j)
  {
    var n := |docs| - 1;
    EntriesCount(docs[..n], chunked[..n]);
    EntriesCount(docs, chunked);
    var e0 := EntriesOf(docs[..n], chunked[..n]).value;
    ConcatLeft(e0, DocEntries(docs[n], chunked[n].chunks), j);
  }

  /** The last document's entries follow those of the documents before it. */
  lemma LastEntry(docs: seq<Document>, chunked: seq<Chunker.ChunkResult>, i: nat)
    requires |chunked| == |docs| && docs != [] && EntriesOf(docs, chunked).Ok?
    requires i < |chunked[|docs| - 1].chunks|
    ensures var e := EntriesOf(docs, chunked).value;
      var n := |docs| - 1;
      var j := Offset(chunked, n) + i;
      j < |e.ids| && j < |e.documents| && j < |e.metadatas|
      && EntryAt(e, j) == (IdOf(docs[n].filename, i), chunked[n].chunks[i], Metadata(docs[n].filename, docs[n].title, i))
  {
    var n := |docs| - 1;
    EntriesCount(docs[..n], chunked[..n]);
    OffsetPrefix(chunked, n, n);
    var e0 := EntriesOf(docs[..n], chunked[..n]).value;
    ConcatRight(e0, DocEntries(docs[n], chunked[n].chunks), i);
  }

  /** Entry j of the three lists, as a triple. */
  function EntryAt(e: Entries, j: nat): (string, string, Metadata)
    requires j < |e.ids| && j < |e.documents| && j < |e.metadatas|
  {
    (e.ids[j], e.documents[j], e.metadatas[j])
  }

  lemma ConcatLeft(a: Entries, b: Entries, j: nat)
    requires j < |a.ids| && j < |a.documents| && j < |a.metadatas|
    ensures EntryAt(Concat(a, b), j) == EntryAt(a, j)
  {
  }

  lemma ConcatRight(a: Entries, b: Entries, i: nat)
    requires |a.ids| == |a.documents| == |a.metadatas|
    requires i < |b.ids| && i < |b.documents| && i < |b.metadatas|
    ensures EntryAt(Concat(a, b), |a.ids| + i) == EntryAt(b, i)
  {
  }

  ghost predicate DistinctFilenames(docs: seq<Document>) {
    forall j1, j2 :: 0 <= j1 < j2 < |docs| ==> docs[j1].filename != docs[j2].filename
  }

  /** Every metadata entry names one of the documents as its source. */
  lemma {:induction false} SourcesAreFilenames(docs: seq<Document>, chunked: seq<Chunker.ChunkResult>)
    requires |chunked| == |docs| && EntriesOf(docs, chunked).Ok?
    ensures var md := EntriesOf(docs, chunked).value.metadatas;
      forall j :: 0 <= j < |md| ==> exists k :: 0 <= k < |docs| && md[j].source == docs[k].filename
    decreases |docs|
  {
    if docs != [] {
      var n := |docs| - 1;
      var init := docs[..n];
      SourcesAreFilenames(init, chunked[..n]);
      var md0 := EntriesOf(init, chunked[..n]).value.metadatas;
      var md := EntriesOf(docs, chunked).value.metadatas;
      forall j | 0 <= j < |md|
        ensures exists k :: 0 <= k < |docs| && md[j].source == docs[k].filename
      {
        if j < |md0| {
          var k :| 0 <= k < n && md0[j].source == init[k].filename;
          assert md[j] == md0[j] && init[k] == docs[k];
        } else {
          assert md[j].source == docs[n].filename;
        }
      }
    }
  }

  /** With distinct filenames, as files of one directory have, no two entries name the same
      file and chunk index. */
  lemma {:induction false} MetadataDistinct(docs: seq<Document>, chunked: seq<Chunker.ChunkResult>)
    requires |chunked| == |docs| && EntriesOf(docs, chunked).Ok? && DistinctFilenames(docs)
    ensures var md := EntriesOf(docs, chunked).value.metadatas;
      forall j1, j2 :: 0 <= j1 < j2 < |md| ==> md[j1].source != md[j2].source || md[j1].chunkIndex != md[j2].chunkIndex
    decreases |docs|
  {
    if docs != [] {
      var n := |docs| - 1;
      var init := docs[..n];
      assert DistinctFilenames(init);
      MetadataDistinct(init, chunked[..n]);
      SourcesAreFilenames(init, chunked[..n]);
      var md0 := EntriesOf(init, chunked[..n]).value.metadatas;
      var md := EntriesOf(docs, chunked).value.metadatas;
      forall j1, j2 | 0 <= j1 < j2 < |md|
        ensures md[j1].source != md[j2].source || md[j1].chunkIndex != md[j2].chunkIndex
      {
        if j2 < |md0| {
          assert md[j1] == md0[j1] && md[j2] == md0[j2];
        } else if j1 < |md0| {
          var k :| 0 <= k < n && md0[j1].source == init[k].filename;
          assert md[j1] == md0[j1] && init[k] == docs[k];
          assert md[j2].source == docs[n].filename;
        } else {
          assert md[j1].chunkIndex == j1 - |md0| && md[j2].chunkIndex == j2 - |md0|;
        }
      }
    }
  }

  /** With distinct filenames every id main builds is distinct, as collection.add requires. */
  lemma IdsDistinct(docs: seq<Document>, chunked: seq<Chunker.ChunkResult>)
    requires |chunked| == |docs| && EntriesOf(docs, chunked).Ok? && DistinctFilenames(docs)
    ensures var ids := EntriesOf(docs, chunked).value.ids;
      forall j1, j2 :: 0 <= j1 < j2 < |ids| ==> ids[j1] != ids[j2]
  {
    MetadataDistinct(docs, chunked);
    EntriesConsistent(docs, chunked);
    var e := EntriesOf(docs, chunked).value;
    forall j1, j2 | 0 <= j1 < j2 < |e.ids|
      ensures e.ids[j1] != e.ids[j2]
    {
      if e.ids[j1] == e.ids[j2] {
        IdInjective(e.metadatas[j1].source, e.metadatas[j1].chunkIndex, e.metadatas[j2].source, e.metadatas[j2].chunkIndex);
      }
    }
  }
}
