/**
 * The pure part of `ingest_pdf.py`: the page text normalisation of
 * `pdf_to_text`, `os.path.basename`, and the id and metadata lists built for
 * the single `col.add` call, composed with the chunker of module `Chunking`.
 *
 * The pages come in as what `extract_text()` returned for each page (`None`
 * when a page has no text); the clock that stamps each metadata map is a
 * parameter giving the ISO timestamp read for chunk `k`.
 */
module IngestPdf {
  import opened Wrappers
  import opened Strings
  import opened VectorRecords
  import opened Chunking

  // ---------------------------------------------------------------------------
  // pdf_to_text

  /** `" ".join(p.split())` for the text `p` of one page, `None` read as `""`:
      the page's words, in order, separated by single spaces. */
  function NormalizePage(page: Option<string>): (r: string)
    ensures SingleSpaced(r)
    ensures r == [] || (!IsSpace(r[0]) && !IsSpace(r[|r| - 1]))
    ensures Split(r) == Split(page.GetOr(""))
    ensures page == None ==> r == ""
  {
    var ws := Split(page.GetOr(""));
    SplitJoinWords(ws);
    JoinSingleSpaced(ws);
    Join(ws)
  }

  /** Normalising a normalised page changes nothing. */
  lemma NormalizeIdempotent(page: Option<string>)
    ensures NormalizePage(Some(NormalizePage(page))) == NormalizePage(page)
  {
    JoinSplitSingleSpaced(NormalizePage(page));
  }

  /** The strings normalisation leaves alone are exactly the single-spaced ones. */
  lemma NormalizeFixedPoint(s: string)
    ensures NormalizePage(Some(s)) == s <==> SingleSpaced(s)
  {
    if SingleSpaced(s) {
      JoinSplitSingleSpaced(s);
    }
  }

  /** `[p.extract_text() or "" for p in pdf.pages]`. */
  function PageTexts(pages: seq<Option<string>>): seq<string> {
    if pages == [] then [] else [pages[0].GetOr("")] + PageTexts(pages[1..])
  }

  /** The normalised text of every page, in page order. */
  function NormalizedPages(pages: seq<Option<string>>): seq<string> {
    if pages == [] then [] else [NormalizePage(pages[0])] + NormalizedPages(pages[1..])
  }

  lemma {:induction false} NormalizedPagesAt(pages: seq<Option<string>>)
    ensures |NormalizedPages(pages)| == |pages|
    ensures forall k :: 0 <= k < |pages| ==> NormalizedPages(pages)[k] == NormalizePage(pages[k])
    decreases |pages|
  {
    if pages != [] {
      NormalizedPagesAt(pages[1..]);
      var ns := NormalizedPages(pages);
      forall k | 0 < k < |pages| ensures ns[k] == NormalizePage(pages[k]) {
        assert ns[k] == NormalizedPages(pages[1..])[k - 1];
        assert pages[k] == pages[1..][k - 1];
      }
    }
  }

  /** `pdf_to_text`: the normalised pages joined with one space. Its words are
      the words of all pages, in page order. */
  function PdfToText(pages: seq<Option<string>>): (r: string)
    ensures Split(r) == SplitEach(PageTexts(pages))
  {
    SplitJoin(NormalizedPages(pages));
    SplitEachNormalized(pages);
    Join(NormalizedPages(pages))
  }

  lemma {:induction false} SplitEachNormalized(pages: seq<Option<string>>)
    ensures SplitEach(NormalizedPages(pages)) == SplitEach(PageTexts(pages))
    decreases |pages|
  {
    if pages != [] {
      SplitEachNormalized(pages[1..]);
      var ns, ts := NormalizedPages(pages), PageTexts(pages);
      assert ns[0] == NormalizePage(pages[0]) && ns[1..] == NormalizedPages(pages[1..]);
      assert ts[0] == pages[0].GetOr("") && ts[1..] == PageTexts(pages[1..]);
    }
  }

  /** When every page has at least one word, the document text is single-spaced
      throughout: no leading, trailing or repeated whitespace. */
  lemma PdfTextSingleSpaced(pages: seq<Option<string>>)
    requires forall k :: 0 <= k < |pages| ==> Split(pages[k].GetOr("")) != []
    ensures SingleSpaced(PdfToText(pages))
  {
    var ps := NormalizedPages(pages);
    NormalizedPagesAt(pages);
    forall k | 0 <= k < |ps| ensures ps[k] != [] && SingleSpaced(ps[k]) {
      assert Split(ps[k]) == Split(pages[k].GetOr(""));
    }
    JoinSingleSpaced(ps);
  }

  /** A page without text between two pages with text leaves two spaces in the
      document text, so the text is not single-spaced in general. */
  lemma EmptyPageDoubleSpace(a: string, b: string)
    requires IsWord(a) && IsWord(b)
    ensures PdfToText([Some(a), None, Some(b)]) == a + "  " + b
    ensures !SingleSpaced(PdfToText([Some(a), None, Some(b)]))
  {
    var pages := [Some(a), None, Some(b)];
    NormalizeWord(a);
    NormalizeWord(b);
    assert pages[1..] == [None, Some(b)] && pages[1..][1..] == [Some(b)];
    assert NormalizedPages([Some(b)]) == [b];
    assert NormalizedPages(pages[1..]) == ["", b];
    var ps := NormalizedPages(pages);
    assert ps == [a, "", b];
    assert ps[1..] == ["", b] && ps[1..][1..] == [b];
    var s := a + "  " + b;
    assert Join(ps) == s;
    assert s[|a|] == ' ' && s[|a| + 1] == ' ';
  }

  /** A document whose only page has no text is empty. */
  lemma EmptyOnlyPage()
    ensures PdfToText([None]) == ""
  {
    assert NormalizedPages([None]) == [""];
  }

  /** A page without text at the start leaves a leading space. */
  lemma EmptyFirstPageSpace(b: string)
    requires IsWord(b)
    ensures PdfToText([None, Some(b)]) == " " + b
  {
    NormalizeWord(b);
    NormalizedPair(None, Some(b));
    JoinPair("", b);
  }

  /** A page without text at the end leaves a trailing space. */
  lemma EmptyLastPageSpace(b: string)
    requires IsWord(b)
    ensures PdfToText([Some(b), None]) == b + " "
  {
    NormalizeWord(b);
    NormalizedPair(Some(b), None);
    JoinPair(b, "");
  }

  lemma NormalizedPair(p: Option<string>, q: Option<string>)
    ensures NormalizedPages([p, q]) == [NormalizePage(p), NormalizePage(q)]
  {
    var pages := [p, q];
    var last := pages[1..];
    assert last == [q] && last[1..] == [];
    assert NormalizedPages(last) == [NormalizePage(last[0])] + NormalizedPages(last[1..]);
    assert NormalizedPages(pages) == [NormalizePage(pages[0])] + NormalizedPages(last);
  }

  lemma JoinPair(x: string, y: string)
    ensures Join([x, y]) == x + " " + y
  {
    assert [x, y][1..] == [y];
  }

  /** A single word is already normalised. */
  lemma NormalizeWord(w: string)
    requires IsWord(w)
    ensures NormalizePage(Some(w)) == w
  {
    SplitWord(w);
  }

  // ---------------------------------------------------------------------------
  // Chunk ids and metadata

  /** POSIX `os.path.basename`: everything after the last '/'. */
  function Basename(path: string): (r: string)
    ensures '/' !in r
    ensures |r| <= |path| && r == path[|path| - |r|..]
    ensures |r| < |path| ==> path[|path| - |r| - 1] == '/'
  {
    if path == [] || path[|path| - 1] == '/' then []
    else
      var r := Basename(path[..|path| - 1]);
      assert path[..|path| - 1][|path| - 1 - |r|..] == path[|path| - 1 - |r|..|path| - 1];
      r + [path[|path| - 1]]
  }

  /** The id of chunk `i` of a PDF with basename `base`: `f"{base}_chunk_{i}"`. */
  function ChunkId(base: string, i: nat): string {
    base + "_chunk_" + Decimal(i)
  }

  /** The ids of `count` chunks of the PDF at `pdf`, in chunk order. */
  function ChunkIds(pdf: string, count: nat): (ids: seq<string>)
    ensures |ids| == count
    ensures forall i :: 0 <= i < count ==> ids[i] == ChunkId(Basename(pdf), i)
  {
    seq(count, i requires 0 <= i < count => ChunkId(Basename(pdf), i))
  }

  /** Two chunk ids are equal exactly when both the basename and the chunk
      number are: the decimal suffix is the longest run of digits at the end,
      because it follows the character '_'. */
  lemma ChunkIdInjective(b1: string, i: nat, b2: string, j: nat)
    ensures ChunkId(b1, i) == ChunkId(b2, j) <==> b1 == b2 && i == j
  {
    var s1, s2 := ChunkId(b1, i), ChunkId(b2, j);
    var d1, d2 := Decimal(i), Decimal(j);
    if s1 == s2 {
      var p1, p2 := |s1| - |d1| - 1, |s2| - |d2| - 1;
      assert s1[p1] == '_' && s2[p2] == '_' && !IsDigit('_');
      assert forall q :: p1 < q < |s1| ==> s1[q] == d1[q - p1 - 1];
      assert forall q :: p2 < q < |s2| ==> s2[q] == d2[q - p2 - 1];
      assert p1 == p2;
      assert d1 == s1[|s1| - |d1|..] == s2[|s2| - |d2|..] == d2;
      DecimalInjective(i, j);
      assert b1 == s1[..|b1|] == s2[..|b2|] == b2;
    }
  }

  /** The chunk ids of one run are pairwise distinct. */
  lemma ChunkIdsDistinct(pdf: string, count: nat)
    ensures forall i, j :: 0 <= i < count && 0 <= j < count && i != j ==>
              ChunkIds(pdf, count)[i] != ChunkIds(pdf, count)[j]
  {
    var ids := ChunkIds(pdf, count);
    forall i, j | 0 <= i < count && 0 <= j < count && i != j ensures ids[i] != ids[j] {
      ChunkIdInjective(Basename(pdf), i, Basename(pdf), j);
    }
  }

  /** PDFs with different basenames never share a chunk id. */
  lemma ChunkIdsOfDifferentPdfs(pdf1: string, n1: nat, pdf2: string, n2: nat)
    requires Basename(pdf1) != Basename(pdf2)
    ensures forall i, j :: 0 <= i < n1 && 0 <= j < n2 ==> ChunkIds(pdf1, n1)[i] != ChunkIds(pdf2, n2)[j]
  {
    forall i, j | 0 <= i < n1 && 0 <= j < n2 ensures ChunkIds(pdf1, n1)[i] != ChunkIds(pdf2, n2)[j] {
      ChunkIdInjective(Basename(pdf1), i, Basename(pdf2), j);
    }
  }

  /** A run with fewer chunks reuses the first ids of a run with more: the id
      names the position, not the chunk boundaries (e.g. another `max_tokens`). */
  lemma ChunkIdsPrefix(pdf: string, m: nat, n: nat)
    requires m <= n
    ensures ChunkIds(pdf, m) == ChunkIds(pdf, n)[..m]
  {
  }

  /** One metadata map per chunk: `{"source_pdf": basename, "ts": clock(k)}`. */
  function Metadatas(pdf: string, count: nat, clock: nat -> string): (ms: seq<Metadata>)
    ensures |ms| == count
    ensures forall k :: 0 <= k < count ==>
              ms[k].Keys == {"source_pdf", "ts"}
              && ms[k]["source_pdf"] == Text(Basename(pdf))
              && ms[k]["ts"] == Text(clock(k))
  {
    seq(count, k requires 0 <= k < count =>
      map["source_pdf" := Text(Basename(pdf)), "ts" := Text(clock(k))])
  }

  /** The arguments of `col.add(ids=..., documents=..., metadatas=...)`. */
  datatype AddBatch = AddBatch(ids: seq<string>, documents: seq<string>, metadatas: seq<Metadata>)

  /** The batch for a list of chunks. */
  function Batch(pdf: string, chunks: seq<string>, clock: nat -> string): AddBatch {
    AddBatch(ChunkIds(pdf, |chunks|), chunks, Metadatas(pdf, |chunks|, clock))
  }

  /** The batch has one id and one metadata map per chunk, the ids are
      distinct, and the records name the PDF they come from. */
  lemma BatchWellFormed(pdf: string, chunks: seq<string>, clock: nat -> string)
    ensures var b := Batch(pdf, chunks, clock);
            |b.ids| == |b.documents| == |b.metadatas| == |chunks|
            && (forall i, j :: 0 <= i < |b.ids| && 0 <= j < |b.ids| && i != j ==> b.ids[i] != b.ids[j])
            && (forall k :: 0 <= k < |b.metadatas| ==> b.metadatas[k]["source_pdf"] == Text(Basename(pdf)))
  {
    ChunkIdsDistinct(pdf, |chunks|);
  }

  // ---------------------------------------------------------------------------
  // The ingestion run

  /** The script's steps 1 and 4: text, chunks, then the batch for `col.add`.
      A zero step makes `range()` raise before anything is written; a negative
      step gives an empty batch. */
  method Ingest(pdf: string, pages: seq<Option<string>>,
                encode: string -> seq<int>, decode: seq<int> -> string,
                maxTokens: int, overlap: int, clock: nat -> string)
    returns (r: Result<AddBatch, ChunkError>)
    ensures maxTokens - overlap == 0 <==> r == Err(ZeroStep)
    ensures maxTokens - overlap < 0 ==> r == Ok(AddBatch([], [], []))
    ensures maxTokens - overlap > 0 ==>
              r == Ok(Batch(pdf, DecodeAll(decode, Windows(encode(PdfToText(pages)), maxTokens, maxTokens - overlap)), clock))
  {
    var raw := PdfToText(pages);
    var chunks := TokenChunks(raw, encode, decode, maxTokens, overlap);
    match chunks
    case Err(e) => r := Err(e);
    case Ok(cs) => r := Ok(Batch(pdf, cs, clock));
  }
}
