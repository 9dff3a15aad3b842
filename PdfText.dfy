/**
 * The text side of `RAGService._extract_text_from_pdf`: the per-page strings
 * that the PDF reader extracts are joined, each non-empty page followed by a
 * line break, and the joined text is chunked unless it is blank.
 */
module PdfText {
  import opened PyStr
  import opened Chunker

  /** What one page contributes to `full_text`: nothing when empty, else the page and "\n". */
  function PageContribution(page: string): string {
    if page == "" then "" else page + "\n"
  }

  /** `full_text` after the page loop: the pages' contributions in page order. */
  function JoinedPages(pages: seq<string>): string {
    if pages == [] then ""
    else JoinedPages(pages[..|pages| - 1]) + PageContribution(pages[|pages| - 1])
  }

  /**
   * Joining splits over any division of the page list, so the pages
   * before page `i` fill exactly the first `|JoinedPages(pages[..i])|`
   * characters and page `i` (when not empty) follows them, with its "\n".
   */
  lemma {:induction false} JoinedPagesSplit(pages: seq<string>, i: nat)
    requires i <= |pages|
    ensures JoinedPages(pages) == JoinedPages(pages[..i]) + JoinedPages(pages[i..])
    decreases |pages|
  {
    if i < |pages| {
      var n := |pages|;
      var init := pages[..n - 1];
      var tail := pages[i..];
      var last := PageContribution(pages[n - 1]);
      JoinedPagesSplit(init, i);
      assert init[..i] == pages[..i];
      assert tail[..|tail| - 1] == init[i..];
      assert tail[|tail| - 1] == pages[n - 1];
      assert JoinedPages(tail) == JoinedPages(init[i..]) + last;
      ConcatAssoc(JoinedPages(pages[..i]), JoinedPages(init[i..]), last);
    } else {
      assert pages[..i] == pages;
    }
  }

  /**
   * Page order: every non-empty page, followed by "\n", appears in the joined
   * text right after the contributions of the pages before it.
   */
  lemma PageInJoinedText(pages: seq<string>, i: nat)
    requires i < |pages| && pages[i] != ""
    ensures var off := |JoinedPages(pages[..i])|;
            off + |pages[i]| + 1 <= |JoinedPages(pages)| &&
            JoinedPages(pages)[off..off + |pages[i]| + 1] == pages[i] + "\n"
  {
    JoinedAround(pages, i);
    var a := JoinedPages(pages[..i]);
    var p := pages[i] + "\n";
    var c := JoinedPages(pages[i + 1..]);
    assert (a + p + c)[|a|..|a| + |p|] == p;
  }

  /** The joined text is the part before page `i`, page `i`'s contribution, and the part after it. */
  lemma JoinedAround(pages: seq<string>, i: nat)
    requires i < |pages|
    ensures JoinedPages(pages) ==
            JoinedPages(pages[..i]) + PageContribution(pages[i]) + JoinedPages(pages[i + 1..])
  {
    var rest := pages[i..];
    JoinedPagesSplit(pages, i);
    JoinedPagesSplit(rest, 1);
    JoinedSingle(rest[..1]);
    assert rest[1..] == pages[i + 1..];
    ConcatAssoc(JoinedPages(pages[..i]), PageContribution(pages[i]), JoinedPages(pages[i + 1..]));
  }

  lemma JoinedSingle(pages: seq<string>)
    requires |pages| == 1
    ensures JoinedPages(pages) == PageContribution(pages[0])
  {
    assert pages[..0] == [];
  }

  /**
   * The joined text is blank (`full_text.strip()` is empty) exactly when every
   * page is blank: the line breaks added are themselves whitespace.
   */
  lemma {:induction false} JoinedBlankIff(pages: seq<string>)
    ensures AllSpace(JoinedPages(pages)) <==> forall i :: 0 <= i < |pages| ==> AllSpace(pages[i])
    decreases |pages|
  {
    if pages != [] {
      var n := |pages|;
      var init := pages[..n - 1];
      var last := pages[n - 1];
      JoinedBlankIff(init);
      AllSpaceConcat(JoinedPages(init), PageContribution(last));
      assert AllSpace(PageContribution(last)) <==> AllSpace(last) by {
        if last != "" {
          AllSpaceConcat(last, "\n");
          assert AllSpace("\n") by { assert "\n"[0] == '\n'; }
        }
      }
      assert forall i :: 0 <= i < n - 1 ==> init[i] == pages[i];
      assert (forall i :: 0 <= i < n ==> AllSpace(pages[i])) <==>
             (forall i :: 0 <= i < n - 1 ==> AllSpace(init[i])) && AllSpace(last);
    }
  }

  /** The chunks `_extract_text_from_pdf` returns for the given pages. */
  function ExtractChunks(pages: seq<string>, chunkSize: nat, chunkOverlap: nat): seq<string> {
    var fullText := JoinedPages(pages);
    if Strip(fullText) != "" then Chunk(fullText, chunkSize, chunkOverlap) else []
  }

  /**
   * With a positive chunk size a PDF yields no chunks exactly when every
   * page's text is empty or whitespace only.
   */
  lemma NoChunksIffBlankPages(pages: seq<string>, chunkSize: nat, chunkOverlap: nat)
    requires chunkSize > 0
    ensures ExtractChunks(pages, chunkSize, chunkOverlap) == [] <==>
            forall i :: 0 <= i < |pages| ==> AllSpace(pages[i])
  {
    JoinedBlankIff(pages);
    NoChunksIffBlank(JoinedPages(pages), chunkSize, chunkOverlap);
  }

  /** The page loop: `full_text += page_text + "\n"` for each non-empty page. */
  method JoinPages(pages: seq<string>) returns (fullText: string)
    ensures fullText == JoinedPages(pages)
  {
    fullText := "";
    for i := 0 to |pages|
      invariant fullText == JoinedPages(pages[..i])
    {
      assert pages[..i + 1][..i] == pages[..i];
      if pages[i] != "" {
        fullText := fullText + pages[i] + "\n";
      }
    }
    assert pages[..|pages|] == pages;
  }

  /**
   * `_extract_text_from_pdf` from the extracted page texts on: no chunks at all
   * when every page is blank, otherwise the chunks of the joined text.
   */
  method ExtractTextFromPdf(pages: seq<string>, chunkSize: nat, chunkOverlap: nat) returns (textChunks: seq<string>)
    ensures (forall i :: 0 <= i < |pages| ==> AllSpace(pages[i])) ==> textChunks == []
    ensures !(forall i :: 0 <= i < |pages| ==> AllSpace(pages[i])) ==>
              textChunks == Chunk(JoinedPages(pages), chunkSize, chunkOverlap)
    ensures textChunks == ExtractChunks(pages, chunkSize, chunkOverlap)
  {
    textChunks := [];
    var fullText := JoinPages(pages);
    JoinedBlankIff(pages);
    if Strip(fullText) != "" {
      var chunks := ChunkText(fullText, chunkSize, chunkOverlap);
      textChunks := textChunks + chunks;
    }
  }
}
