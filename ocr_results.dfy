/**
 * The documents the Azure Mistral OCR loader returns, and the pure mapping
 * from an OCR reply (or a failed exchange) to those documents.
 *
 * A reply carries an optional list of page records; each record has an
 * optional 0-based `index` and an optional `markdown` text. Usable pages
 * become page documents with computed metadata; when there is nothing to
 * return, or the exchange failed, a single placeholder document tagged with
 * an `error` key is returned instead.
 */
module OcrResults {
  import opened Wrappers
  import opened Text

  /** One entry of the reply's `pages` list. */
  datatype PageData = PageData(index: Option<int>, markdown: Option<string>)

  /** The parsed OCR reply; `pages` is `None` when the key is absent. */
  datatype OcrResponse = OcrResponse(pages: Option<seq<PageData>>)

  const ProcessingEngine := "mistral-ocr-azure"
  const NoTextContent := "No text content found"
  const NoValidTextContent := "No valid text content found in document"
  const ErrorPrefix := "Error during processing: "

  /**
   * A document's metadata dictionary. A page document carries the text
   * metrics; each placeholder carries an `error` key instead. Every variant
   * carries `file_name`.
   */
  datatype Metadata =
    | PageMetadata(page: int, pageLabel: int, totalPages: nat, fileName: string,
                   processingEngine: string, contentLength: nat)
    | NoPagesMetadata(fileName: string)
    | NoValidPagesMetadata(totalPages: nat, fileName: string)
    | ProcessingFailedMetadata(fileName: string)
  {
    /** The value under the `error` key, if the dictionary has one. */
    function ErrorTag(): Option<string>
    {
      match this
      case PageMetadata(_, _, _, _, _, _) => None
      case NoPagesMetadata(_) => Some("no_pages")
      case NoValidPagesMetadata(_, _) => Some("no_valid_pages")
      case ProcessingFailedMetadata(_) => Some("processing_failed")
    }
  }

  /** A text document with its metadata (`page_content` and `metadata`). */
  datatype Document = Document(content: string, metadata: Metadata)

  /** A page record the loader keeps: both keys present, text not blank. */
  predicate Usable(p: PageData)
  {
    p.index.Some? && p.markdown.Some? && !AllWhitespace(p.markdown.value)
  }

  predicate HasUsablePage(pages: seq<PageData>)
  {
    exists i :: 0 <= i < |pages| && Usable(pages[i])
  }

  /** The document emitted for a kept page, given its already cleaned text. */
  function PageDocument(index: int, cleaned: string, totalPages: nat, fileName: string): Document
  {
    Document(cleaned, PageMetadata(index, index + 1, totalPages, fileName, ProcessingEngine, |cleaned|))
  }

  /** The document the loader emits for a usable page record. */
  function PageDocumentFor(p: PageData, totalPages: nat, fileName: string): Document
    requires Usable(p)
  {
    PageDocument(p.index.value, Strip(p.markdown.value), totalPages, fileName)
  }

  /**
   * What every emitted page document looks like: page metadata whose
   * `content_length` is the length of a non-empty, trimmed content, whose
   * label is one past its page number, and whose totals, file name and
   * engine are the shared ones.
   */
  predicate IsPageDocument(d: Document, totalPages: nat, fileName: string)
  {
    && d.metadata.PageMetadata?
    && d.content != []
    && !IsWhitespace(d.content[0])
    && !IsWhitespace(d.content[|d.content| - 1])
    && d.metadata.contentLength == |d.content|
    && d.metadata.pageLabel == d.metadata.page + 1
    && d.metadata.totalPages == totalPages
    && d.metadata.fileName == fileName
    && d.metadata.processingEngine == ProcessingEngine
    && d.metadata.ErrorTag().None?
  }

  /**
   * The page documents emitted for `pages`, in order: usable records are
   * turned into documents, the others are skipped.
   */
  function EmittedDocuments(pages: seq<PageData>, totalPages: nat, fileName: string): (docs: seq<Document>)
    ensures |docs| <= |pages|
  {
    if pages == [] then
      []
    else
      var last := pages[|pages| - 1];
      EmittedDocuments(pages[..|pages| - 1], totalPages, fileName)
      + (if Usable(last) then [PageDocumentFor(last, totalPages, fileName)] else [])
  }

  /** The document of a usable record has the shape of a page document. */
  lemma PageDocumentForShape(p: PageData, totalPages: nat, fileName: string)
    requires Usable(p)
    ensures IsPageDocument(PageDocumentFor(p, totalPages, fileName), totalPages, fileName)
    ensures PageDocumentFor(p, totalPages, fileName).content == Strip(p.markdown.value)
  {
    StripEmptyIff(p.markdown.value);
  }

  /** Every emitted document has the shape of a page document. */
  lemma {:induction false} EmittedArePageDocuments(pages: seq<PageData>, totalPages: nat, fileName: string)
    ensures forall k :: 0 <= k < |EmittedDocuments(pages, totalPages, fileName)| ==>
      IsPageDocument(EmittedDocuments(pages, totalPages, fileName)[k], totalPages, fileName)
  {
    if pages != [] {
      var n := |pages| - 1;
      var front := pages[..n];
      EmittedArePageDocuments(front, totalPages, fileName);
      var docs := EmittedDocuments(pages, totalPages, fileName);
      var before := EmittedDocuments(front, totalPages, fileName);
      if Usable(pages[n]) {
        PageDocumentForShape(pages[n], totalPages, fileName);
        assert docs == before + [PageDocumentFor(pages[n], totalPages, fileName)];
      } else {
        assert docs == before;
      }
    }
  }

  /** Extending the records by one emits at most that record's document. */
  lemma EmittedStep(pages: seq<PageData>, i: nat, totalPages: nat, fileName: string)
    requires i < |pages|
    ensures EmittedDocuments(pages[..i + 1], totalPages, fileName)
      == EmittedDocuments(pages[..i], totalPages, fileName)
         + (if Usable(pages[i]) then [PageDocumentFor(pages[i], totalPages, fileName)] else [])
  {
    assert pages[..i + 1][..i] == pages[..i];
  }

  /** The positions of the usable records of `pages`, in increasing order. */
  function KeptIndices(pages: seq<PageData>): (kept: seq<nat>)
    ensures |kept| <= |pages|
  {
    if pages == [] then
      []
    else
      var n := |pages| - 1;
      KeptIndices(pages[..n]) + (if Usable(pages[n]) then [n] else [])
  }

  /**
   * `KeptIndices` lists exactly the usable positions, strictly increasing:
   * each entry is a usable position and every usable position is an entry.
   */
  lemma {:induction false} KeptIndicesExact(pages: seq<PageData>)
    ensures forall k :: 0 <= k < |KeptIndices(pages)| ==>
      KeptIndices(pages)[k] < |pages| && Usable(pages[KeptIndices(pages)[k]])
    ensures forall a, b :: 0 <= a < b < |KeptIndices(pages)| ==> KeptIndices(pages)[a] < KeptIndices(pages)[b]
    ensures forall i :: 0 <= i < |pages| && Usable(pages[i]) ==> i in KeptIndices(pages)
  {
    if pages != [] {
      var n := |pages| - 1;
      var front := pages[..n];
      KeptIndicesExact(front);
      var prior := KeptIndices(front);
      var kept := KeptIndices(pages);
      var tail: seq<nat> := if Usable(pages[n]) then [n] else [];
      assert kept == prior + tail;
      forall k | 0 <= k < |kept|
        ensures kept[k] < |pages| && Usable(pages[kept[k]])
      {
        if k < |prior| {
          assert kept[k] == prior[k];
          assert pages[prior[k]] == front[prior[k]];
        }
      }
      forall i | 0 <= i < |pages| && Usable(pages[i])
        ensures i in kept
      {
        if i < n {
          assert front[i] == pages[i];
          assert i in prior;
        } else {
          assert kept[|kept| - 1] == n;
        }
      }
    }
  }

  /**
   * The emitted documents are exactly the usable records, mapped one to one
   * and in their original order: the output is an ordered subsequence of
   * the input, and it leaves out no usable record.
   */
  lemma {:induction false} EmittedFollowKept(pages: seq<PageData>, totalPages: nat, fileName: string)
    ensures |EmittedDocuments(pages, totalPages, fileName)| == |KeptIndices(pages)|
    ensures forall k :: 0 <= k < |KeptIndices(pages)| ==>
      KeptIndices(pages)[k] < |pages| && Usable(pages[KeptIndices(pages)[k]])
      && EmittedDocuments(pages, totalPages, fileName)[k]
         == PageDocumentFor(pages[KeptIndices(pages)[k]], totalPages, fileName)
  {
    KeptIndicesExact(pages);
    if pages != [] {
      var n := |pages| - 1;
      var front := pages[..n];
      EmittedFollowKept(front, totalPages, fileName);
      var prior := KeptIndices(front);
      var docs := EmittedDocuments(pages, totalPages, fileName);
      var before := EmittedDocuments(front, totalPages, fileName);
      var kept := KeptIndices(pages);
      forall k | 0 <= k < |kept|
        ensures docs[k] == PageDocumentFor(pages[kept[k]], totalPages, fileName)
      {
        if k < |prior| {
          assert kept[k] == prior[k] && docs[k] == before[k];
          assert pages[prior[k]] == front[prior[k]];
        }
      }
    }
  }

  /** No page document is emitted exactly when no record is usable. */
  lemma EmittedEmptyIff(pages: seq<PageData>, totalPages: nat, fileName: string)
    ensures EmittedDocuments(pages, totalPages, fileName) == [] <==> !HasUsablePage(pages)
  {
    EmittedFollowKept(pages, totalPages, fileName);
    KeptIndicesExact(pages);
    var kept := KeptIndices(pages);
    if HasUsablePage(pages) {
      var i :| 0 <= i < |pages| && Usable(pages[i]);
      assert i in kept;
    }
    if kept != [] {
      assert Usable(pages[kept[0]]);
    }
  }

  /**
   * When every record is usable, one document is emitted per record, at the
   * same position.
   */
  lemma {:induction false} EmittedAllUsable(pages: seq<PageData>, totalPages: nat, fileName: string)
    requires forall i :: 0 <= i < |pages| ==> Usable(pages[i])
    ensures |EmittedDocuments(pages, totalPages, fileName)| == |pages|
    ensures forall k :: 0 <= k < |pages| ==>
      EmittedDocuments(pages, totalPages, fileName)[k] == PageDocumentFor(pages[k], totalPages, fileName)
  {
    if pages != [] {
      var n := |pages| - 1;
      var front := pages[..n];
      EmittedAllUsable(front, totalPages, fileName);
      var docs := EmittedDocuments(pages, totalPages, fileName);
      var before := EmittedDocuments(front, totalPages, fileName);
      assert docs == before + [PageDocumentFor(pages[n], totalPages, fileName)] by {
        EmittedStep(pages, n, totalPages, fileName);
        assert pages[..n + 1] == pages;
      }
      forall k | 0 <= k < |pages|
        ensures docs[k] == PageDocumentFor(pages[k], totalPages, fileName)
      {
        if k < n {
          assert front[k] == pages[k];
          assert before[k] == PageDocumentFor(front[k], totalPages, fileName);
          assert docs[k] == before[k];
        }
      }
    }
  }

  /**
   * `_process_results`: the documents for a parsed reply. An absent or empty
   * `pages` list gives the `no_pages` placeholder; a list with no usable
   * record gives the `no_valid_pages` placeholder; otherwise the emitted
   * page documents, with `total_pages` the length of the whole list.
   */
  function ResultDocuments(fileName: string, response: OcrResponse): (docs: seq<Document>)
    ensures |docs| >= 1
    ensures forall k :: 0 <= k < |docs| ==> docs[k].metadata.fileName == fileName
  {
    if response.pages.None? || response.pages.value == [] then
      [Document(NoTextContent, NoPagesMetadata(fileName))]
    else
      var pages := response.pages.value;
      var emitted := EmittedDocuments(pages, |pages|, fileName);
      EmittedArePageDocuments(pages, |pages|, fileName);
      if emitted == [] then
        [Document(NoValidTextContent, NoValidPagesMetadata(|pages|, fileName))]
      else
        emitted
  }

  /** Which of its three shapes `ResultDocuments` takes, by the reply alone. */
  lemma ResultDocumentsCases(fileName: string, response: OcrResponse)
    ensures var docs := ResultDocuments(fileName, response);
      && (response.pages.None? || response.pages.value == [] ==>
            docs == [Document(NoTextContent, NoPagesMetadata(fileName))])
      && (response.pages.Some? && response.pages.value != [] && !HasUsablePage(response.pages.value) ==>
            docs == [Document(NoValidTextContent, NoValidPagesMetadata(|response.pages.value|, fileName))])
      && (response.pages.Some? && HasUsablePage(response.pages.value) ==>
            docs == EmittedDocuments(response.pages.value, |response.pages.value|, fileName))
  {
    if response.pages.Some? {
      var pages := response.pages.value;
      EmittedEmptyIff(pages, |pages|, fileName);
    }
  }

  /**
   * A reply of N pages, each with text and with indices 0 to N-1 in order,
   * gives exactly N documents in index order, each counting N pages.
   */
  lemma SequentialPages(pages: seq<PageData>, fileName: string)
    requires pages != []
    requires forall i :: 0 <= i < |pages| ==>
      pages[i].index == Some(i) && pages[i].markdown.Some? && !AllWhitespace(pages[i].markdown.value)
    ensures var docs := ResultDocuments(fileName, OcrResponse(Some(pages)));
      |docs| == |pages|
      && forall k :: 0 <= k < |docs| ==>
           docs[k].metadata.PageMetadata?
           && docs[k].metadata.page == k
           && docs[k].metadata.pageLabel == k + 1
           && docs[k].metadata.totalPages == |pages|
           && docs[k].content == Strip(pages[k].markdown.value)
  {
    forall i | 0 <= i < |pages|
      ensures Usable(pages[i])
    {
      StripEmptyIff(pages[i].markdown.value);
    }
    EmittedAllUsable(pages, |pages|, fileName);
  }

  /** The placeholder `load` returns when any step before the mapping fails. */
  function FailedDocument(fileName: string, message: string): Document
  {
    Document(ErrorPrefix + message, ProcessingFailedMetadata(fileName))
  }

  /**
   * `load`'s result for the outcome of the read/encode/POST/parse chain:
   * a reply is handed to `_process_results`; any failure becomes the single
   * `processing_failed` placeholder carrying the error's message.
   */
  function LoadDocuments(fileName: string, outcome: Result<OcrResponse, string>): (docs: seq<Document>)
    ensures |docs| >= 1
    ensures forall k :: 0 <= k < |docs| ==> docs[k].metadata.fileName == fileName
  {
    match outcome
    case Success(response) => ResultDocuments(fileName, response)
    case Failure(message) => [FailedDocument(fileName, message)]
  }

  /**
   * The `error` tag of the first document tells the four outcomes of `load`
   * apart, each in both directions, and a tagged document is always alone.
   */
  lemma LoadErrorTags(fileName: string, outcome: Result<OcrResponse, string>)
    ensures var docs := LoadDocuments(fileName, outcome);
      && (docs[0].metadata.ErrorTag() == Some("processing_failed") <==> outcome.Failure?)
      && (docs[0].metadata.ErrorTag() == Some("no_pages") <==>
            outcome.Success? && (outcome.value.pages.None? || outcome.value.pages.value == []))
      && (docs[0].metadata.ErrorTag() == Some("no_valid_pages") <==>
            outcome.Success? && outcome.value.pages.Some? && outcome.value.pages.value != []
            && !HasUsablePage(outcome.value.pages.value))
      && (docs[0].metadata.ErrorTag().None? <==>
            outcome.Success? && outcome.value.pages.Some? && HasUsablePage(outcome.value.pages.value))
      && (forall k :: 0 <= k < |docs| && docs[k].metadata.ErrorTag().Some? ==> |docs| == 1)
  {
    if outcome.Success? {
      ResultDocumentsCases(fileName, outcome.value);
      if outcome.value.pages.Some? {
        var pages := outcome.value.pages.value;
        EmittedArePageDocuments(pages, |pages|, fileName);
      }
    }
  }

  /** A failed exchange reports its message after the fixed prefix. */
  lemma FailureReportsMessage(fileName: string, message: string)
    ensures var docs := LoadDocuments(fileName, Failure(message));
      |docs| == 1
      && docs[0].content[..|ErrorPrefix|] == ErrorPrefix
      && docs[0].content[|ErrorPrefix|..] == message
      && docs[0].metadata == ProcessingFailedMetadata(fileName)
  {
  }
}
