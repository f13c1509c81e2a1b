/**
 * `extract_text_from_pdf`: download a blob, open it as a PDF and concatenate the
 * text of its pages. A failure while reading pages is caught and the text becomes
 * the sentinel "error"; a failure to download or to open the PDF is not caught.
 *
 * PyMuPDF is represented only by what it yields: a document that cannot be opened,
 * or a sequence of per-page outcomes.
 */
module TextExtractor {
  import opened Wrappers

  /** What `load_page(i).get_text()` does for one page: returns its text or raises. */
  datatype PageResult = PageText(text: string) | PageFailure

  /** What `fitz.open` makes of a blob's bytes. */
  datatype Document = Unopenable | Opened(pages: seq<PageResult>)

  /** The exceptions `extract_text_from_pdf` lets through to its caller. */
  datatype ExtractError = DownloadFailed | OpenFailed

  /** The content stored for a document whose pages could not all be read. */
  const ErrorSentinel: string := "error"

  predicate AllReadable(pages: seq<PageResult>)
  {
    forall i :: 0 <= i < |pages| ==> pages[i].PageText?
  }

  /** The page texts one after another, in page order. */
  function Joined(pages: seq<PageResult>): string
    requires AllReadable(pages)
  {
    if pages == [] then "" else Joined(pages[..|pages| - 1]) + pages[|pages| - 1].text
  }

  /** What extraction yields for a blob (None: no blob to download). */
  function Extracted(blob: Option<Document>): Result<string, ExtractError>
  {
    match blob
    case None => Failure(DownloadFailed)
    case Some(Unopenable) => Failure(OpenFailed)
    case Some(Opened(pages)) => Success(if AllReadable(pages) then Joined(pages) else ErrorSentinel)
  }

  /** `extract_text_from_pdf`, given what downloading the blob produced. */
  method ExtractTextFromPdf(blob: Option<Document>) returns (r: Result<string, ExtractError>)
    ensures blob.None? ==> r == Failure(DownloadFailed)
    ensures blob == Some(Unopenable) ==> r == Failure(OpenFailed)
    ensures blob.Some? && blob.value.Opened? && AllReadable(blob.value.pages) ==> r == Success(Joined(blob.value.pages))
    ensures blob.Some? && blob.value.Opened? && !AllReadable(blob.value.pages) ==> r == Success(ErrorSentinel)
  {
    if blob.None? {
      return Failure(DownloadFailed);
    }
    if blob.value.Unopenable? {
      return Failure(OpenFailed);
    }
    var pages := blob.value.pages;
    var text := "";
    for i := 0 to |pages|
      invariant AllReadable(pages[..i])
      invariant text == Joined(pages[..i])
    {
      if pages[i].PageFailure? {
        return Success(ErrorSentinel);
      }
      assert pages[..i + 1][..i] == pages[..i];
      text := text + pages[i].text;
    }
    assert pages[..|pages|] == pages;
    r := Success(text);
  }

  /** Joining respects page order: the text of two runs of pages is their texts concatenated. */
  lemma {:induction false} JoinedAppend(front: seq<PageResult>, back: seq<PageResult>)
    requires AllReadable(front) && AllReadable(back)
    ensures AllReadable(front + back)
    ensures Joined(front + back) == Joined(front) + Joined(back)
    decreases |back|
  {
    assert AllReadable(front + back) by {
      forall i | 0 <= i < |front + back| ensures (front + back)[i].PageText? {
        if i >= |front| { assert (front + back)[i] == back[i - |front|]; }
      }
    }
    if back != [] {
      var last := |back| - 1;
      assert (front + back)[..|front + back| - 1] == front + back[..last];
      JoinedAppend(front, back[..last]);
    } else {
      assert front + back == front;
    }
  }

  /** A page that fails throws away everything read before it, whatever follows. */
  lemma FailureDiscardsText(before: seq<PageResult>, after: seq<PageResult>)
    ensures Extracted(Some(Opened(before + [PageFailure] + after))) == Success(ErrorSentinel)
  {
    var pages := before + [PageFailure] + after;
    assert pages[|before|] == PageFailure;
  }
}
