/**
  The PDF reader of src/components/pdf-reader.tsx: `loadPdf` picks the
  bytes to hand to the PDF renderer (a copy of the raw buffer, else the
  decoded data URI, else the content read as Base64), and the page
  controls move between pages within the document. The renderer is
  outside the model; its load callbacks are methods.
*/
module PdfReader {
  import opened Wrappers
  import opened JsString
  import opened Base64
  import opened Document
  import opened FileType
  import opened FileProcessor

  const InvalidPdf: string := "Invalid PDF data format"
  const RendererFailed: string := "Failed to load PDF document"

  /**
    The bytes `loadPdf` passes on, or the message of the error it ends
    with. `atobMessage` is the browser's message for the exception `atob`
    throws on a data URI that does not decode.
  */
  function PdfSource(d: Doc, atobMessage: string): (r: Result<seq<byte>, string>)
    ensures d.rawData.Some? ==> r == Ok(ViewBytes(d.rawData.value))
    ensures d.rawData.None? ==> r == ContentBytes(d.content, atobMessage, InvalidPdf)
  {
    if d.rawData.Some? then Ok(ViewBytes(d.rawData.value))
    else ContentBytes(d.content, atobMessage, InvalidPdf)
  }

  /** An imported PDF is shown from the bytes that were read, with or without its raw buffer. */
  lemma PdfSourceOfImported(name: string, id: string, b: seq<byte>, atobMessage: string)
    requires DetectFileType(name) == Pdf
    ensures var d := Ingest(name, id, BufferResult(b)).value;
      PdfSource(d, atobMessage) == Ok(b) && PdfSource(d.(rawData := None), atobMessage) == Ok(b)
  {
    ImportedContentBytes(b, atobMessage, InvalidPdf);
  }

  /** Content that is plain Base64 (no "data:" header) decodes whole. */
  lemma PdfSourceOfBase64(d: Doc, b: seq<byte>, atobMessage: string)
    requires d.rawData.None? && d.content == Encode(b)
    ensures PdfSource(d, atobMessage) == Ok(b)
  {
    AtobEncode(b);
    CharCodesBinaryString(b, "");
    EncodeIsNoDataUri(b);
  }

  /** Base64 text never carries the "data:" header: `:` is not in its alphabet. */
  lemma EncodeIsNoDataUri(b: seq<byte>)
    ensures !StartsWith(Encode(b), "data:")
  {
    var s := Encode(b);
    if |s| >= 5 {
      assert IsAlphabetChar(s[4]) || s[4] == '=';
      assert s[..5][4] == s[4];
      assert "data:"[4] == ':';
    }
  }

  /** `goToPrevPage`: one page back, never below page 1. */
  function PrevPage(page: int): (p: int)
    ensures p >= 1
    ensures page > 1 ==> p == page - 1
    ensures page <= 1 ==> p == 1
  {
    if page - 1 > 1 then page - 1 else 1
  }

  /** `goToNextPage`: one page on, never past the last, and no move while the page count is unknown (or 0). */
  function NextPage(page: int, numPages: Option<int>): (p: int)
    ensures numPages.None? || numPages.value == 0 ==> p == page
    ensures numPages.Some? && numPages.value != 0 ==> p <= numPages.value
    ensures numPages.Some? && numPages.value != 0 && page < numPages.value ==> p == page + 1
    ensures numPages.Some? && numPages.value != 0 && page >= numPages.value ==> p == numPages.value
  {
    if numPages.Some? && numPages.value != 0 then
      (if numPages.value < page + 1 then numPages.value else page + 1)
    else page
  }

  /** A page-control click. */
  datatype Move = Back | Forward

  /** The page after a sequence of clicks. */
  function Navigate(page: int, numPages: Option<int>, moves: seq<Move>): int
    decreases |moves|
  {
    if |moves| == 0 then page
    else
      var next := if moves[0] == Back then PrevPage(page) else NextPage(page, numPages);
      Navigate(next, numPages, moves[1..])
  }

  /** From a page of the document, every sequence of clicks stays within the document. */
  lemma {:induction false} NavigateStaysInRange(page: int, n: int, moves: seq<Move>)
    requires 1 <= page <= n
    ensures 1 <= Navigate(page, Some(n), moves) <= n
    decreases |moves|
  {
    if |moves| > 0 {
      var next := if moves[0] == Back then PrevPage(page) else NextPage(page, Some(n));
      NavigateStaysInRange(next, n, moves[1..]);
    }
  }

  /** Inside the document, Forward undoes Back and Back undoes Forward. */
  lemma BackAndForthReturns(page: int, n: int)
    requires 1 <= page <= n
    ensures page > 1 ==> NextPage(PrevPage(page), Some(n)) == page
    ensures page < n ==> PrevPage(NextPage(page, Some(n))) == page
  {
  }

  /** The reader's state. */
  class PdfView {
    var numPages: Option<int>
    var pageNumber: int
    var loading: bool
    var error: Option<string>
    var pdfData: Option<seq<byte>>

    constructor()
      ensures numPages.None? && pageNumber == 1 && loading && error.None? && pdfData.None?
    {
      numPages := None;
      pageNumber := 1;
      loading := true;
      error := None;
      pdfData := None;
    }

    /** The page is a page of the document once the page count is known. */
    predicate InRange()
      reads this
    {
      numPages.Some? && numPages.value >= 1 ==> 1 <= pageNumber <= numPages.value
    }

    /**
      `loadPdf`: a copy of the chosen bytes becomes the renderer's data and
      the reader keeps loading until the renderer reports back; on an error
      the message is shown and loading stops.
    */
    method LoadPdf(d: Doc, atobMessage: string)
      modifies this
      ensures numPages == old(numPages) && pageNumber == old(pageNumber)
      ensures PdfSource(d, atobMessage).Ok? ==>
        pdfData == Some(PdfSource(d, atobMessage).value) && loading && error.None?
      ensures PdfSource(d, atobMessage).Err? ==>
        error == Some(PdfSource(d, atobMessage).error) && !loading && pdfData == old(pdfData)
    {
      loading := true;
      error := None;
      if d.rawData.Some? {
        var sourceArray := ViewBytes(d.rawData.value);
        var data := new byte[|sourceArray|];
        CopyInto(data, sourceArray);
        pdfData := Some(data[..]);
        return;
      }
      var decoded := DecodeContent(d.content, atobMessage, InvalidPdf);
      match decoded {
        case Err(message) =>
          error := Some(message);
          loading := false;
        case Ok(bytes) =>
          var data := new byte[|bytes|];
          CopyInto(data, bytes);
          pdfData := Some(data[..]);
      }
    }

    /** `onDocumentLoadSuccess`: the page count is known, the first page is shown. */
    method OnLoadSuccess(n: int)
      modifies this
      ensures numPages == Some(n) && pageNumber == 1 && !loading
      ensures error == old(error) && pdfData == old(pdfData)
      ensures InRange()
    {
      numPages := Some(n);
      loading := false;
      pageNumber := 1;
    }

    /** `onDocumentLoadError`: the renderer's message, or a default one. */
    method OnLoadError(message: string)
      modifies this
      ensures error == Some(if message == "" then RendererFailed else message) && !loading
      ensures numPages == old(numPages) && pageNumber == old(pageNumber) && pdfData == old(pdfData)
    {
      error := Some(if message == "" then RendererFailed else message);
      loading := false;
    }

    method GoToPrevPage()
      modifies this
      ensures pageNumber == PrevPage(old(pageNumber))
      ensures numPages == old(numPages) && loading == old(loading) && error == old(error) && pdfData == old(pdfData)
      ensures old(InRange()) ==> InRange()
    {
      pageNumber := PrevPage(pageNumber);
    }

    method GoToNextPage()
      modifies this
      ensures pageNumber == NextPage(old(pageNumber), old(numPages))
      ensures numPages == old(numPages) && loading == old(loading) && error == old(error) && pdfData == old(pdfData)
      ensures old(InRange()) ==> InRange()
    {
      pageNumber := NextPage(pageNumber, numPages);
    }
  }

  /** `new Uint8Array(data).set(source)`: the fresh buffer receives the source bytes. */
  method CopyInto(data: array<byte>, source: seq<byte>)
    requires data.Length == |source|
    modifies data
    ensures data[..] == source
  {
    var i := 0;
    while i < |source|
      invariant 0 <= i <= |source|
      invariant data[..i] == source[..i]
    {
      data[i] := source[i];
      i := i + 1;
      assert data[..i] == data[..i - 1] + [data[i - 1]];
    }
    assert data[..] == data[..i];
  }
}
