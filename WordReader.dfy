/**
  The Word reader of src/components/word-reader.tsx: it picks the bytes of
  the document (the raw data, else the decoded content), converts a
  `.docx` file to HTML and refuses every other name. The converter is an
  input: a function from the bytes to its result.
*/
module WordReader {
  import opened Wrappers
  import opened JsString
  import opened Base64
  import opened Document
  import opened FileType
  import opened FileProcessor

  const InvalidWord: string := "Invalid Word document data format"
  const DocUnsupported: string :=
    ".doc files are not directly supported. Please convert to .docx format or use a conversion tool."
  const WordLoadFailed: string := "Failed to load Word document"

  /** The bytes handed to the converter, as written: a typed-array view contributes its whole backing `buffer`. */
  function WordSourceAsWritten(d: Doc, atobMessage: string): (r: Result<seq<byte>, string>)
    ensures d.rawData.Some? && d.rawData.value.ArrayBuffer? ==> r == Ok(d.rawData.value.bytes)
    ensures d.rawData.Some? && d.rawData.value.Uint8View? ==> r == Ok(d.rawData.value.buffer)
    ensures d.rawData.None? ==> r == ContentBytes(d.content, atobMessage, InvalidWord)
  {
    match d.rawData
    case Some(ArrayBuffer(bytes)) => Ok(bytes)
    case Some(Uint8View(buffer, _, _)) => Ok(buffer)
    case None => ContentBytes(d.content, atobMessage, InvalidWord)
  }

  /** The bytes handed to the converter, as intended: the bytes the raw data stands for. */
  function WordSource(d: Doc, atobMessage: string): (r: Result<seq<byte>, string>)
    ensures d.rawData.Some? ==> r == Ok(ViewBytes(d.rawData.value))
    ensures d.rawData.None? ==> r == ContentBytes(d.content, atobMessage, InvalidWord)
  {
    if d.rawData.Some? then Ok(ViewBytes(d.rawData.value))
    else ContentBytes(d.content, atobMessage, InvalidWord)
  }

  /** A view of one byte in the middle of a three-byte buffer: the code passes on all three. */
  lemma WordSourceExposesWholeBuffer()
    ensures var d := Doc("1", "a.docx", "", Word, Some(Uint8View([1, 2, 3], 1, 1)));
      WordSourceAsWritten(d, "") == Ok([1, 2, 3]) && WordSource(d, "") == Ok([2])
  {
    var v: Raw := Uint8View([1, 2, 3], 1, 1);
    assert ViewBytes(v) == [2];
  }

  /** The two agree whenever the raw data is a whole buffer or a view of all of it, and without raw data. */
  lemma WordSourcesAgree(d: Doc, atobMessage: string)
    requires d.rawData.Some? && d.rawData.value.Uint8View? ==>
      d.rawData.value.byteOffset == 0 && d.rawData.value.byteLength == |d.rawData.value.buffer|
    ensures WordSourceAsWritten(d, atobMessage) == WordSource(d, atobMessage)
  {
    if d.rawData.Some? && d.rawData.value.Uint8View? {
      var v := d.rawData.value;
      assert v.buffer[0..|v.buffer|] == v.buffer;
    }
  }

  /** `file.name.toLowerCase().endsWith('.docx')`. */
  predicate IsDocx(name: string)
    ensures IsDocx(name) ==> |name| >= 5 && ToLower(name)[|name| - 5] == '.'
  {
    EndsWith(ToLower(name), ".docx")
  }

  /** A name that passes the `.docx` gate has the extension "docx", so it is a Word file. */
  lemma DocxGateImpliesExtension(name: string)
    requires IsDocx(name)
    ensures Extension(name) == "docx" && |name| > 4
    ensures DetectFileType(name) == Word
  {
    assert ".docx" == ['.'] + "docx";
    LowerSuffixIsExtension(name, "docx");
  }

  /** A name with the extension "docx" and something before it passes the gate. */
  lemma ExtensionImpliesDocxGate(name: string)
    requires Extension(name) == "docx" && |name| > 4
    ensures IsDocx(name)
  {
    assert ".docx" == ['.'] + "docx";
    EndsWithCharThen(ToLower(name), '.', "docx");
  }

  /** A `.doc` file (any case) never reaches the converter. */
  lemma DocIsRefused(name: string)
    requires Extension(name) == "doc"
    ensures !IsDocx(name)
  {
    var lower := ToLower(name);
    assert lower[|lower| - 3..][2] == 'c';
    if |lower| >= 5 {
      assert lower[|lower| - 5..][4] == lower[|lower| - 1];
    }
  }

  /** What the converter did with the bytes: HTML, or an exception with or without an `Error` message. */
  datatype Conversion = Converted(html: string) | ConversionThrew(message: Option<string>)

  /** `err instanceof Error ? err.message : "Failed to load Word document"`. */
  function ThrownMessage(message: Option<string>): (m: string)
    ensures message.Some? ==> m == message.value
    ensures message.None? ==> m == WordLoadFailed
  {
    if message.Some? then message.value else WordLoadFailed
  }

  /** An imported Word record hands the converter the bytes that were read, with or without its raw buffer. */
  lemma WordSourceOfImported(name: string, id: string, b: seq<byte>, atobMessage: string)
    requires DetectFileType(name) == Word
    ensures var d := Ingest(name, id, BufferResult(b)).value;
      WordSourceAsWritten(d, atobMessage) == Ok(b) && WordSourceAsWritten(d.(rawData := None), atobMessage) == Ok(b)
      && WordSource(d, atobMessage) == Ok(b) && WordSource(d.(rawData := None), atobMessage) == Ok(b)
  {
    ImportedContentBytes(b, atobMessage, InvalidWord);
  }

  /** The HTML shown, or the error message shown, after `loadWordDocument`, with the bytes chosen as the code does. */
  function WordOutcome(d: Doc, atobMessage: string, convert: seq<byte> -> Conversion): (r: Result<string, string>)
    ensures WordSourceAsWritten(d, atobMessage).Err? ==> r == Err(WordSourceAsWritten(d, atobMessage).error)
    ensures WordSourceAsWritten(d, atobMessage).Ok? && !IsDocx(d.name) ==> r == Err(DocUnsupported)
    ensures (WordSourceAsWritten(d, atobMessage).Ok? && IsDocx(d.name)
             && convert(WordSourceAsWritten(d, atobMessage).value).ConversionThrew?) ==>
      r == Err(ThrownMessage(convert(WordSourceAsWritten(d, atobMessage).value).message))
  {
    match WordSourceAsWritten(d, atobMessage)
    case Err(e) => Err(e)
    case Ok(bytes) =>
      if !IsDocx(d.name) then Err(DocUnsupported)
      else
        match convert(bytes)
        case Converted(html) => Ok(html)
        case ConversionThrew(m) => Err(ThrownMessage(m))
  }

  /** Only a `.docx` name whose bytes were recovered can show HTML, and it shows the converter's HTML for those bytes. */
  lemma ShownHtmlIsConverted(d: Doc, atobMessage: string, convert: seq<byte> -> Conversion)
    ensures WordOutcome(d, atobMessage, convert).Ok? <==>
      IsDocx(d.name) && WordSourceAsWritten(d, atobMessage).Ok? && convert(WordSourceAsWritten(d, atobMessage).value).Converted?
    ensures WordOutcome(d, atobMessage, convert).Ok? ==>
      WordOutcome(d, atobMessage, convert).value == convert(WordSourceAsWritten(d, atobMessage).value).html
  {
  }

  /** A record imported from a `.doc` file is refused with the conversion hint, whatever the converter would do. */
  lemma DocRecordIsRefused(d: Doc, atobMessage: string, convert: seq<byte> -> Conversion)
    requires d.rawData.Some? && Extension(d.name) == "doc"
    ensures WordOutcome(d, atobMessage, convert) == Err(DocUnsupported)
  {
    DocIsRefused(d.name);
  }

  /** The reader's state. */
  class WordView {
    var htmlContent: string
    var loading: bool
    var error: Option<string>

    constructor()
      ensures htmlContent == "" && loading && error.None?
    {
      htmlContent := "";
      loading := true;
      error := None;
    }

    /**
      `loadWordDocument`: the bytes are chosen as the code does (a view
      hands over its whole backing buffer); on success the converter's HTML
      is shown and the error cleared; on failure the message is shown and
      the earlier HTML stays. Loading always ends.
    */
    method LoadWordDocument(d: Doc, atobMessage: string, convert: seq<byte> -> Conversion)
      modifies this
      ensures !loading
      ensures WordOutcome(d, atobMessage, convert).Ok? ==>
        htmlContent == WordOutcome(d, atobMessage, convert).value && error.None?
      ensures WordOutcome(d, atobMessage, convert).Err? ==>
        error == Some(WordOutcome(d, atobMessage, convert).error) && htmlContent == old(htmlContent)
    {
      loading := true;
      error := None;
      var source: Result<seq<byte>, string>;
      match d.rawData {
        case Some(ArrayBuffer(bytes)) => source := Ok(bytes);
        case Some(Uint8View(buffer, _, _)) => source := Ok(buffer);
        case None =>
          source := DecodeContent(d.content, atobMessage, InvalidWord);
      }
      match source {
        case Err(message) =>
          error := Some(message);
        case Ok(arrayBuffer) =>
          if IsDocx(d.name) {
            match convert(arrayBuffer) {
              case Converted(html) => htmlContent := html;
              case ConversionThrew(m) => error := Some(ThrownMessage(m));
            }
          } else {
            error := Some(DocUnsupported);
          }
      }
      loading := false;
    }
  }
}
