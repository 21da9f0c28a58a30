/**
  `processFile` of src/utils/fileProcessor.ts: turns a file that FileReader
  has read into a document record. PDF and Word files are read as bytes and
  stored as a Base64 data URI plus the raw buffer; Markdown and RTF files are
  read as text and stored as that text. FileReader itself is outside the
  model: its `result` is an input.
*/
module FileProcessor {
  import opened Wrappers
  import opened JsString
  import opened Base64
  import opened FileType
  import opened Document

  /** The prefix of a binary record's content; the Base64 text follows the comma. */
  const DataUriPrefix: string := "data:application/octet-stream;base64,"

  /** The number of bytes turned into characters per `String.fromCharCode` call. */
  const ChunkSize: nat := 8192

  /** Which FileReader method `processFile` starts. */
  datatype ReadMode = AsArrayBuffer | AsText

  /** FileReader's `result` as the load handler sees it: a buffer, a string, or neither. */
  datatype ReadResult = BufferResult(bytes: seq<byte>) | TextResult(text: string) | NoResult

  /** Binary formats are read as bytes, text formats as text. */
  function ReadModeFor(t: FileType): (m: ReadMode)
    ensures m == AsArrayBuffer <==> t == Pdf || t == Word
    ensures m == AsText <==> IsEditable(t)
  {
    if IsBinary(t) then AsArrayBuffer else AsText
  }

  /**
    The loop that builds `binaryString` one `subarray(i, i + chunkSize)` at a
    time; `subarray` clamps its end to the array length. The result is the
    byte-by-byte binary string, whatever the chunk size.
  */
  method ChunkedBinaryString(bytes: seq<byte>, chunkSize: nat) returns (s: string)
    requires chunkSize > 0
    ensures s == BinaryString(bytes)
  {
    s := "";
    var i := 0;
    while i < |bytes|
      invariant 0 <= i <= |bytes|
      invariant s == BinaryString(bytes[..i])
      decreases |bytes| - i
    {
      var end := if i + chunkSize < |bytes| then i + chunkSize else |bytes|;
      var chunk := bytes[i..end];
      BinaryStringConcat(bytes[..i], chunk);
      assert bytes[..i] + chunk == bytes[..end];
      s := s + BinaryString(chunk);
      i := end;
    }
    assert bytes[..i] == bytes;
  }

  /**
    The record `processFile` hands to `onComplete`, or `None` when the load
    handler's type test fails and `onComplete` is never called.
  */
  function Ingest(name: string, id: string, result: ReadResult): (r: Option<Doc>)
    ensures r.Some? <==>
      (if IsBinary(DetectFileType(name)) then result.BufferResult? else result.TextResult?)
    ensures r.Some? ==>
      r.value.id == id && r.value.name == name && r.value.fileType == DetectFileType(name)
    ensures r.Some? && result.BufferResult? ==>
      r.value.content == DataUriPrefix + Encode(result.bytes)
      && r.value.rawData == Some(ArrayBuffer(result.bytes))
    ensures r.Some? && result.TextResult? ==>
      r.value.content == result.text && r.value.rawData.None?
  {
    var t := DetectFileType(name);
    if IsBinary(t) then
      match result
      case BufferResult(b) => Some(Doc(id, name, DataUriPrefix + Encode(b), t, Some(ArrayBuffer(b))))
      case _ => None
    else
      match result
      case TextResult(text) => Some(Doc(id, name, text, t, None))
      case _ => None
  }

  /**
    `processFile` with the reader's result supplied: returns the read mode it
    asks for and what it passes to `onComplete` (at most one record).
    `id` is the `Date.now()` string the source generates.
  */
  method ProcessFile(name: string, id: string, result: ReadResult) returns (mode: ReadMode, completed: Option<Doc>)
    ensures mode == ReadModeFor(DetectFileType(name))
    ensures completed == Ingest(name, id, result)
  {
    var fileType := DetectFileType(name);
    mode := ReadModeFor(fileType);
    completed := None;
    if IsBinary(fileType) {
      if result.BufferResult? {
        var binaryString := ChunkedBinaryString(result.bytes, ChunkSize);
        var base64 := Btoa(binaryString);
        CharCodesBinaryString(result.bytes, "");
        completed := Some(Doc(id, name, DataUriPrefix + base64.value, fileType, Some(ArrayBuffer(result.bytes))));
      }
    } else {
      if result.TextResult? {
        completed := Some(Doc(id, name, result.text, fileType, None));
      }
    }
  }

  /** A file the user picked (from the file input or a drop): its name, the id stamped on it, and what reading it produced. */
  datatype PickedFile = PickedFile(name: string, id: string, result: ReadResult)

  /** The record opened for a picked file: none without a file or when the read gives the wrong kind of result. */
  function PickedRecord(picked: Option<PickedFile>): (r: Option<Doc>)
    ensures picked.None? ==> r.None?
    ensures picked.Some? ==> r == Ingest(picked.value.name, picked.value.id, picked.value.result)
  {
    match picked
    case None => None
    case Some(f) => Ingest(f.name, f.id, f.result)
  }

  /** The Base64 segment after the comma of a binary record decodes to the bytes that were read. */
  lemma DataUriRoundTrip(b: seq<byte>)
    ensures Piece(DataUriPrefix + Encode(b), ',', 1) == Some(Encode(b))
    ensures DecodeDataUri(DataUriPrefix + Encode(b)) == Some(b)
  {
    var header := "data:application/octet-stream;base64";
    assert ',' !in header;
    EncodeHasNoComma(b);
    assert DataUriPrefix + Encode(b) == header + [','] + Encode(b);
    SplitFirstPiece(header, ',', Encode(b));
    SplitWithoutSeparator(Encode(b), ',');
    AtobEncode(b);
    CharCodesBinaryString(b, "");
  }

  /** A binary record's content is a data URI. */
  lemma ImportedContentIsDataUri(b: seq<byte>)
    ensures StartsWith(DataUriPrefix + Encode(b), "data:")
  {
    var content := DataUriPrefix + Encode(b);
    assert content[..|DataUriPrefix|] == DataUriPrefix;
    assert DataUriPrefix[..5] == "data:";
    assert content[..5] == content[..|DataUriPrefix|][..5];
  }

  /** A reader without the raw buffer recovers the bytes that were read from a binary record's content. */
  lemma ImportedContentBytes(b: seq<byte>, atobMessage: string, invalidMessage: string)
    ensures ContentBytes(DataUriPrefix + Encode(b), atobMessage, invalidMessage) == Ok(b)
  {
    DataUriRoundTrip(b);
    ImportedContentIsDataUri(b);
  }

  /** Every record built from a binary read can be turned back into its bytes from its content alone. */
  lemma IngestedBinaryDecodes(name: string, id: string, b: seq<byte>)
    requires IsBinary(DetectFileType(name))
    ensures Ingest(name, id, BufferResult(b)).Some?
    ensures DecodeDataUri(Ingest(name, id, BufferResult(b)).value.content) == Some(b)
  {
    DataUriRoundTrip(b);
  }
}
