/**
  The document record every part of the viewer passes around: an id, a file
  name, the content string (text, or a Base64 data URI for binary formats),
  the detected format and, for freshly imported binary files, the raw bytes.
  Also the two editor tabs, and the decoding of a content string back to
  bytes that export and both binary readers share.
*/
module Document {
  import opened Wrappers
  import opened JsString
  import opened Base64
  import opened FileType

  /**
    `ArrayBuffer | Uint8Array`: a whole buffer, or a typed-array view of
    `byteLength` bytes starting at `byteOffset` in a backing buffer.
  */
  datatype RawData =
    | ArrayBuffer(bytes: seq<byte>)
    | Uint8View(buffer: seq<byte>, byteOffset: nat, byteLength: nat)

  /** A view never reaches past the end of its buffer. */
  predicate WellFormed(r: RawData) {
    r.Uint8View? ==> r.byteOffset + r.byteLength <= |r.buffer|
  }

  type Raw = r: RawData | WellFormed(r) witness ArrayBuffer([])

  /** The bytes the raw data stands for: the whole buffer, or the viewed window of it. */
  function ViewBytes(r: Raw): (b: seq<byte>)
    ensures |b| == (if r.ArrayBuffer? then |r.bytes| else r.byteLength)
  {
    match r
    case ArrayBuffer(bytes) => bytes
    case Uint8View(buffer, offset, length) => buffer[offset..offset + length]
  }

  /** `DocumentFile`: `rawData` is `None` when the optional field is absent. */
  datatype Doc = Doc(id: string, name: string, content: string, fileType: FileType, rawData: Option<Raw>)

  /** `TabType`: the editor pane or the preview pane. */
  datatype Tab = Write | Preview

  /**
    `atob(content.split(",")[1])` followed by the char-code loop: the bytes of
    the Base64 piece between the first and the second comma, or `None` where
    `atob` throws (including the case of no comma, when the piece is `undefined`).
  */
  function DecodeDataUri(content: string): (r: Option<seq<byte>>)
    ensures Piece(content, ',', 1).None? ==> r.None?
    ensures Piece(content, ',', 1).Some? ==>
      (r.Some? <==> Atob(Piece(content, ',', 1).value).Some?)
      && (r.Some? ==> BinaryString(r.value) == Atob(Piece(content, ',', 1).value).value)
  {
    AtobUndefinedFails();
    match AtobOf(Piece(content, ',', 1))
    case Some(s) =>
      CharCodesBinaryString([], s);
      Some(CharCodes(s))
    case None => None
  }

  /** `atob(content)` followed by the char-code loop: the whole content read as Base64. */
  function DecodeWhole(content: string): (r: Option<seq<byte>>)
    ensures r.Some? <==> Atob(content).Some?
    ensures r.Some? ==> BinaryString(r.value) == Atob(content).value
  {
    match Atob(content)
    case Some(s) =>
      CharCodesBinaryString([], s);
      Some(CharCodes(s))
    case None => None
  }

  /**
    The bytes a binary reader recovers from the content string of a record
    without raw data, or the message of the error it throws: a "data:"
    content is decoded from the piece after its first comma (up to any second
    one), and `atob`'s own exception
    (message `atobMessage`) propagates; any other content is read whole as
    Base64, and a failure there is replaced by `invalidMessage`.
  */
  function ContentBytes(content: string, atobMessage: string, invalidMessage: string): (r: Result<seq<byte>, string>)
    ensures StartsWith(content, "data:") ==>
      (r.Ok? <==> DecodeDataUri(content).Some?)
      && (r.Ok? ==> r.value == DecodeDataUri(content).value)
      && (r.Err? ==> r.error == atobMessage)
    ensures !StartsWith(content, "data:") ==>
      (r.Ok? <==> Atob(content).Some?)
      && (r.Ok? ==> BinaryString(r.value) == Atob(content).value)
      && (r.Err? ==> r.error == invalidMessage)
  {
    if StartsWith(content, "data:") then
      match DecodeDataUri(content)
      case Some(b) => Ok(b)
      case None => Err(atobMessage)
    else
      match DecodeWhole(content)
      case Some(b) => Ok(b)
      case None => Err(invalidMessage)
  }

  /**
    The readers' decoding step: `atob`, then the loop that copies each
    character code into a fresh byte array.
  */
  method DecodeContent(content: string, atobMessage: string, invalidMessage: string) returns (r: Result<seq<byte>, string>)
    ensures r == ContentBytes(content, atobMessage, invalidMessage)
  {
    var binaryString: Option<string>;
    if StartsWith(content, "data:") {
      AtobUndefinedFails();
      binaryString := AtobOf(Piece(content, ',', 1));
      if binaryString.None? {
        return Err(atobMessage);
      }
    } else {
      binaryString := Atob(content);
      if binaryString.None? {
        return Err(invalidMessage);
      }
    }
    CharCodesBinaryString([], binaryString.value);
    var bytes := CharCodesToBytes(binaryString.value);
    r := Ok(bytes[..]);
  }
}
