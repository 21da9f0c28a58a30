/**
  The tab store of src/hooks/useFileManagement.ts: an ordered list of open
  document records and the id of the active one, changed by the editing,
  new-tab, import and close handlers, and the export that turns the active
  record into a download. Ids generated by `Date.now()` are parameters.
*/
module FileManagement {
  import opened Wrappers
  import opened JsString
  import opened Base64
  import opened FileType
  import opened Document
  import opened FileProcessor

  const PdfMime: string := "application/pdf"
  const WordMime: string := "application/vnd.openxmlformats-officedocument.wordprocessingml.document"
  const MarkdownMime: string := "text/markdown"
  const PlainMime: string := "text/plain"

  /** The record a new tab starts with. */
  function BlankDoc(id: string): Doc {
    Doc(id, "Untitled.md", "", Markdown, None)
  }

  /** No two open records share an id. */
  predicate UniqueIds(files: seq<Doc>) {
    forall i, j :: 0 <= i < j < |files| ==> files[i].id != files[j].id
  }

  /** Some open record has the id. */
  predicate HasId(files: seq<Doc>, id: string) {
    exists i :: 0 <= i < |files| && files[i].id == id
  }

  /** `files.map(f => f.id === activeId ? { ...f, content } : f)`. */
  function WithContent(files: seq<Doc>, activeId: string, content: string): (r: seq<Doc>)
    ensures |r| == |files|
    ensures forall i :: 0 <= i < |files| ==>
      r[i].id == files[i].id && r[i].name == files[i].name
      && r[i].fileType == files[i].fileType && r[i].rawData == files[i].rawData
    ensures forall i :: 0 <= i < |files| ==>
      if files[i].id == activeId then r[i].content == content else r[i] == files[i]
  {
    seq(|files|, i requires 0 <= i < |files| =>
      if files[i].id == activeId then files[i].(content := content) else files[i])
  }

  /** `files.map(f => f.id === activeId ? { ...f, name } : f)`. */
  function WithName(files: seq<Doc>, activeId: string, name: string): (r: seq<Doc>)
    ensures |r| == |files|
    ensures forall i :: 0 <= i < |files| ==>
      r[i].id == files[i].id && r[i].content == files[i].content
      && r[i].fileType == files[i].fileType && r[i].rawData == files[i].rawData
    ensures forall i :: 0 <= i < |files| ==>
      if files[i].id == activeId then r[i].name == name else r[i] == files[i]
  {
    seq(|files|, i requires 0 <= i < |files| =>
      if files[i].id == activeId then files[i].(name := name) else files[i])
  }

  /** `files.filter(f => f.id !== id)`. */
  function Without(files: seq<Doc>, id: string): (r: seq<Doc>)
    ensures |r| <= |files|
    ensures forall i :: 0 <= i < |r| ==> r[i].id != id
  {
    if |files| == 0 then []
    else (if files[0].id == id then [] else [files[0]]) + Without(files[1..], id)
  }

  /** The filter keeps exactly the records without the id: nothing is added and no other record is lost. */
  lemma {:induction false} WithoutKeepsTheRest(files: seq<Doc>, id: string)
    ensures forall d :: d in Without(files, id) ==> d in files
    ensures forall d :: d in files && d.id != id ==> d in Without(files, id)
  {
    if |files| > 0 {
      var rest := files[1..];
      WithoutKeepsTheRest(rest, id);
      assert files == [files[0]] + rest;
      assert Without(files, id) == (if files[0].id == id then [] else [files[0]]) + Without(rest, id);
    }
  }

  /** `files.find(f => f.id === id)`: the first record with the id. */
  function FindById(files: seq<Doc>, id: string): (r: Option<Doc>)
    ensures r.Some? <==> HasId(files, id)
    ensures r.Some? ==> r.value.id == id && r.value in files
    ensures r.Some? ==> exists k :: 0 <= k < |files| && files[k] == r.value && forall j :: 0 <= j < k ==> files[j].id != id
  {
    if |files| == 0 then None
    else if files[0].id == id then Some(files[0])
    else
      var rest := FindById(files[1..], id);
      assert HasId(files, id) ==> HasId(files[1..], id) by {
        if HasId(files, id) {
          var i :| 0 <= i < |files| && files[i].id == id;
          assert files[1..][i - 1].id == id;
        }
      }
      assert HasId(files[1..], id) ==> HasId(files, id) by {
        if HasId(files[1..], id) {
          var i :| 0 <= i < |files[1..]| && files[1..][i].id == id;
          assert files[i + 1].id == id;
        }
      }
      rest
  }

  /** The record the editor shows: the active one, or else the first one (`find(...) || files[0]`). */
  function ActiveDoc(files: seq<Doc>, activeId: string): (r: Option<Doc>)
    ensures r.Some? <==> |files| > 0
    ensures HasId(files, activeId) ==> r == FindById(files, activeId)
    ensures r.Some? && !HasId(files, activeId) ==> r.value == files[0]
  {
    match FindById(files, activeId)
    case Some(d) => Some(d)
    case None => if |files| > 0 then Some(files[0]) else None
  }

  /** A download: a byte blob or a text blob, each with its media type. */
  datatype Blob = Bytes(data: seq<byte>, mime: string) | Text(text: string, mime: string)

  /**
    What `handleDownload` does: nothing when no record is active, a download
    under the record's name, or an `atob` exception before anything is saved.
  */
  datatype ExportResult = NoActiveFile | Downloaded(blob: Blob, filename: string) | DecodeFailed

  /** The media type for the bytes of a binary record. */
  function BinaryMime(t: FileType): string {
    if t == Pdf then PdfMime else WordMime
  }

  /** The export of one record, by format. */
  function ExportDoc(d: Doc): (r: ExportResult)
    ensures r != NoActiveFile
    ensures r.Downloaded? ==> r.filename == d.name
    ensures r.Downloaded? && r.blob.Bytes? ==>
      IsBinary(d.fileType) && r.blob.mime == (if d.fileType == Pdf then PdfMime else WordMime)
    ensures d.rawData.Some? && IsBinary(d.fileType) ==> r == Downloaded(Bytes(ViewBytes(d.rawData.value), BinaryMime(d.fileType)), d.name)
    ensures IsBinary(d.fileType) && d.rawData.None? && StartsWith(d.content, "data:") && DecodeDataUri(d.content).Some? ==>
      r == Downloaded(Bytes(DecodeDataUri(d.content).value, BinaryMime(d.fileType)), d.name)
    ensures IsBinary(d.fileType) && d.rawData.None? && !StartsWith(d.content, "data:") ==>
      r == Downloaded(Text(d.content, PlainMime), d.name)
    ensures r.DecodeFailed? <==>
      IsBinary(d.fileType) && d.rawData.None? && StartsWith(d.content, "data:") && DecodeDataUri(d.content).None?
    ensures r.Downloaded? && r.blob.Text? ==> r.blob.text == d.content
    ensures IsEditable(d.fileType) ==>
      r == Downloaded(Text(d.content, if d.fileType == Markdown then MarkdownMime else PlainMime), d.name)
  {
    if IsBinary(d.fileType) then
      if d.rawData.Some? then
        Downloaded(Bytes(ViewBytes(d.rawData.value), BinaryMime(d.fileType)), d.name)
      else if StartsWith(d.content, "data:") then
        match DecodeDataUri(d.content)
        case Some(b) => Downloaded(Bytes(b, BinaryMime(d.fileType)), d.name)
        case None => DecodeFailed
      else
        Downloaded(Text(d.content, PlainMime), d.name)
    else
      Downloaded(Text(d.content, if d.fileType == Markdown then MarkdownMime else PlainMime), d.name)
  }

  /** `handleDownload` over the whole store. */
  function Export(files: seq<Doc>, activeId: string): (r: ExportResult)
    ensures r.NoActiveFile? <==> !HasId(files, activeId)
    ensures HasId(files, activeId) ==> r == ExportDoc(FindById(files, activeId).value)
  {
    match FindById(files, activeId)
    case None => NoActiveFile
    case Some(d) => ExportDoc(d)
  }

  /** Editing twice with the same text is editing once. */
  lemma WithContentIdempotent(files: seq<Doc>, activeId: string, content: string)
    ensures WithContent(WithContent(files, activeId, content), activeId, content) == WithContent(files, activeId, content)
  {
    var once := WithContent(files, activeId, content);
    var twice := WithContent(once, activeId, content);
    assert forall i :: 0 <= i < |files| ==> twice[i] == once[i];
  }

  /** Closing an id that no record has keeps the list as it is. */
  lemma {:induction false} WithoutAbsent(files: seq<Doc>, id: string)
    requires !HasId(files, id)
    ensures Without(files, id) == files
  {
    if |files| > 0 {
      var rest := files[1..];
      assert files[0].id != id;
      assert forall i :: 0 <= i < |rest| ==> rest[i] == files[i + 1];
      WithoutAbsent(rest, id);
      assert Without(files, id) == [files[0]] + Without(rest, id);
      assert files == [files[0]] + rest;
    }
  }

  /** With unique ids, closing the record at position `k` removes exactly it and keeps the others in order. */
  lemma {:induction false} WithoutUnique(files: seq<Doc>, id: string, k: nat)
    requires UniqueIds(files) && k < |files| && files[k].id == id
    ensures Without(files, id) == files[..k] + files[k + 1..]
  {
    var rest := files[1..];
    assert UniqueIds(rest) by {
      forall i, j | 0 <= i < j < |rest| ensures rest[i].id != rest[j].id {
        assert rest[i] == files[i + 1] && rest[j] == files[j + 1];
      }
    }
    if k == 0 {
      forall i | 0 <= i < |rest| ensures rest[i].id != id {
        assert rest[i] == files[i + 1];
      }
      WithoutAbsent(rest, id);
    } else {
      assert files[0].id != id;
      WithoutUnique(rest, id, k - 1);
      assert files[..k] == [files[0]] + rest[..k - 1];
      assert files[k + 1..] == rest[k..];
    }
  }

  /** With unique ids, closing one of two or more records leaves at least one open. */
  lemma CloseKeepsATab(files: seq<Doc>, id: string)
    requires UniqueIds(files) && |files| >= 2
    ensures |Without(files, id)| >= |files| - 1 >= 1
  {
    if HasId(files, id) {
      var k :| 0 <= k < |files| && files[k].id == id;
      WithoutUnique(files, id, k);
    } else {
      WithoutAbsent(files, id);
    }
  }

  /** Two records with one id, both closed at once: the filter leaves no record at all. */
  lemma DuplicateIdsEmptyTheList(d: Doc)
    ensures Without([d, d], d.id) == []
  {
    assert [d, d][1..] == [d];
  }

  /**
    A PDF or Word record built by import exports the bytes that were read,
    under its media type, both with its raw buffer and, as after a restore
    from storage, without it.
  */
  lemma ExportOfImported(name: string, id: string, b: seq<byte>)
    requires IsBinary(DetectFileType(name))
    ensures var doc := Ingest(name, id, BufferResult(b)).value;
      ExportDoc(doc) == Downloaded(Bytes(b, BinaryMime(DetectFileType(name))), name)
      && ExportDoc(doc.(rawData := None)) == Downloaded(Bytes(b, BinaryMime(DetectFileType(name))), name)
  {
    var t := DetectFileType(name);
    var doc := Ingest(name, id, BufferResult(b)).value;
    assert doc == Doc(id, name, DataUriPrefix + Encode(b), t, Some(ArrayBuffer(b)));
    assert ExportDoc(doc) == Downloaded(Bytes(b, BinaryMime(t)), name);
    DataUriRoundTrip(b);
    ImportedContentIsDataUri(b);
    ExportOfDataUri(doc.(rawData := None), b);
  }

  /** A binary record without raw data whose content is a decodable data URI exports the decoded bytes. */
  lemma ExportOfDataUri(d: Doc, b: seq<byte>)
    requires IsBinary(d.fileType) && d.rawData.None?
    requires StartsWith(d.content, "data:") && DecodeDataUri(d.content) == Some(b)
    ensures ExportDoc(d) == Downloaded(Bytes(b, BinaryMime(d.fileType)), d.name)
  {
  }

  /** Markdown and RTF records export their content unchanged. */
  lemma ExportOfText(d: Doc)
    requires IsEditable(d.fileType)
    ensures ExportDoc(d).Downloaded? && ExportDoc(d).blob == Text(d.content, if d.fileType == Markdown then MarkdownMime else PlainMime)
  {
  }

  /** The open records and which of them is active. */
  class TabStore {
    var files: seq<Doc>
    var activeId: string

    /** The store as the storage hook sets it up. */
    constructor(files0: seq<Doc>, activeId0: string)
      ensures files == files0 && activeId == activeId0
    {
      files := files0;
      activeId := activeId0;
    }

    /** Some record is active. */
    predicate ActiveExists()
      reads this
    {
      HasId(files, activeId)
    }

    /** `handleUpdateContent`: only the content of the active record changes. */
    method UpdateContent(content: string)
      modifies this
      ensures files == WithContent(old(files), old(activeId), content)
      ensures activeId == old(activeId)
    {
      files := WithContent(files, activeId, content);
    }

    /** `handleUpdateName`: only the name of the active record changes. */
    method UpdateName(name: string)
      modifies this
      ensures files == WithName(old(files), old(activeId), name)
      ensures activeId == old(activeId)
    {
      files := WithName(files, activeId, name);
    }

    /** `handleNewFile`: one blank Markdown record at the end, made active. */
    method NewFile(newId: string)
      modifies this
      ensures files == old(files) + [BlankDoc(newId)]
      ensures activeId == newId && ActiveExists()
      ensures UniqueIds(old(files)) && !HasId(old(files), newId) ==> UniqueIds(files)
    {
      files := files + [BlankDoc(newId)];
      activeId := newId;
      assert files[|files| - 1].id == newId;
    }

    /** The import callback: the processed record is appended and made active. */
    method Open(doc: Doc)
      modifies this
      ensures files == old(files) + [doc]
      ensures activeId == doc.id && ActiveExists()
      ensures UniqueIds(old(files)) && !HasId(old(files), doc.id) ==> UniqueIds(files)
    {
      files := files + [doc];
      activeId := doc.id;
      assert files[|files| - 1].id == doc.id;
    }

    /**
      `handleFileUpload`: the first selected file, if there is one, is
      processed and its record, once read, is opened.
    */
    method Upload(picked: Option<PickedFile>)
      modifies this
      ensures PickedRecord(picked).None? ==> files == old(files) && activeId == old(activeId)
      ensures PickedRecord(picked).Some? ==>
        files == old(files) + [PickedRecord(picked).value] && activeId == PickedRecord(picked).value.id
    {
      if picked.Some? {
        var f := picked.value;
        var mode, completed := ProcessFile(f.name, f.id, f.result);
        if completed.Some? {
          Open(completed.value);
        }
      }
    }

    /**
      `handleCloseFile(id)`. The only record is replaced by a blank one,
      which becomes active. Otherwise the records with the id are dropped,
      and if the active record was closed the last remaining one becomes
      active; `crashed` is the TypeError thrown when no record remains to
      take over (the list is already empty by then).
    */
    method CloseFile(id: string, newId: string) returns (crashed: bool)
      modifies this
      ensures |old(files)| == 1 ==> files == [BlankDoc(newId)] && activeId == newId && !crashed
      ensures |old(files)| != 1 ==> files == Without(old(files), id)
      ensures |old(files)| != 1 && old(activeId) != id ==> activeId == old(activeId) && !crashed
      ensures |old(files)| != 1 && old(activeId) == id ==>
        if |files| > 0 then activeId == files[|files| - 1].id && !crashed
        else activeId == old(activeId) && crashed
    {
      crashed := false;
      if |files| == 1 {
        files := [BlankDoc(newId)];
        activeId := newId;
        return;
      }
      var newFiles := Without(files, id);
      files := newFiles;
      if activeId == id {
        if |newFiles| > 0 {
          activeId := newFiles[|newFiles| - 1].id;
        } else {
          crashed := true;
        }
      }
    }

    /**
      `handleDownload`: the bytes or text, media type and file name of the
      active record. A view is copied byte for byte into a fresh buffer; a
      data URI is decoded through the char-code loop.
    */
    method Download() returns (r: ExportResult)
      ensures r == Export(files, activeId)
    {
      var found := FindById(files, activeId);
      if found.None? {
        return NoActiveFile;
      }
      var d := found.value;
      if IsBinary(d.fileType) {
        var mime := if d.fileType == Pdf then PdfMime else WordMime;
        if d.rawData.Some? {
          r := Downloaded(Bytes(ViewBytes(d.rawData.value), mime), d.name);
        } else if StartsWith(d.content, "data:") {
          AtobUndefinedFails();
          var binaryString := AtobOf(Piece(d.content, ',', 1));
          if binaryString.None? {
            return DecodeFailed;
          }
          var bytes := CharCodesToBytes(binaryString.value);
          r := Downloaded(Bytes(bytes[..], mime), d.name);
        } else {
          r := Downloaded(Text(d.content, PlainMime), d.name);
        }
      } else {
        var mime := if d.fileType == Markdown then MarkdownMime else PlainMime;
        r := Downloaded(Text(d.content, mime), d.name);
      }
    }
  }

  /** With unique ids and an active record, closing keeps an active record open. */
  lemma CloseKeepsActiveRecord(files: seq<Doc>, activeId: string, id: string)
    requires UniqueIds(files) && |files| >= 2 && HasId(files, activeId)
    ensures var rest := Without(files, id);
      |rest| >= 1 && (activeId != id ==> HasId(rest, activeId))
  {
    CloseKeepsATab(files, id);
    WithoutKeepsTheRest(files, id);
    var rest := Without(files, id);
    if activeId != id {
      var i :| 0 <= i < |files| && files[i].id == activeId;
      assert files[i] in files;
      var j :| 0 <= j < |rest| && rest[j] == files[i];
      assert rest[j].id == activeId;
    }
  }
}
