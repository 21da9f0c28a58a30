# md-prv document viewer: a Dafny model

md-prv is a browser application with tabs for opening and editing documents.
Markdown and RTF files are edited as text. PDF and Word files are only shown.
This project models the application's core in Dafny and proves properties of
that model:

- **File-type detection** (`FileType`): a file's format is decided by the
  last dot-separated piece of its lower-cased name.
- **Import** (`FileProcessor`): text formats are stored as the text that was
  read. Binary formats are stored twice: as the raw buffer, and as a Base64
  `data:` URI built chunk by chunk.
- **Tab store** (`FileManagement`): an ordered list of records plus the id of
  the active one. The handlers edit the active record, open new tabs, import,
  close and export.
- **Persistence** (`Storage`, `StorageHook`): one snapshot per browser tab,
  kept in IndexedDB and tagged with a session id held in `sessionStorage`.
  Startup loads the snapshot and every later change saves it. Saving retries
  once after a full-quota error.
- **Markdown toolbar and counters** (`Toolbar`, `Content`): wrapping the
  selection in markup, and the character and word counts.
- **RTF editor** (`RtfEditor`): parsed RTF is converted to HTML, and edited
  HTML is converted back to RTF.
- **PDF and Word readers** (`PdfReader`, `WordReader`): recovering the bytes
  of a document, page navigation, and the `.docx` gate.
- **Drag and drop** (`DragAndDrop`).

Shared definitions live in `Wrappers` (Option and Result), `JsString` (the
JavaScript string operations the source relies on), `Base64` (`btoa`, and
`atob` with the WHATWG forgiving-base64 decoding) and `Document` (the record
type and the shared decoding of content strings).

Code that changes state is modelled as classes:

- `TabStore`, `Persistence` and `Workspace` for the tab store and storage;
- `RtfView`, `PdfView`, `WordView` and `DragState` for the components'
  state.

Each method states its new state in terms of pure specification functions,
and lemmas prove properties of those functions. The loops of the source keep
their loop form:

- the chunked binary-string loop;
- the char-code loops;
- the buffer copy.

Some inputs come from outside the program. They are parameters of the model:

- what FileReader produced;
- which storage calls throw;
- the `Date.now()`/`Math.random()` stamps;
- the RTF parser's tree;
- the browser's parse of the edited HTML;
- the Word converter's result;
- the message `atob` throws.

Main results:

- the import round trip: decoding a binary record's data URI gives back the
  bytes that were read, and so does exporting it or viewing it as a PDF,
  with or without the raw buffer;
- a snapshot saved and then loaded in the same session comes back unchanged;
- loading never returns another session's snapshot;
- page navigation never leaves the document;
- wrapping markup is undone by removing it;
- the word count equals the number of maximal runs of non-space characters;
- `convertNode` only adds tags around the tree's text;
- `convertToRTF` gives RTF with balanced braces whenever the text contains
  no braces of its own.

## Model

| member | source | states |
|---|---|---|
| FileType.Extension | src/utils/fileType.ts:7 | the extension has no dot, ends the lower-cased name, and is preceded by a dot unless it is the whole name |
| FileType.DetectFileType | src/utils/fileType.ts:6-24 | PDF exactly for "pdf", Word exactly for "doc"/"docx", RTF exactly for "rtf", Markdown for everything else ("md", "markdown", unknown or empty extensions) |
| FileType.IsEditable | src/utils/fileType.ts:29-31 | editable exactly for the formats other than PDF and Word |
| FileType.HasPreview | src/utils/fileType.ts:36-38 | a format has a preview exactly when it is editable |
| FileType.IsBinary | src/utils/fileType.ts:43-45 | binary exactly for PDF and Word, which are exactly the formats that are not editable |
| FileType.DetectIgnoresCase | src/utils/fileType.ts:7 | lower-casing the name never changes the detected format |
| FileType.ExtensionIgnoresCase | src/utils/fileType.ts:7 | the extension of the lower-cased name is the extension of the name |
| FileType.NoDotIsWholeName | src/utils/fileType.ts:7 | a name without a dot is its own extension, lower-cased |
| FileType.TrailingDotIsMarkdown | src/utils/fileType.ts:7-22 | a name ending in a dot has the empty extension and is Markdown |
| FileType.UniqueDotFreeSuffix | src/utils/fileType.ts:7 | a dot-free suffix that starts right after a dot is the piece after the last dot |
| FileType.ExtensionAfterLastDot | src/utils/fileType.ts:7 | the extension of `stem.ext` (with `ext` dot-free) is `ext` lower-cased, whatever the stem contains |
| FileType.LowerSuffixIsExtension | src/utils/fileType.ts:7 | a dot-free text that the lower-cased name ends with, right after a dot, is the extension |
| FileType.MdSuffixIsMarkdown | src/utils/fileType.ts:7-22 | a name ending in ".md" has the extension "md" and is Markdown |
| JsString.ToLowerIdempotent | src/utils/fileType.ts:7 | lower-casing twice is lower-casing once |
| JsString.ToLowerConcat | src/utils/fileType.ts:7 | lower-casing distributes over concatenation |
| JsString.JoinSplit | src/utils/fileType.ts:7 | `split` loses nothing: joining the pieces with the separator gives back the string |
| JsString.SplitPiecesLackSeparator | src/utils/fileType.ts:7 | no piece of `split(sep)` contains the separator |
| JsString.SplitLastPiece | src/utils/fileType.ts:7 | the last piece of a split is a suffix, preceded by the separator unless it is the whole string |
| JsString.Piece | src/hooks/useFileManagement.ts:124 | `split(sep)[k]` is defined exactly when there are more than k pieces, and it contains no separator |
| JsString.EndsWithCharThen | src/components/word-reader.tsx:52 | `endsWith(c + e)` holds exactly when the string ends with `e` and `c` comes right before it |
| Base64.Btoa | src/utils/fileProcessor.ts:25 | `btoa` succeeds exactly on strings whose characters all have codes below 256 |
| Base64.Atob | src/hooks/useFileManagement.ts:125 | whatever `atob` returns is a binary string |
| Base64.EncodeLength | src/utils/fileProcessor.ts:25 | padded Base64 has a length divisible by four |
| Base64.DecodeEncodeUnpadded | src/utils/fileProcessor.ts:25 | decoding the unpadded encoding of any bytes gives the bytes back |
| Base64.AtobEncode | src/utils/fileProcessor.ts:25 | `atob` of the Base64 encoding of any bytes is their binary string |
| Base64.AtobBtoa | src/utils/fileProcessor.ts:25 | `atob(btoa(s)) == s` for every binary string |
| Base64.EncodeHasNoComma | src/utils/fileProcessor.ts:29 | Base64 text has no comma, so the data URI's first comma is the header's |
| Base64.AtobUndefinedFails | src/hooks/useFileManagement.ts:124-125 | a data URI without a comma makes `atob(undefined)` throw |
| Base64.CharCodesBinaryString | src/hooks/useFileManagement.ts:126-129 | reading character codes undoes `fromCharCode` on bytes, and the converse holds on binary strings |
| Base64.CharCodesToBytes | src/hooks/useFileManagement.ts:126-129 | the char-code loop fills a fresh array with the code of each character |
| Document.ViewBytes | src/components/pdf-reader.tsx:31-42 | raw data stands for the whole buffer, or for exactly `byteLength` bytes of a view |
| Document.DecodeDataUri | src/hooks/useFileManagement.ts:123-129 | without a comma the decoding fails; otherwise it succeeds exactly when `atob` accepts the piece between the first and the second comma, and the bytes are that piece's decoded binary string |
| Document.DecodeWhole | src/components/pdf-reader.tsx:50-51 | content read whole as Base64 decodes exactly when `atob` accepts it, to the bytes of its result |
| Document.ContentBytes | src/components/pdf-reader.tsx:44-63 | a "data:" content gives the data-URI bytes or `atob`'s own error; any other content gives the whole-content decode or the reader's invalid-format message |
| Document.DecodeContent | src/components/word-reader.tsx:27-48 | the decode-and-copy code computes exactly `ContentBytes` |
| FileProcessor.ReadModeFor | src/utils/fileProcessor.ts:11-53 | binary formats are read as a buffer and editable formats as text |
| FileProcessor.ChunkedBinaryString | src/utils/fileProcessor.ts:18-24 | the chunked `fromCharCode` loop builds the binary string of all the bytes, for every positive chunk size |
| FileProcessor.Ingest | src/utils/fileProcessor.ts:8-53 | a record is produced exactly when the result has the kind the format asks for; it carries the id, the name and the detected type; binary records hold the data URI of the bytes and the buffer; text records hold the text and no raw data |
| FileProcessor.ProcessFile | src/utils/fileProcessor.ts:4-54 | `processFile` asks for the format's read mode and hands on the record `Ingest` describes |
| FileProcessor.PickedRecord | src/hooks/useFileManagement.ts:83-88 | no record without a picked file; otherwise the record of the picked file |
| FileProcessor.DataUriRoundTrip | src/utils/fileProcessor.ts:25-29 | the piece after the comma of a binary record's content is the Base64 text, and it decodes to the bytes that were read |
| FileProcessor.ImportedContentIsDataUri | src/utils/fileProcessor.ts:29 | an imported binary record's content starts with the "data:" header the readers and the export test for |
| FileProcessor.ImportedContentBytes | src/utils/fileProcessor.ts:25-29 | decoding an imported binary record's content, as the readers do, gives back the bytes that were read |
| FileProcessor.IngestedBinaryDecodes | src/utils/fileProcessor.ts:25-31 | every binary import can be rebuilt from its content alone |
| FileManagement.WithContent | src/hooks/useFileManagement.ts:21-30 | same length and order; records with the active id get the new content and nothing else; the rest are unchanged |
| FileManagement.WithName | src/hooks/useFileManagement.ts:32-39 | same length and order; records with the active id get the new name and nothing else; the rest are unchanged |
| FileManagement.Without | src/hooks/useFileManagement.ts:71 | the filter adds no records and leaves no record with the closed id |
| FileManagement.WithoutKeepsTheRest | src/hooks/useFileManagement.ts:71 | every record the filter keeps was there, and every record whose id differs is kept |
| FileManagement.FindById | src/hooks/useFileManagement.ts:96 | a record is found exactly when some record has the id, and it is the first record with that id |
| FileManagement.ActiveDoc | src/App.tsx:51 | the active record if there is one, otherwise the first record; nothing only when no record is open |
| FileManagement.ExportDoc | src/hooks/useFileManagement.ts:102-146 | the download carries the record's name. A binary record gives its raw bytes when it has them; otherwise a "data:" content gives the decoded data URI, both under the PDF or Word media type; a data URI that does not decode gives the `atob` failure; binary content without the "data:" header is saved as text/plain, unchanged. Markdown is saved as text/markdown and RTF as text/plain, content unchanged |
| FileManagement.Export | src/hooks/useFileManagement.ts:95-97 | nothing happens exactly when no record has the active id; otherwise the active record is exported |
| FileManagement.WithContentIdempotent | src/hooks/useFileManagement.ts:21-30 | the same edit done twice is the edit done once |
| FileManagement.WithoutAbsent | src/hooks/useFileManagement.ts:71 | closing an id that no record has changes nothing |
| FileManagement.WithoutUnique | src/hooks/useFileManagement.ts:71 | with unique ids, closing the record at position k removes just it and keeps the order |
| FileManagement.CloseKeepsATab | src/hooks/useFileManagement.ts:57-72 | with unique ids, closing one of several records leaves all but one open |
| FileManagement.DuplicateIdsEmptyTheList | src/hooks/useFileManagement.ts:71-75 | two records sharing the closed id leave no record, so the next active id cannot be read |
| FileManagement.CloseKeepsActiveRecord | src/hooks/useFileManagement.ts:71-76 | with unique ids and at least two records, a record stays open, and closing a record other than the active one keeps the active record open |
| FileManagement.ExportOfImported | src/hooks/useFileManagement.ts:104-134 | an imported PDF or Word file downloads the bytes that were read, under its media type, with or without its raw buffer |
| FileManagement.ExportOfDataUri | src/hooks/useFileManagement.ts:123-134 | a binary record without raw data downloads its decoded data URI |
| FileManagement.ExportOfText | src/hooks/useFileManagement.ts:139-146 | Markdown and RTF records download their content under their media type |
| FileManagement.TabStore.constructor | src/hooks/useStorage.ts:24-25 | the store starts with the given records and active id |
| FileManagement.TabStore.UpdateContent | src/hooks/useFileManagement.ts:21-30 | the records become `WithContent` of the old ones, and the active id stays |
| FileManagement.TabStore.UpdateName | src/hooks/useFileManagement.ts:32-39 | the records become `WithName` of the old ones, and the active id stays |
| FileManagement.TabStore.NewFile | src/hooks/useFileManagement.ts:41-51 | a blank "Untitled.md" record is appended and made active; a fresh id keeps the ids unique |
| FileManagement.TabStore.Open | src/hooks/useFileManagement.ts:85-88 | the record is appended and made active; a fresh id keeps the ids unique |
| FileManagement.TabStore.Upload | src/hooks/useFileManagement.ts:81-93 | without a file or a usable read nothing changes; otherwise the picked file's record is appended and made active |
| FileManagement.TabStore.CloseFile | src/hooks/useFileManagement.ts:53-79 | the only record is replaced by a fresh blank one. Otherwise the records with the id are filtered out; closing the active record activates the last remaining one, and it crashes exactly when none remains |
| FileManagement.TabStore.Download | src/hooks/useFileManagement.ts:95-146 | the download equals `Export` of the store |
| Storage.StripRaw | src/utils/storage.ts:78 | the same records in the same order, with every field but the raw data |
| Storage.Snapshot | src/utils/storage.ts:76-82 | the saved value: the records without raw data, the active id, the tab and the session id; its round trip is `SaveThenLoad` |
| Storage.SaveEffect | src/utils/storage.ts:84-107 | the first write, else (on a quota error) a clear and one retry, else the error; its properties are `SaveThenLoad`, `FailedSaveWritesNothing` and `QuotaErrorClearsAndRetries` |
| Storage.LoadEffect | src/utils/storage.ts:111-131 | this session's snapshot is returned, another session's is removed, and a read error returns nothing; its properties are `LoadReturnsOnlyOwnSession` and `SaveThenLoad` |
| Storage.CleanupEffect | src/utils/storage.ts:36-45 | this session's snapshot is removed and nothing else; its property is `CleanupIsGuarded` |
| Storage.SessionIdFor | src/utils/storage.ts:22-30 | a stored non-empty id is reused; otherwise the id is "session_" followed by the time-and-random stamp; it is never empty |
| Storage.SaveThenLoad | src/utils/storage.ts:84-118 | after a save that resolves, the key holds exactly the snapshot, and a load in the same session returns it |
| Storage.FailedSaveWritesNothing | src/utils/storage.ts:85-107 | a rejected save leaves the store as it was, or empty after a failed retry; a non-quota error is rethrown with the store untouched |
| Storage.QuotaErrorClearsAndRetries | src/utils/storage.ts:86-103 | on a quota error: a failed clear is rethrown with the store unchanged; a successful retry leaves exactly the snapshot; a failed retry is rethrown with the store cleared |
| Storage.LoadReturnsOnlyOwnSession | src/utils/storage.ts:111-131 | a snapshot is returned exactly when one of this session is stored and readable; loading never writes; a readable snapshot of another session is removed |
| Storage.CleanupIsGuarded | src/utils/storage.ts:36-45 | cleanup touches no other key and removes only this session's snapshot |
| Storage.StripRawIdempotent | src/utils/storage.ts:78 | stripping raw data twice is stripping it once |
| Storage.Persistence.GetSessionId | src/utils/storage.ts:22-30 | returns `SessionIdFor` of the slot, which then holds it; IndexedDB is not touched |
| Storage.Persistence.SaveState | src/utils/storage.ts:69-109 | the store and the outcome are those of `SaveEffect` for the snapshot of the inputs |
| Storage.Persistence.LoadState | src/utils/storage.ts:111-131 | the store and the result are those of `LoadEffect` for this session's id |
| Storage.Persistence.Cleanup | src/utils/storage.ts:36-45 | the store becomes `CleanupEffect` of the old one, and the session slot stays |
| Storage.Persistence.ClearState | src/utils/storage.ts:133-139 | the key is removed unless removing throws, and the error is swallowed |
| Storage.SaveThenLoadInOneTab | src/utils/storage.ts:69-131 | saving and then loading in one tab returns the snapshot that was saved |
| StorageHook.RestoredActiveId | src/hooks/useStorage.ts:36-38 | the saved active id, else the first saved record's id, else "" (both directions) |
| StorageHook.RestoredTab | src/hooks/useStorage.ts:39 | the saved tab, else the write tab |
| StorageHook.RestoredActiveIdExists | src/hooks/useStorage.ts:34-38 | a snapshot whose active id named a record, or was empty while records were saved, restores an active id that names a record |
| StorageHook.DefaultFile | src/hooks/useStorage.ts:15-21 | the welcome record: id "1", the welcome text, Markdown, no raw data, and a name ending in ".md", so its stated type is the detected one |
| StorageHook.Workspace.constructor | src/hooks/useStorage.ts:24-27 | no records, no active id, the write tab, not initialised |
| StorageHook.Workspace.LoadInitialState | src/hooks/useStorage.ts:30-53 | a snapshot restores the records, the active id and the tab; no snapshot or an exception opens the welcome document as "1"; every path ends initialised |
| StorageHook.Workspace.Start | src/hooks/useStorage.ts:30-53 | startup loads through `LoadState`; a snapshot restores the records, the active id and the tab; no snapshot opens the welcome document and keeps the tab |
| StorageHook.Workspace.AutoSave | src/hooks/useStorage.ts:56-68 | nothing is written before initialisation; afterwards the store is that of saving the current state, whatever the outcome, and the session slot holds the session id the save used |
| Toolbar.Clamp | src/components/toolbar.tsx:40-42 | a position clamped into the string, unchanged when already inside |
| Toolbar.Substring | src/components/toolbar.tsx:40-42 | `substring` is the ordinary slice for ordered in-range ends, and never longer than the string |
| Toolbar.InsertSyntax | src/components/toolbar.tsx:32-52 | an edit is made exactly when there is a textarea |
| Toolbar.InsertSyntaxWraps | src/components/toolbar.tsx:36-50 | for a selection inside the text: the new text is before + prefix + selection + suffix + after; it grows by exactly the two markers; the new selection covers the old selected text |
| Toolbar.InsertSyntaxUndo | src/components/toolbar.tsx:40-44 | cutting the inserted prefix and suffix out of the new text gives back the content |
| Toolbar.Press | src/components/toolbar.tsx:55-94 | Clear always empties the content; the other buttons update the content exactly when there is a textarea |
| Toolbar.Markup | src/components/toolbar.tsx:55-91 | every formatting button has a non-empty prefix; the suffix is empty exactly for Heading, Quote and List |
| Toolbar.LineMarkersInsertOnlyPrefix | src/components/toolbar.tsx:66-80 | Heading, Quote and List insert their marker before the selection and nothing else |
| Toolbar.PairedMarkersWrap | src/components/toolbar.tsx:55-91 | Bold, Italic, Code Block and Link wrap the selection between two non-empty markers |
| Content.FirstSpace | src/components/content.tsx:31 | the first white-space position, with none before it |
| Content.SpaceRunEnd | src/components/content.tsx:31 | the end of a maximal run of white space |
| Content.SplitOnSpace | src/components/content.tsx:31 | `split(/\s+/)` yields at least one piece |
| Content.SplitPiecesLackSpace | src/components/content.tsx:31 | no piece of `split(/\s+/)` contains white space |
| Content.CharCount | src/components/content.tsx:30 | `content.length`, zero exactly for empty content |
| Content.SplitCountIsRunCount | src/components/content.tsx:31 | the non-empty pieces of the split are as many as the maximal runs of non-space characters |
| Content.WordCount | src/components/content.tsx:31 | the word count is the number of maximal runs of non-space characters |
| Content.BlankHasNoWords | src/components/content.tsx:31 | empty or all-white-space content counts no words |
| Content.WordsAtMostChars | src/components/content.tsx:30-31 | never more words than characters |
| RtfEditor.ConvertNodesConcat | src/components/rtf-editor.tsx:99 | converting a list is converting its parts and concatenating |
| RtfEditor.ConvertNode | src/components/rtf-editor.tsx:66-94 | `convertNode`: strings as they are, paragraphs in `<p>`, text runs wrapped bold, then italic, then underline, and other nodes by their content; its properties are `FormattingNests` and `ConvertKeepsText` |
| RtfEditor.ConvertNodes | src/components/rtf-editor.tsx:76 | `map(convertNode).join("")`; its properties are `ConvertNodesConcat` and `ConvertsKeepText` |
| RtfEditor.ParagraphsHtml | src/components/rtf-editor.tsx:102-109 | each paragraph's content converted inside `<p>`, joined; its property is `ParagraphsAsNodes` |
| RtfEditor.FormattingNests | src/components/rtf-editor.tsx:80-85 | with all three flags, underline is outermost and bold innermost |
| RtfEditor.ConvertKeepsText | src/components/rtf-editor.tsx:66-94 | removing the tags from `convertNode`'s HTML gives the tree's text in order, and no tag is left open |
| RtfEditor.ConvertsKeepText | src/components/rtf-editor.tsx:89 | the same for a list of nodes |
| RtfEditor.ParagraphsAsNodes | src/components/rtf-editor.tsx:100-109 | the paragraph list converts exactly like the same paragraphs as paragraph nodes |
| RtfEditor.DocHtml | src/components/rtf-editor.tsx:96-123 | `content` first, then non-empty `paragraphs`, then the fallback text; a content list that converts to nothing, an empty paragraph list or an empty fallback shows "<p></p>"; the result is never empty |
| RtfEditor.CallbackMessage | src/components/rtf-editor.tsx:48 | the parser's error message, or "Failed to parse RTF" when it is empty; used in `ParseFile` |
| RtfEditor.ParagraphsStartWithP | src/components/rtf-editor.tsx:100-109 | a non-empty paragraph list gives HTML that starts with a paragraph |
| RtfEditor.RtfElement | src/components/rtf-editor.tsx:162-172 | `\par ` before a paragraph, a `{\b`, `{\i` or `{\ul` group around bold, italic and underline; other elements are transparent, only their converted children remain; its property is `RtfElementBalanced` |
| RtfEditor.ToRtf | src/components/rtf-editor.tsx:152-176 | `convertToRTF`: text as it is, elements by their lower-cased tag, other nodes as nothing; its property is `ToRtfBalanced` |
| RtfEditor.ToRtfs | src/components/rtf-editor.tsx:160 | the children converted and joined; its property is `ToRtfsBalanced` |
| RtfEditor.BalancedCounts | src/components/rtf-editor.tsx:146-179 | balanced RTF, in which every '}' closes an earlier '{', holds as many '}' as '{' |
| RtfEditor.CloseBeforeOpenIsUnbalanced | src/components/rtf-editor.tsx:146-179 | equal counts are not enough: "}{" is not balanced |
| RtfEditor.RtfElementBalanced | src/components/rtf-editor.tsx:162-172 | each element's RTF is balanced when its content is |
| RtfEditor.ToRtfBalanced | src/components/rtf-editor.tsx:152-176 | without braces in the text, every group the converter opens it closes, and no '}' comes before its '{' |
| RtfEditor.ToRtfsBalanced | src/components/rtf-editor.tsx:160 | the same for a list of children |
| RtfEditor.DocumentBalanced | src/components/rtf-editor.tsx:146-179 | the header and the trailer wrap the body in one more group, so the document is balanced whenever the body is |
| RtfEditor.BraceInTextUnbalances | src/components/rtf-editor.tsx:153-154 | text is not escaped, so a brace in a paragraph unbalances the RTF |
| RtfEditor.RtfView.ParseFile | src/components/rtf-editor.tsx:28-133 | blank content shows nothing and skips the parser. A document shows `DocHtml`. A callback error shows the fallback, with its message or the default one. A throw shows the raw content in `<pre>` with its message. Loading ends on every path |
| RtfEditor.RtfView.EditorChange | src/components/rtf-editor.tsx:139-183 | shows the edited HTML; the RTF is header + converted body + trailer, and is balanced when the text has no braces |
| PdfReader.PdfSource | src/components/pdf-reader.tsx:30-64 | raw data gives the bytes it stands for; otherwise the decoded content, or the error it ends with |
| PdfReader.PdfSourceOfImported | src/components/pdf-reader.tsx:31-63 | an imported PDF is shown from the bytes that were read, with or without its raw buffer |
| PdfReader.PdfSourceOfBase64 | src/components/pdf-reader.tsx:48-55 | content that is plain Base64 is decoded whole |
| PdfReader.EncodeIsNoDataUri | src/components/pdf-reader.tsx:46 | Base64 text never starts with "data:" |
| PdfReader.PrevPage | src/components/pdf-reader.tsx:87-89 | never below page 1; one page back from any later page; page 1 (or below) goes to page 1 |
| PdfReader.NextPage | src/components/pdf-reader.tsx:91-93 | no move while the page count is unknown or 0; never past the last page; one page on before it; the last page (or beyond) goes to the last page |
| PdfReader.NavigateStaysInRange | src/components/pdf-reader.tsx:87-93 | from a page of the document, every sequence of clicks stays within the document |
| PdfReader.BackAndForthReturns | src/components/pdf-reader.tsx:87-93 | inside the document, Forward undoes Back and Back undoes Forward |
| PdfReader.PdfView.constructor | src/components/pdf-reader.tsx:16-20 | no page count, page 1, loading, no error, no data |
| PdfReader.PdfView.LoadPdf | src/components/pdf-reader.tsx:25-71 | on success the renderer's data is a copy of `PdfSource`'s bytes and loading continues; on failure its message is shown, loading stops and the old data stays |
| PdfReader.PdfView.OnLoadSuccess | src/components/pdf-reader.tsx:76-80 | the page count is known, page 1 is shown, loading stops, and the page is in range |
| PdfReader.PdfView.OnLoadError | src/components/pdf-reader.tsx:82-85 | the renderer's message, or the default one when it is empty; loading stops |
| PdfReader.PdfView.GoToPrevPage | src/components/pdf-reader.tsx:87-89 | the page becomes `PrevPage` of the old one, and stays in range |
| PdfReader.PdfView.GoToNextPage | src/components/pdf-reader.tsx:91-93 | the page becomes `NextPage` of the old one, and stays in range |
| PdfReader.CopyInto | src/components/pdf-reader.tsx:41-42 | the fresh buffer ends up holding the source bytes |
| WordReader.WordSourceAsWritten | src/components/word-reader.tsx:20-49 | a whole buffer is passed on as it is, a view as its entire backing buffer, and content as `ContentBytes` |
| WordReader.WordSource | src/components/word-reader.tsx:20-49 | the corrected choice: the bytes the raw data stands for, and content as `ContentBytes` |
| WordReader.WordSourceExposesWholeBuffer | src/components/word-reader.tsx:22-25 | a one-byte view into a three-byte buffer passes on all three bytes instead of the one |
| WordReader.WordSourcesAgree | src/components/word-reader.tsx:22-25 | the two choices agree on whole buffers, on full views and without raw data |
| WordReader.IsDocx | src/components/word-reader.tsx:52 | `name.toLowerCase().endsWith(".docx")`; a passing name has a dot five characters from its end |
| WordReader.DocxGateImpliesExtension | src/components/word-reader.tsx:52 | a name that passes the `.docx` test has the extension "docx", so it is a Word file |
| WordReader.ExtensionImpliesDocxGate | src/components/word-reader.tsx:52 | a name with the extension "docx" and something before it passes the test |
| WordReader.DocIsRefused | src/components/word-reader.tsx:52-68 | a name with the extension "doc" in any case fails the `.docx` test |
| WordReader.ThrownMessage | src/components/word-reader.tsx:69-70 | an `Error`'s message, else the default |
| WordReader.WordSourceOfImported | src/components/word-reader.tsx:20-49 | an imported Word record hands the converter the bytes that were read, with or without its raw buffer, under both choices |
| WordReader.WordOutcome | src/components/word-reader.tsx:15-74 | with the bytes chosen as the code does: a failed decode shows its error, a name that is not `.docx` shows the conversion hint, and a converter exception shows its message or the default |
| WordReader.ShownHtmlIsConverted | src/components/word-reader.tsx:20-61 | with the bytes chosen as the code does, HTML is shown exactly for a `.docx` name whose bytes were recovered and converted, and it is the converter's HTML for those bytes |
| WordReader.DocRecordIsRefused | src/components/word-reader.tsx:62-68 | an imported `.doc` record is refused with the conversion hint, whatever the converter would do |
| WordReader.WordView.constructor | src/components/word-reader.tsx:10-12 | no HTML, loading, no error |
| WordReader.WordView.LoadWordDocument | src/components/word-reader.tsx:15-74 | the bytes are chosen as the code does (a view hands over its whole backing buffer); success shows the converter's HTML and clears the error; failure shows the message and keeps the earlier HTML; loading ends |
| DragAndDrop.OnOrInsideIsNotOutside | src/hooks/useDragAndDrop.ts:27 | the leave test fails exactly for points on or inside the container's rectangle |
| DragAndDrop.FirstDropped | src/hooks/useDragAndDrop.ts:37-40 | a file is processed exactly when something was dropped, and it is the first one |
| DragAndDrop.Outside | src/hooks/useDragAndDrop.ts:27 | the leave test: strictly beyond one of the rectangle's edges; its property is `OnOrInsideIsNotOutside` |
| DragAndDrop.DropIgnoresTheRest | src/hooks/useDragAndDrop.ts:38-40 | the files after the first never matter |
| DragAndDrop.DragState.constructor | src/hooks/useDragAndDrop.ts:10 | not dragging at first |
| DragAndDrop.DragState.DragOver | src/hooks/useDragAndDrop.ts:12-18 | the overlay is on afterwards |
| DragAndDrop.DragState.DragLeave | src/hooks/useDragAndDrop.ts:20-30 | the overlay goes off exactly when the pointer is outside the container |
| DragAndDrop.DragState.Drop | src/hooks/useDragAndDrop.ts:32-42 | the overlay goes off; the first file's record, once read, is appended and made active; otherwise the store is unchanged |

## Left out

- **Browser side effects** are outside the model: the DOM, `preventDefault`
  and `stopPropagation`, focus, and `console` logging. So are the
  `setTimeout` that restores the selection and the page's event listeners
  (`beforeunload`, `visibilitychange`, `pagehide`). The timers and listeners
  only decide when `cleanup` runs; `Cleanup` itself is modelled.
- **Asynchrony and races are not modelled.** The model covers overlapping
  loads and saves, and readers' effects finishing after the record changes,
  only one step at a time.
- **Outside libraries and browser services are inputs.** These are
  FileReader, IndexedDB (the localforage instance and its driver setup),
  `marked`, the react-pdf renderer, the mammoth converter, the rtf-parser
  library, and the browser's HTML parsing.
- **`Date.now()` and `Math.random()`** appear only as the id and stamp
  strings they produce, and those strings are parameters.
- **Aliasing of `ArrayBuffer` objects is not modelled.** That includes
  buffers being detached, and shared buffers like the one the PDF reader
  copies to avoid. Raw data is modelled as values.
- **UI-only code is not modelled**: the pane resizer and screen-size
  detection, the tab bar component, and the loading and error views. The
  content editor's `onChange`, which forwards the text to `UpdateContent`,
  is not modelled either.
- **Blob byte encoding is left out.** A text download is modelled as its
  string and media type, not as the UTF-8 bytes the `Blob` holds.
- **The failure of `btoa` is modelled but unreachable from the import.**
  `Base64.Btoa` fails on a character whose code is 256 or more, as `btoa`
  throws. The call at src/utils/fileProcessor.ts:25 always gets a binary
  string, so `processFile` never meets that failure.
- **The PDF reader's "Failed to load PDF" default is not modelled.** It
  applies only to throws that are not `Error`s, and no path in the model
  throws one.
- JsString.ToLower: lower-cases ASCII letters only, while `toLowerCase`
  follows the Unicode case tables. Non-ASCII names may therefore classify
  differently.
- Content.CharCount: counts Unicode scalar values, while `length` counts
  UTF-16 code units. Characters outside the Basic Multilingual Plane count
  once here and twice in the source.
- RtfEditor.DocHtml: the regular-expression fallback text at
  src/components/rtf-editor.tsx:50-58 and 112-120 is an input, not
  computed.
- RtfEditor.RtfView.ParseFile: the parser's callback is modelled as if it
  runs synchronously, inside the `try`.

## Findings

The Word reader's state (`WordOutcome`, `LoadWordDocument`) follows the code
as written. The corrected choice `WordSource` is proved to agree with it on
every record the import produces (`WordSourceOfImported`) and on whole-buffer
views (`WordSourcesAgree`).

| source | as written | input that shows it | evidently intended | confidence | as-written member | corrected member |
|---|---|---|---|---|---|---|
| src/components/word-reader.tsx:22-25 | a `Uint8Array` view in `rawData` is passed to the converter as its `.buffer`, which is the whole backing buffer and ignores `byteOffset` and `byteLength` | `rawData` = a view of 1 byte at offset 1 in the buffer [1, 2, 3]: the converter gets [1, 2, 3] | the converter gets the viewed bytes, [2], as the PDF reader and the export do | low, not executed; imports today store whole buffers | WordReader.WordSourceAsWritten, WordReader.WordSourceExposesWholeBuffer | WordReader.WordSource, WordReader.WordSourcesAgree |
