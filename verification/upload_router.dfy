/**
 * The upload endpoint (backend/routers/documents.py, `upload_document`) and the text
 * extraction it dispatches to (backend/services/document_service.py,
 * `extract_text_from_file`). The in-memory store of documents is passed in and the updated
 * store is handed back; PDF and DOCX parsing, the chunker and the fresh identifier are
 * parameters.
 */
module UploadRouter {
  import opened Wrappers
  import opened PyStr
  import opened Http
  import Documents

  /** `DOCUMENT_STORE`: documents by identifier. */
  type Store = map<string, Documents.Document>

  /** Every document in the store was built from cleaned passages. */
  predicate ValidStore(store: Store) {
    forall id :: id in store ==> Documents.Valid(store[id])
  }

  /** The name given to an upload that has none. */
  const DefaultFileName: string := "document"

  /** The extensions an upload may have. */
  const AllowedExtensions: seq<string> := ["pdf", "docx"]

  /** Status and detail of an upload whose extension is not allowed. */
  const BadRequest: int := 400
  const UnsupportedMessage: string := "Sadece PDF ve DOCX dosyaları destekleniyor."

  /** Status and start of the detail of an upload that could not be processed. */
  const ServerError: int := 500
  const ProcessingErrorPrefix: string := "Dosya işlenirken hata oluştu: "

  /** Start of the message of the extractor's own format check. */
  const UnsupportedFormatPrefix: string := "Desteklenmeyen dosya formatı: "

  /** The upload's name, `file.filename or "document"`. */
  function FileName(file: Option<string>): (name: string)
    ensures name != ""
    ensures file.Some? && file.value != "" ==> name == file.value
    ensures file.None? || file.value == "" ==> name == DefaultFileName
  {
    if file.Some? && file.value != "" then file.value else DefaultFileName
  }

  /** The lower-cased text after the last "." of the name, or "" when it has no ".". */
  function Extension(name: string): (ext: string)
    ensures '.' !in name ==> ext == ""
    ensures '.' !in ext && IsLower(ext)
    ensures '.' in name ==> exists k ::
      && 0 <= k < |name| && name[k] == '.'
      && '.' !in name[k + 1..] && ext == Lower(name[k + 1..])
  {
    if '.' in name then
      var last := SplitLast(name, ".");
      ContainsChar(name, '.');
      ContainsChar(last, '.');
      var k := |name| - |last| - 1;
      assert name[k..k + 1] == ".";
      assert name[k] == '.';
      assert name[k + 1..] == last;
      LowerIsLower(last);
      Lower(last)
    else
      ""
  }

  /** The extension of `stem.ext` is `ext`, lower-cased, whatever dots the stem holds. */
  lemma ExtensionAfterLastDot(stem: string, ext: string)
    requires '.' !in ext
    ensures Extension(stem + "." + ext) == Lower(ext)
  {
    ContainsChar(ext, '.');
    assert "."[0] !in "."[1..];
    LastPieceAfterFinalSeparator(stem, ".", ext);
    assert (stem + "." + ext)[|stem|] == '.';
  }

  /** An upper-case PDF extension is accepted, whatever dots the stem holds. */
  lemma UpperCaseExtensionAccepted(stem: string)
    ensures Extension(stem + ".PDF") == "pdf"
    ensures Extension(stem + ".PDF") in AllowedExtensions
  {
    var ext := "PDF";
    assert ext[0] == 'P' && ext[1] == 'D' && ext[2] == 'F';
    assert stem + ".PDF" == stem + "." + ext;
    ExtensionAfterLastDot(stem, ext);
    LowerPdf();
  }

  /** Lower-casing the upper-case extension. */
  lemma LowerPdf()
    ensures Lower("PDF") == "pdf"
  {
    var l := Lower("PDF");
    assert l[0] == 'p' && l[1] == 'd' && l[2] == 'f';
  }

  /** A name without a dot has the empty extension, which is refused. */
  lemma NoDotRefused()
    ensures Extension("notes") == "" && Extension("notes") !in AllowedExtensions
  {
  }

  /** A parser of one file format: the text of a file, or the message of its error. */
  type Parser = seq<byte> -> Result<string, string>

  /** `extract_text_from_file`: the parser for the (case-insensitive) extension, or an
      error naming an extension it does not know. */
  function ExtractText(content: seq<byte>, ext: string, pdf: Parser, docx: Parser): (r: Result<string, string>)
    ensures Lower(ext) == "pdf" ==> r == pdf(content)
    ensures Lower(ext) == "docx" ==> r == docx(content)
    ensures Lower(ext) !in AllowedExtensions ==> r == Failure(UnsupportedFormatPrefix + Lower(ext))
  {
    var e := Lower(ext);
    if e == "pdf" then pdf(content)
    else if e == "docx" then docx(content)
    else Failure(UnsupportedFormatPrefix + e)
  }

  /** The extractor does not care about the case of the extension it is given. */
  lemma ExtractTextIgnoresCase(content: seq<byte>, ext: string, pdf: Parser, docx: Parser)
    ensures ExtractText(content, Lower(ext), pdf, docx) == ExtractText(content, ext, pdf, docx)
  {
    LowerIsLower(ext);
    assert Lower(Lower(ext)) == Lower(ext);
  }

  /** On the upload path the extractor's own format check never fires: an extension the
      endpoint lets through is handed to its parser, so the "Desteklenmeyen dosya formatı: "
      error cannot reach the client. */
  lemma UploadNeverHitsFormatCheck(file: Option<string>, content: seq<byte>, pdf: Parser, docx: Parser)
    requires Extension(FileName(file)) in AllowedExtensions
    ensures var ext := Extension(FileName(file));
      ExtractText(content, ext, pdf, docx) == if ext == "pdf" then pdf(content) else docx(content)
  {
    var ext := Extension(FileName(file));
    assert Lower(ext) == ext;
  }

  /** What a successful processing yields: the raw chunks and the document built from them. */
  datatype Processed = Processed(chunks: seq<string>, doc: Documents.Document)

  /** The steps inside the `try`: extract the text, chunk it and build the document; the
      first step that fails gives the error message. */
  function Process(content: seq<byte>, ext: string, pdf: Parser, docx: Parser,
                   split: string -> Result<seq<string>, string>): (r: Result<Processed, string>)
    ensures r.Success? ==> Documents.Valid(r.value.doc) && r.value.doc.chunks == Documents.Cleaned(r.value.chunks)
    ensures r.Success? ==>
      && ExtractText(content, ext, pdf, docx).Success?
      && split(ExtractText(content, ext, pdf, docx).value) == Success(r.value.chunks)
    ensures ExtractText(content, ext, pdf, docx).Success?
      && split(ExtractText(content, ext, pdf, docx).value).Success?
      && (exists c :: c in split(ExtractText(content, ext, pdf, docx).value).value && Documents.Keep(c))
      ==> r.Success?
    ensures ExtractText(content, ext, pdf, docx).Failure? ==> r == Failure(ExtractText(content, ext, pdf, docx).error)
    ensures ExtractText(content, ext, pdf, docx).Success?
      && split(ExtractText(content, ext, pdf, docx).value).Success?
      && (forall c :: c in split(ExtractText(content, ext, pdf, docx).value).value ==> !Documents.Keep(c))
      ==> r == Failure(Documents.EmptyDocumentMessage)
  {
    var text :- ExtractText(content, ext, pdf, docx);
    var chunks :- split(text);
    var doc :- Documents.NewDocument(chunks);
    Success(Processed(chunks, doc))
  }

  /** The body of a successful upload. */
  datatype UploadReply = UploadReply(docId: string, filename: string, numChars: nat)

  /** The store after the upload, and the reply or the HTTP error. */
  datatype UploadOutcome = UploadOutcome(store: Store, reply: Result<UploadReply, HttpError>)

  /** `upload_document`, with `freshId` standing for the generated uuid. */
  function Upload(store: Store, file: Option<string>, content: seq<byte>, pdf: Parser, docx: Parser,
                  split: string -> Result<seq<string>, string>, freshId: string): (o: UploadOutcome)
    ensures var ext := Extension(FileName(file));
      o.reply.Success? <==> ext in AllowedExtensions && Process(content, ext, pdf, docx, split).Success?
    ensures Extension(FileName(file)) !in AllowedExtensions ==>
      o.reply == Failure(HttpError(BadRequest, UnsupportedMessage))
    ensures var ext := Extension(FileName(file));
      ext in AllowedExtensions && Process(content, ext, pdf, docx, split).Failure? ==>
        o.reply == Failure(HttpError(ServerError, ProcessingErrorPrefix + Process(content, ext, pdf, docx, split).error))
    ensures o.reply.Failure? ==> o.store == store
    ensures o.reply.Success? ==>
      var p := Process(content, Extension(FileName(file)), pdf, docx, split).value;
      && o.reply.value == UploadReply(freshId, FileName(file), |p.chunks|)
      && o.store == store[freshId := p.doc]
  {
    var name := FileName(file);
    var ext := Extension(name);
    if ext !in AllowedExtensions then
      UploadOutcome(store, Failure(HttpError(BadRequest, UnsupportedMessage)))
    else
      var processed := Process(content, ext, pdf, docx, split);
      if processed.Failure? then
        UploadOutcome(store, Failure(HttpError(ServerError, ProcessingErrorPrefix + processed.error)))
      else
        var p := processed.value;
        UploadOutcome(store[freshId := p.doc], Success(UploadReply(freshId, name, |p.chunks|)))
  }

  /** A disallowed extension is refused before the file is read: the outcome depends on
      neither the content nor any parser, chunker or identifier. */
  lemma RejectionIgnoresContent(store: Store, file: Option<string>,
                                content1: seq<byte>, pdf1: Parser, docx1: Parser,
                                split1: string -> Result<seq<string>, string>, id1: string,
                                content2: seq<byte>, pdf2: Parser, docx2: Parser,
                                split2: string -> Result<seq<string>, string>, id2: string)
    requires Extension(FileName(file)) !in AllowedExtensions
    ensures Upload(store, file, content1, pdf1, docx1, split1, id1)
         == Upload(store, file, content2, pdf2, docx2, split2, id2)
    ensures Upload(store, file, content1, pdf1, docx1, split1, id1).store == store
  {
  }

  /** A successful upload under a fresh identifier adds exactly one entry, holding a
      document of cleaned passages, and leaves every other entry as it was. */
  lemma UploadAddsOneEntry(store: Store, file: Option<string>, content: seq<byte>, pdf: Parser, docx: Parser,
                           split: string -> Result<seq<string>, string>, freshId: string)
    requires freshId !in store
    requires Upload(store, file, content, pdf, docx, split, freshId).reply.Success?
    ensures var s := Upload(store, file, content, pdf, docx, split, freshId).store;
      && s.Keys == store.Keys + {freshId}
      && |s.Keys| == |store.Keys| + 1
      && (forall id :: id in store ==> s[id] == store[id])
      && Documents.Valid(s[freshId])
  {
    var s := Upload(store, file, content, pdf, docx, split, freshId).store;
    assert s.Keys == store.Keys + {freshId};
  }

  /** Uploads keep every stored document well formed. */
  lemma UploadKeepsStoreValid(store: Store, file: Option<string>, content: seq<byte>, pdf: Parser, docx: Parser,
                              split: string -> Result<seq<string>, string>, freshId: string)
    requires ValidStore(store)
    ensures ValidStore(Upload(store, file, content, pdf, docx, split, freshId).store)
  {
  }

  /** The reported `num_chars` counts the raw chunks, which is never fewer than the passages
      stored. */
  lemma NumCharsCountsRawChunks(store: Store, file: Option<string>, content: seq<byte>, pdf: Parser, docx: Parser,
                                split: string -> Result<seq<string>, string>, freshId: string)
    requires Upload(store, file, content, pdf, docx, split, freshId).reply.Success?
    ensures var o := Upload(store, file, content, pdf, docx, split, freshId);
      o.reply.value.numChars >= |o.store[freshId].chunks|
  {
    var p := Process(content, Extension(FileName(file)), pdf, docx, split).value;
    Documents.CleanedNoLonger(p.chunks);
  }
}
