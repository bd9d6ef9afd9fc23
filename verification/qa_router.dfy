/**
 * The question-answering endpoint (backend/routers/qa.py, `qa_endpoint`): resolve the
 * requested documents in the in-memory store, retrieve the most relevant passages across
 * them, refuse when the evidence is too thin, and otherwise let the generator answer from
 * the passages. The store is an input only: the endpoint has no way to change it.
 */
module QaRouter {
  import opened Wrappers
  import opened PyStr
  import opened Http
  import Documents
  import Retrieval
  import Generation
  import UploadRouter

  /** The body of a question: the documents to ask and the question itself. */
  datatype QuestionRequest = QuestionRequest(docIds: seq<string>, question: string)

  /** The answer and the passages it was generated from. */
  datatype QaResponse = QaResponse(answer: string, contextChunks: seq<string>)

  /** Passages retrieved per document. */
  const KPerDoc: int := 5

  /** Passages kept after the global ranking. */
  const MaxChunks: int := 5

  /** Joined evidence shorter than this, once stripped, is not enough to answer from. */
  const MinEvidenceLength: nat := 50

  /** Status of an unknown document id. */
  const NotFound: int := 404

  /** Start of the detail message naming an unknown document id. */
  const NotFoundPrefix: string := "Doküman bulunamadı: "

  /** Looks every id up in the store, in request order; the first unknown id fails the
      whole request with 404. */
  function Resolve(store: UploadRouter.Store, ids: seq<string>): (r: Result<seq<Documents.Document>, HttpError>)
    ensures r.Success? <==> forall i :: 0 <= i < |ids| ==> ids[i] in store
    ensures r.Success? ==> |r.value| == |ids| && forall i :: 0 <= i < |ids| ==> r.value[i] == store[ids[i]]
    ensures r.Failure? ==> exists i ::
      && 0 <= i < |ids| && FirstMissing(store, ids, i)
      && r.error == HttpError(NotFound, NotFoundPrefix + ids[i])
  {
    if ids == [] then Success([])
    else if ids[0] !in store then
      assert FirstMissing(store, ids, 0);
      Failure(HttpError(NotFound, NotFoundPrefix + ids[0]))
    else
      var rest := Resolve(store, ids[1..]);
      if rest.Failure? then
        var i :| 0 <= i < |ids[1..]| && FirstMissing(store, ids[1..], i)
          && rest.error == HttpError(NotFound, NotFoundPrefix + ids[1..][i]);
        assert FirstMissing(store, ids, i + 1);
        Failure(rest.error)
      else
        Success([store[ids[0]]] + rest.value)
  }

  /** `ids[i]` is the first id, in request order, that the store does not hold. */
  predicate FirstMissing(store: UploadRouter.Store, ids: seq<string>, i: nat)
    requires i < |ids|
  {
    ids[i] !in store && forall j :: 0 <= j < i ==> ids[j] in store
  }

  /** Whether the retrieved passages are worth answering from: some passage, and at least
      fifty characters of them once joined by spaces and stripped. */
  predicate HasEvidence(contexts: seq<string>) {
    contexts != [] && |Strip(Join(" ", contexts))| >= MinEvidenceLength
  }

  /** The passages retrieved for a request whose documents all resolved. */
  function Contexts(docs: seq<Documents.Document>, question: string,
                    faiss: Retrieval.Neighbours, score: Retrieval.Similarity): seq<string> {
    Retrieval.Retrieve(question, docs, KPerDoc, MaxChunks, faiss, score)
  }

  /** `qa_endpoint`. */
  function QaEndpoint(store: UploadRouter.Store, request: QuestionRequest,
                      faiss: Retrieval.Neighbours, score: Retrieval.Similarity,
                      llm: string -> string): (r: Result<QaResponse, HttpError>)
    ensures r.Failure? <==> Resolve(store, request.docIds).Failure?
    ensures r.Failure? ==> r.error == Resolve(store, request.docIds).error && r.error.status == NotFound
    ensures r.Success? ==>
      var contexts := Contexts(Resolve(store, request.docIds).value, request.question, faiss, score);
      && (!HasEvidence(contexts) ==> r.value == QaResponse(Generation.Sentinel, []))
      && (HasEvidence(contexts) ==>
            r.value == QaResponse(Generation.Generate(request.question, contexts, llm), contexts))
    ensures r.Success? ==> |r.value.contextChunks| <= MaxChunks
    ensures r.Success? ==>
      || r.value.answer == Generation.Sentinel
      || (|r.value.answer| >= Generation.MinAnswerLength && !Contains(r.value.answer, Generation.AnswerLabel))
  {
    var docs :- Resolve(store, request.docIds);
    var contexts := Contexts(docs, request.question, faiss, score);
    if !HasEvidence(contexts) then
      Success(QaResponse(Generation.Sentinel, []))
    else
      Success(QaResponse(Generation.Generate(request.question, contexts, llm), contexts))
  }

  /** The generator is consulted only when there is evidence: without it, or for an unknown
      document, the response does not depend on the language model at all. */
  lemma RefusalIgnoresModel(store: UploadRouter.Store, request: QuestionRequest,
                            faiss: Retrieval.Neighbours, score: Retrieval.Similarity,
                            llm1: string -> string, llm2: string -> string)
    requires Resolve(store, request.docIds).Success? ==>
      !HasEvidence(Contexts(Resolve(store, request.docIds).value, request.question, faiss, score))
    ensures QaEndpoint(store, request, faiss, score, llm1) == QaEndpoint(store, request, faiss, score, llm2)
  {
  }

  /** An unknown document fails the request before anything is retrieved or generated: the
      response depends on none of the oracles. */
  lemma UnknownDocumentFailsFirst(store: UploadRouter.Store, request: QuestionRequest,
                                  faiss1: Retrieval.Neighbours, score1: Retrieval.Similarity, llm1: string -> string,
                                  faiss2: Retrieval.Neighbours, score2: Retrieval.Similarity, llm2: string -> string)
    requires exists i :: 0 <= i < |request.docIds| && request.docIds[i] !in store
    ensures QaEndpoint(store, request, faiss1, score1, llm1).Failure?
    ensures QaEndpoint(store, request, faiss1, score1, llm1) == QaEndpoint(store, request, faiss2, score2, llm2)
  {
  }

  /** Evidence alone does not guarantee an answer: a model that says nothing still yields the
      sentinel, now alongside the passages it was shown. */
  lemma SilentModelRefusesWithEvidence(store: UploadRouter.Store, request: QuestionRequest,
                                       faiss: Retrieval.Neighbours, score: Retrieval.Similarity)
    requires Resolve(store, request.docIds).Success?
    requires HasEvidence(Contexts(Resolve(store, request.docIds).value, request.question, faiss, score))
    ensures var r := QaEndpoint(store, request, faiss, score, p => "");
      && r.Success? && r.value.answer == Generation.Sentinel
      && r.value.contextChunks != []
  {
    var contexts := Contexts(Resolve(store, request.docIds).value, request.question, faiss, score);
    var decoded := (p => "")(Generation.Prompt(request.question, contexts));
    assert decoded == "";
    assert |Generation.ExtractAnswer(decoded)| < Generation.MinAnswerLength;
  }

  /** The passages shown to the user are passages of the documents the request named. */
  lemma EvidenceFromRequestedDocuments(store: UploadRouter.Store, request: QuestionRequest,
                                       faiss: Retrieval.Neighbours, score: Retrieval.Similarity,
                                       llm: string -> string)
    requires UploadRouter.ValidStore(store)
    requires QaEndpoint(store, request, faiss, score, llm).Success?
    ensures forall t :: t in QaEndpoint(store, request, faiss, score, llm).value.contextChunks ==>
      exists i :: 0 <= i < |request.docIds| && t in store[request.docIds[i]].chunks
  {
    var docs := Resolve(store, request.docIds).value;
    Retrieval.RetrievedAreChunks(request.question, docs, KPerDoc, MaxChunks, faiss, score);
  }

  /** A document just uploaded can be asked about at once: its identifier resolves to it. */
  lemma UploadedDocumentResolves(store: UploadRouter.Store, file: Option<string>, content: seq<byte>,
                                 pdf: UploadRouter.Parser, docx: UploadRouter.Parser,
                                 split: string -> Result<seq<string>, string>, freshId: string)
    requires UploadRouter.Upload(store, file, content, pdf, docx, split, freshId).reply.Success?
    ensures var s := UploadRouter.Upload(store, file, content, pdf, docx, split, freshId).store;
      && Resolve(s, [freshId]).Success?
      && Resolve(s, [freshId]).value == [s[freshId]]
      && Documents.Valid(s[freshId])
  {
  }
}
