/**
 * The backend's `POST /search` handler: trim the query, refuse an empty one
 * with 400, embed it, ask the store for the `top_k` nearest points and turn
 * each into a result, mapping every upstream failure to 502. The embedding
 * service and the store's search are given functions; the handler's answer
 * comes with the upstream requests it made, in order.
 */
module Search {
  import opened Wrappers
  import opened Strings
  import opened VectorStore
  import opened Embedding
  import opened Chunking
  import Indexing

  /** How many results a request asks for when it does not say. */
  const DefaultTopK: int := 5

  /** The request body. `top_k` is any integer: the handler does not range-check it. */
  datatype SearchRequest = SearchRequest(query: string, topK: int := DefaultTopK)

  /** The payload fields the handler reads from a hit; each may be absent. */
  datatype HitPayload = HitPayload(file: Option<string>, paragraphIndex: Option<int>, text: Option<string>)

  /** A hit as the store returns it; its score and its payload may be missing. */
  datatype ScoredPoint = ScoredPoint(id: nat, score: Option<real>, payload: Option<HitPayload>)

  datatype SearchResult = SearchResult(score: real, file: string, paragraphIndex: int, text: string)

  datatype SearchResponse = SearchResponse(results: seq<SearchResult>)

  /** The `detail` of an HTTPException the handler raises. */
  datatype ErrorDetail =
    | EmptyQuery               // "Query text is empty."
    | OllamaError(code: int)   // raised by get_embedding on an error status
    | EmbeddingFailed          // any other failure while embedding
    | StoreSearchFailed        // the store's search raised

  datatype HttpError = HttpError(status: int, detail: ErrorDetail)

  /** A request the handler sends upstream. */
  datatype Upstream =
    | EmbedRequest(prompt: string)
    | StoreSearch(collection: string, vector: Vector, limit: int)

  /** The handler's answer and the upstream requests it made. */
  datatype Handled = Handled(response: Result<SearchResponse, HttpError>, upstream: seq<Upstream>)

  /** An empty payload: what `point.payload or {}` gives for a missing one. */
  const NoFields: HitPayload := HitPayload(None, None, None)

  /** `point_to_result`: each missing field falls back to its default. */
  function PointToResult(p: ScoredPoint): SearchResult {
    var payload := p.payload.GetOr(NoFields);
    SearchResult(p.score.GetOr(0.0), payload.file.GetOr(""), payload.paragraphIndex.GetOr(0), payload.text.GetOr(""))
  }

  /** `[point_to_result(p) for p in points]`. */
  function Results(points: seq<ScoredPoint>): (r: seq<SearchResult>)
    ensures |r| == |points|
    ensures forall k :: 0 <= k < |r| ==> r[k] == PointToResult(points[k])
  {
    seq(|points|, k requires 0 <= k < |points| => PointToResult(points[k]))
  }

  /** The HTTPException an embedding failure turns into. */
  function EmbeddingError(e: EmbedError): HttpError {
    match e
    case HttpStatus(code) => HttpError(502, OllamaError(code))
    case Transport => HttpError(502, EmbeddingFailed)
    case MissingEmbedding => HttpError(502, EmbeddingFailed)
  }

  /** The `search` handler, searching `collection`. */
  function HandleSearch(req: SearchRequest, collection: string, embed: string -> EmbedResult,
                        storeSearch: (string, Vector, int) -> Option<seq<ScoredPoint>>): Handled
  {
    var query := Strip(req.query);
    if query == [] then Handled(Failure(HttpError(400, EmptyQuery)), [])
    else
      match embed(query)
      case Failure(e) => Handled(Failure(EmbeddingError(e)), [EmbedRequest(query)])
      case Success(v) =>
        var upstream := [EmbedRequest(query), StoreSearch(collection, v, req.topK)];
        match storeSearch(collection, v, req.topK)
        case None => Handled(Failure(HttpError(502, StoreSearchFailed)), upstream)
        case Some(points) => Handled(Success(SearchResponse(Results(points))), upstream)
  }

  /* ---------------------------------------------------------------------
   * Properties
   * ------------------------------------------------------------------- */

  /** A request that leaves `top_k` out asks for five results. */
  lemma TopKDefault(query: string)
    ensures SearchRequest(query).topK == 5
  {
  }

  /**
   * The handler answers 400 exactly when the query is all whitespace, and
   * then it has asked nothing of the embedding service or the store.
   */
  lemma EmptyQueryRejected(req: SearchRequest, collection: string, embed: string -> EmbedResult,
                           storeSearch: (string, Vector, int) -> Option<seq<ScoredPoint>>)
    ensures var h := HandleSearch(req, collection, embed, storeSearch);
            && (h.response.Failure? && h.response.error.status == 400 <==> AllSpace(req.query))
            && (AllSpace(req.query) ==> h.response == Failure(HttpError(400, EmptyQuery)) && h.upstream == [])
  {
    StripEmptyIff(req.query);
  }

  /**
   * A query that is not all whitespace is embedded once, stripped, before
   * anything else; the store is searched at most once, in `collection`, with
   * that embedding and with `top_k` as the limit, unchanged.
   */
  lemma UpstreamRequests(req: SearchRequest, collection: string, embed: string -> EmbedResult,
                         storeSearch: (string, Vector, int) -> Option<seq<ScoredPoint>>)
    requires !AllSpace(req.query)
    ensures var h := HandleSearch(req, collection, embed, storeSearch);
            var query := Strip(req.query);
            && 1 <= |h.upstream| <= 2
            && h.upstream[0] == EmbedRequest(query)
            && (|h.upstream| == 2 <==> embed(query).Success?)
            && (|h.upstream| == 2 ==> h.upstream[1] == StoreSearch(collection, embed(query).value, req.topK))
  {
    StripEmptyIff(req.query);
  }

  /**
   * Every failure to embed is a 502: an error status from the service keeps
   * its code as an Ollama error, any other failure is reported as a failed
   * embedding. The store is not searched.
   */
  lemma EmbeddingFailureIs502(req: SearchRequest, collection: string, embed: string -> EmbedResult,
                              storeSearch: (string, Vector, int) -> Option<seq<ScoredPoint>>)
    requires !AllSpace(req.query) && embed(Strip(req.query)).Failure?
    ensures var h := HandleSearch(req, collection, embed, storeSearch);
            var e := embed(Strip(req.query)).error;
            && h.response.Failure? && h.response.error.status == 502
            && (e.HttpStatus? ==> h.response.error.detail == OllamaError(e.code))
            && (!e.HttpStatus? ==> h.response.error.detail == EmbeddingFailed)
            && h.upstream == [EmbedRequest(Strip(req.query))]
  {
    StripEmptyIff(req.query);
  }

  /** A store search that fails after a good embedding is a 502. */
  lemma StoreFailureIs502(req: SearchRequest, collection: string, embed: string -> EmbedResult,
                          storeSearch: (string, Vector, int) -> Option<seq<ScoredPoint>>)
    requires !AllSpace(req.query) && embed(Strip(req.query)).Success?
    requires storeSearch(collection, embed(Strip(req.query)).value, req.topK).None?
    ensures HandleSearch(req, collection, embed, storeSearch).response == Failure(HttpError(502, StoreSearchFailed))
  {
    StripEmptyIff(req.query);
  }

  /** The handler fails only with 400 or 502. */
  lemma FailureStatuses(req: SearchRequest, collection: string, embed: string -> EmbedResult,
                        storeSearch: (string, Vector, int) -> Option<seq<ScoredPoint>>)
    ensures var h := HandleSearch(req, collection, embed, storeSearch);
            h.response.Failure? ==> h.response.error.status == 400 || h.response.error.status == 502
  {
  }

  /**
   * The handler succeeds exactly when the query is not all whitespace and
   * both upstream calls succeed; then it returns one result per hit, in the
   * store's order, with no sorting or filtering of its own.
   */
  lemma SuccessFollowsStore(req: SearchRequest, collection: string, embed: string -> EmbedResult,
                            storeSearch: (string, Vector, int) -> Option<seq<ScoredPoint>>)
    ensures var h := HandleSearch(req, collection, embed, storeSearch);
            var query := Strip(req.query);
            && (h.response.Success? <==>
                  !AllSpace(req.query) && embed(query).Success?
                  && storeSearch(collection, embed(query).value, req.topK).Some?)
            && (h.response.Success? ==>
                  var points := storeSearch(collection, embed(query).value, req.topK).value;
                  && |h.response.value.results| == |points|
                  && forall k :: 0 <= k < |points| ==> h.response.value.results[k] == PointToResult(points[k]))
  {
    StripEmptyIff(req.query);
  }

  /** A hit with no payload, or with an empty one, gets the defaults "", 0 and "". */
  lemma MissingPayloadDefaults(p: ScoredPoint)
    requires p.payload.None? || p.payload == Some(NoFields)
    ensures var r := PointToResult(p);
            r.file == "" && r.paragraphIndex == 0 && r.text == ""
  {
  }

  /**
   * Each field present in the payload is copied through and each missing one
   * takes its default; a missing score is 0.
   */
  lemma PointToResultFields(p: ScoredPoint)
    ensures var r := PointToResult(p);
            var f := p.payload.GetOr(NoFields);
            && (p.score.Some? ==> r.score == p.score.value)
            && (p.score.None? ==> r.score == 0.0)
            && (f.file.Some? ==> r.file == f.file.value) && (f.file.None? ==> r.file == "")
            && (f.paragraphIndex.Some? ==> r.paragraphIndex == f.paragraphIndex.value)
            && (f.paragraphIndex.None? ==> r.paragraphIndex == 0)
            && (f.text.Some? ==> r.text == f.text.value) && (f.text.None? ==> r.text == "")
  {
  }

  /** The payload the indexer stores, as a hit carries it back. */
  function StoredPayload(p: Payload): HitPayload {
    HitPayload(Some(p.file), Some(p.paragraphIndex), Some(p.text))
  }

  /**
   * A hit on a point the indexer wrote for paragraph `para` gives back that
   * paragraph's file, index and text.
   */
  lemma IndexedParagraphRoundTrip(para: Paragraph, id: nat, score: real)
    ensures PointToResult(ScoredPoint(id, Some(score), Some(StoredPayload(Indexing.PayloadOf(para)))))
         == SearchResult(score, para.file, para.index, para.text)
  {
  }
}
