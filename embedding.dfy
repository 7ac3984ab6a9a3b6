/**
 * The embedding endpoint (`POST {ollama_url}/api/embeddings`) seen from its
 * callers: one request per text, answered with a vector or an error. What
 * the service answers is a given function of the prompt; the client records,
 * as a ghost, every prompt it sent.
 */
module Embedding {
  import opened Wrappers
  import opened VectorStore

  /** Why `get_embedding` raised. */
  datatype EmbedError =
    | HttpStatus(code: int)   // `raise_for_status()` on a 4xx or 5xx answer
    | Transport               // the POST itself failed, or the body was not JSON
    | MissingEmbedding        // `data["embedding"]` raised KeyError

  type EmbedResult = Result<Vector, EmbedError>

  class EmbeddingClient {
    /** The service's answer to each prompt. */
    const respond: string -> EmbedResult
    /** Every prompt sent so far, in order. */
    ghost var prompts: seq<string>

    constructor (respond: string -> EmbedResult)
      ensures this.respond == respond && prompts == []
    {
      this.respond := respond;
      prompts := [];
    }

    /** `get_embedding(session, url, model, text)`. */
    method Embed(text: string) returns (r: EmbedResult)
      modifies this`prompts
      ensures prompts == old(prompts) + [text]
      ensures r == respond(text)
    {
      prompts := prompts + [text];
      r := respond(text);
    }
  }
}
