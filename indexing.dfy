/**
 * The indexing run of `index_corpus_qdrant.py` (`main`): probe the first
 * paragraph for the vector dimension, ensure the collection, then embed every
 * paragraph (reusing the probe's embedding for the first), number the points
 * from a counter and upsert them in batches.
 */
module Indexing {
  import opened Wrappers
  import opened Chunking
  import opened VectorStore
  import opened Embedding

  /* ---------------------------------------------------------------------
   * Batching
   * ------------------------------------------------------------------- */

  /** `xs` cut, in order, into consecutive batches of `b`, the last one possibly shorter. */
  function Batches<T>(xs: seq<T>, b: nat): seq<seq<T>>
    requires b >= 1
    decreases |xs|
  {
    if |xs| == 0 then []
    else if |xs| <= b then [xs]
    else [xs[..b]] + Batches(xs[b..], b)
  }

  function Flatten<T>(xss: seq<seq<T>>): seq<T>
    decreases |xss|
  {
    if xss == [] then [] else xss[0] + Flatten(xss[1..])
  }

  /** The batches, put back together, are the input in its order. */
  lemma {:induction false} BatchesFlatten<T>(xs: seq<T>, b: nat)
    requires b >= 1
    ensures Flatten(Batches(xs, b)) == xs
    decreases |xs|
  {
    if |xs| > b {
      BatchesFlatten(xs[b..], b);
      assert ([xs[..b]] + Batches(xs[b..], b))[1..] == Batches(xs[b..], b);
      assert xs[..b] + xs[b..] == xs;
    } else if |xs| > 0 {
      assert [xs][1..] == [];
    }
  }

  /** There are ceil(N / b) batches. */
  lemma {:induction false} BatchesCount<T>(xs: seq<T>, b: nat)
    requires b >= 1
    ensures |Batches(xs, b)| == (|xs| + b - 1) / b
    decreases |xs|
  {
    if |xs| > b {
      BatchesCount(xs[b..], b);
      DivModShift(|xs| - b, b);
    } else if |xs| > 0 {
      DivModUnique(|xs| + b - 1, b, 1, |xs| - 1);
    }
  }

  /**
   * Every batch holds exactly `b` points except the last, which holds N mod b,
   * or `b` when b divides N; no batch is empty.
   */
  lemma {:induction false} BatchesSizes<T>(xs: seq<T>, b: nat)
    requires b >= 1
    ensures var r := Batches(xs, b);
            && (forall k :: 0 <= k < |r| - 1 ==> |r[k]| == b)
            && (forall k :: 0 <= k < |r| ==> 0 < |r[k]| <= b)
            && (|r| > 0 ==> |r[|r| - 1]| == (if |xs| % b == 0 then b else |xs| % b))
    decreases |xs|
  {
    var r := Batches(xs, b);
    if |xs| > b {
      var rest := Batches(xs[b..], b);
      BatchesSizes(xs[b..], b);
      DivModShift(|xs| - b, b);
      assert r == [xs[..b]] + rest;
      assert forall k :: 1 <= k < |r| ==> r[k] == rest[k - 1];
      assert r[|r| - 1] == rest[|rest| - 1];
    } else if |xs| > 0 {
      if |xs| < b {
        DivModUnique(|xs|, b, 0, |xs|);
      } else {
        DivModUnique(|xs|, b, 1, 0);
      }
    }
  }

  lemma MulAtLeast(b: int, d: int)
    requires b >= 1 && d >= 1
    ensures b * d >= b
  {
  }

  /** Euclidean division has one quotient and one remainder. */
  lemma DivModUnique(x: int, b: int, q: int, r: int)
    requires b >= 1 && x == q * b + r && 0 <= r < b
    ensures x / b == q && x % b == r
  {
    var q', r' := x / b, x % b;
    assert x == q' * b + r';
    if q' > q {
      MulAtLeast(b, q' - q);
    } else if q' < q {
      MulAtLeast(b, q - q');
    }
  }

  lemma DivModShift(n: nat, b: nat)
    requires b >= 1
    ensures (n + b + b - 1) / b == (n + b - 1) / b + 1
    ensures (n + b) % b == n % b
  {
    DivModUnique(n + b + b - 1, b, (n + b - 1) / b + 1, (n + b - 1) % b);
    DivModUnique(n + b, b, n / b + 1, n % b);
  }

  /** Batches of a whole number of batches followed by more: batching is done piecewise. */
  lemma {:induction false} BatchesAppend<T>(xs: seq<T>, ys: seq<T>, b: nat)
    requires b >= 1 && |xs| % b == 0
    ensures Batches(xs + ys, b) == Batches(xs, b) + Batches(ys, b)
    decreases |xs|
  {
    if xs == [] {
      assert xs + ys == ys;
    } else {
      assert |xs| >= b;
      if |xs| == b {
        if ys != [] {
          assert (xs + ys)[..b] == xs && (xs + ys)[b..] == ys;
        } else {
          assert xs + ys == xs;
        }
      } else {
        assert (xs + ys)[..b] == xs[..b];
        assert (xs + ys)[b..] == xs[b..] + ys;
        assert (|xs| - b) % b == 0 by {
          DivModShift(|xs| - b, b);
        }
        BatchesAppend(xs[b..], ys, b);
      }
    }
  }

  /** How many of `n` appended points have been flushed: the whole batches. */
  function Flushed(n: nat, b: nat): (f: nat)
    requires b >= 1
  {
    n - n % b
  }

  /**
   * After point `i` (0-based) is appended, the buffer holds 1 to `b` points;
   * it is flushed exactly when it holds `b`.
   */
  lemma FlushCount(i: nat, b: nat)
    requires b >= 1
    ensures var f := Flushed(i, b);
            && 1 <= i + 1 - f <= b
            && f % b == 0
            && (i + 1 - f == b ==> Flushed(i + 1, b) == i + 1)
            && (i + 1 - f < b ==> Flushed(i + 1, b) == f)
  {
    DivModUnique(Flushed(i, b), b, i / b, 0);
    if i % b + 1 == b {
      DivModUnique(i + 1, b, i / b + 1, 0);
    } else {
      DivModUnique(i + 1, b, i / b, i % b + 1);
    }
  }

  /** Flushing a full buffer extends the batches by exactly that buffer. */
  lemma FlushStep<T>(xs: seq<T>, i: nat, b: nat)
    requires b >= 1 && i < |xs| && i + 1 - Flushed(i, b) == b
    ensures Batches(xs[..i + 1], b) == Batches(xs[..Flushed(i, b)], b) + [xs[Flushed(i, b)..i + 1]]
  {
    var f := Flushed(i, b);
    FlushCount(i, b);
    assert xs[..i + 1] == xs[..f] + xs[f..i + 1];
    BatchesAppend(xs[..f], xs[f..i + 1], b);
  }

  /** The points left in the buffer after the loop form the last batch. */
  lemma FinalFlush<T>(xs: seq<T>, b: nat)
    requires b >= 1
    ensures var f := Flushed(|xs|, b);
            && (f == |xs| ==> xs[..f] == xs)
            && (f < |xs| ==> Batches(xs, b) == Batches(xs[..f], b) + [xs[f..]])
  {
    var f := Flushed(|xs|, b);
    if f < |xs| {
      DivModUnique(f, b, |xs| / b, 0);
      assert xs == xs[..f] + xs[f..];
      BatchesAppend(xs[..f], xs[f..], b);
    }
  }

  /* ---------------------------------------------------------------------
   * What the run computes
   * ------------------------------------------------------------------- */

  /** The payload written for a paragraph: `{"file", "paragraph_index", "text"}`. */
  function PayloadOf(p: Paragraph): Payload {
    Payload(p.file, p.index, p.text)
  }

  function Texts(ps: seq<Paragraph>): (r: seq<string>)
    ensures |r| == |ps| && forall k :: 0 <= k < |ps| ==> r[k] == ps[k].text
  {
    seq(|ps|, k requires 0 <= k < |ps| => ps[k].text)
  }

  /**
   * The embeddings the run obtains: one per paragraph, in order, up to the
   * first paragraph whose request fails (`get_embedding` raises and `main`
   * stops there).
   */
  function EmbedAll(ps: seq<Paragraph>, respond: string -> EmbedResult): (vs: seq<Vector>)
    ensures |vs| <= |ps|
    ensures forall k :: 0 <= k < |vs| ==> respond(ps[k].text) == Success(vs[k])
    ensures |vs| < |ps| ==> respond(ps[|vs|].text).Failure?
    decreases |ps|
  {
    if ps == [] then []
    else
      match respond(ps[0].text)
      case Failure(_) => []
      case Success(v) =>
        var rest := EmbedAll(ps[1..], respond);
        assert forall k :: 1 <= k <= |rest| ==> ps[k] == ps[1..][k - 1];
        [v] + rest
  }

  /** The points built from the embedded paragraphs; ids come from a counter started at 0. */
  function IndexPoints(ps: seq<Paragraph>, vs: seq<Vector>): (r: seq<Point>)
    requires |vs| <= |ps|
    ensures |r| == |vs|
    ensures forall k :: 0 <= k < |r| ==> r[k] == Point(k, vs[k], PayloadOf(ps[k]))
  {
    seq(|vs|, k requires 0 <= k < |vs| => Point(k, vs[k], PayloadOf(ps[k])))
  }

  /**
   * `len(buffer) >= batch_size` with an integer `batch_size`: a batch size
   * below 1 flushes after every point, as if it were 1: the effective size is
   * the smallest buffer length, at least 1, that passes the test.
   */
  function EffectiveBatchSize(batchSize: int): (b: nat)
    ensures b >= 1 && b >= batchSize
    ensures b == 1 || b == batchSize
  {
    if batchSize < 1 then 1 else batchSize
  }

  function UpsertCalls(name: string, batches: seq<seq<Point>>): (r: seq<StoreCall>)
    ensures |r| == |batches|
    ensures forall k :: 0 <= k < |r| ==> r[k] == UpsertCall(name, batches[k])
  {
    seq(|batches|, k requires 0 <= k < |batches| => UpsertCall(name, batches[k]))
  }

  lemma UpsertCallsSnoc(name: string, batches: seq<seq<Point>>, batch: seq<Point>)
    ensures UpsertCalls(name, batches + [batch]) == UpsertCalls(name, batches) + [UpsertCall(name, batch)]
  {
    assert |UpsertCalls(name, batches + [batch])| == |UpsertCalls(name, batches) + [UpsertCall(name, batch)]|;
  }

  /**
   * The calls made once the first `m` points have been upserted: the
   * collection check for `dim`, then one upsert per batch of those points.
   */
  function CallsThrough(cols: Collections, name: string, dim: nat, pts: seq<Point>, m: nat, b: nat): seq<StoreCall>
    requires m <= |pts| && b >= 1
  {
    EnsureCalls(cols, name, dim) + UpsertCalls(name, Batches(pts[..m], b))
  }

  /** Flushing a full buffer adds one upsert, of exactly that buffer, to the calls. */
  lemma CallsThroughFlush(cols: Collections, name: string, dim: nat, pts: seq<Point>, i: nat, b: nat)
    requires b >= 1 && i < |pts| && i + 1 - Flushed(i, b) == b
    ensures Flushed(i + 1, b) == i + 1
    ensures CallsThrough(cols, name, dim, pts, i + 1, b)
         == CallsThrough(cols, name, dim, pts, Flushed(i, b), b) + [UpsertCall(name, pts[Flushed(i, b)..i + 1])]
  {
    var f := Flushed(i, b);
    FlushCount(i, b);
    FlushStep(pts, i, b);
    UpsertCallsSnoc(name, Batches(pts[..f], b), pts[f..i + 1]);
    SnocAssoc(EnsureCalls(cols, name, dim), UpsertCalls(name, Batches(pts[..f], b)), UpsertCall(name, pts[f..i + 1]));
  }

  /** The last, partial batch completes the calls for all points. */
  lemma CallsThroughLast(cols: Collections, name: string, dim: nat, pts: seq<Point>, b: nat)
    requires b >= 1 && Flushed(|pts|, b) < |pts|
    ensures CallsThrough(cols, name, dim, pts, |pts|, b)
         == CallsThrough(cols, name, dim, pts, Flushed(|pts|, b), b) + [UpsertCall(name, pts[Flushed(|pts|, b)..|pts|])]
  {
    var f := Flushed(|pts|, b);
    FinalFlush(pts, b);
    assert pts[..|pts|] == pts;
    assert pts[f..|pts|] == pts[f..];
    UpsertCallsSnoc(name, Batches(pts[..f], b), pts[f..]);
    SnocAssoc(EnsureCalls(cols, name, dim), UpsertCalls(name, Batches(pts[..f], b)), UpsertCall(name, pts[f..]));
  }

  datatype RunError =
    | EmbeddingFailed(cause: EmbedError)  // `get_embedding` raised
    | UpsertRejected                      // `client.upsert` raised

  datatype RunOutcome =
    | NothingToIndex      // "No paragraphs found in text directory."
    | Indexed(count: nat) // "Indexing complete."
    | Failed(error: RunError)

  /**
   * An upsert was rejected after the first `m` points had been sent: the
   * calls are the plan through `m` points (a whole number of batches, or all
   * of them), every call but the last was accepted, the last was not, and
   * exactly the first `m` paragraphs were embedded.
   */
  ghost predicate RejectedAfter(cols: Collections, name: string, ps: seq<Paragraph>, vs: seq<Vector>, b: nat,
                                calls: seq<StoreCall>, prompts: seq<string>, m: nat)
    requires b >= 1 && |vs| <= |ps|
  {
    && 0 < m <= |vs|
    && (m % b == 0 || m == |ps|)
    && calls == CallsThrough(cols, name, |vs[0]|, IndexPoints(ps, vs), m, b)
    && prompts == Texts(ps)[..m]
    && calls != [] && calls[|calls| - 1].UpsertCall?
    && AllAccepted(cols, calls[..|calls| - 1])
    && !Accepts(Replay(cols, calls[..|calls| - 1]), calls[|calls| - 1].name, calls[|calls| - 1].points)
  }

  /**
   * What one run of `main` does, given the paragraphs it reads, the
   * embedding service's answers and the collections it finds. `calls` are
   * the store calls it makes and `prompts` the texts it sends to be embedded.
   */
  ghost predicate RunContract(ps: seq<Paragraph>, name: string, batchSize: int,
                              respond: string -> EmbedResult, cols: Collections,
                              calls: seq<StoreCall>, prompts: seq<string>, outcome: RunOutcome)
  {
    var vs := EmbedAll(ps, respond);
    var pts := IndexPoints(ps, vs);
    var b := EffectiveBatchSize(batchSize);
    && (outcome.NothingToIndex? <==> ps == [])
    && (outcome.NothingToIndex? ==> calls == [] && prompts == [])
    && (outcome.Indexed? ==>
          && |vs| == |ps| && outcome.count == |ps|
          && calls == CallsThrough(cols, name, |vs[0]|, pts, |pts|, b)
          && AllAccepted(cols, calls)
          && prompts == Texts(ps))
    && (outcome.Failed? && outcome.error.EmbeddingFailed? ==>
          && |vs| < |ps|
          && respond(ps[|vs|].text) == Failure(outcome.error.cause)
          && prompts == Texts(ps)[..|vs| + 1]
          && calls == (if vs == [] then [] else CallsThrough(cols, name, |vs[0]|, pts, Flushed(|vs|, b), b))
          && AllAccepted(cols, calls))
    && (outcome == Failed(UpsertRejected) ==>
          exists m: nat :: RejectedAfter(cols, name, ps, vs, b, calls, prompts, m))
  }

  /**
   * The state of the loop after `i` points: the buffer holds the points
   * since the last whole batch, and the calls so far are the collection
   * check and one upsert per whole batch, every one of them accepted.
   */
  ghost predicate Progress(ps: seq<Paragraph>, respond: string -> EmbedResult, batchSize: int, cols: Collections,
                           name: string, i: nat, buffer: seq<Point>, calls: seq<StoreCall>)
  {
    var vs := EmbedAll(ps, respond);
    var b := EffectiveBatchSize(batchSize);
    var pts := IndexPoints(ps, vs);
    && 0 < |vs| && i <= |vs|
    && buffer == pts[Flushed(i, b)..i]
    && calls == CallsThrough(cols, name, |vs[0]|, pts, Flushed(i, b), b)
    && AllAccepted(cols, calls)
  }

  /* The run's exits, each shown to meet RunContract. */

  lemma ExitFirstEmbeddingFailed(ps: seq<Paragraph>, name: string, batchSize: int,
                                 respond: string -> EmbedResult, cols: Collections, e: EmbedError)
    requires ps != [] && respond(ps[0].text) == Failure(e)
    ensures RunContract(ps, name, batchSize, respond, cols, [], [ps[0].text], Failed(EmbeddingFailed(e)))
  {
    assert Texts(ps)[..1] == [ps[0].text];
  }

  lemma ExitEmbeddingFailed(ps: seq<Paragraph>, name: string, batchSize: int,
                            respond: string -> EmbedResult, cols: Collections,
                            i: nat, buffer: seq<Point>, calls: seq<StoreCall>, prompts: seq<string>, e: EmbedError)
    requires Progress(ps, respond, batchSize, cols, name, i, buffer, calls)
    requires i < |ps| && respond(ps[i].text) == Failure(e) && prompts == Texts(ps)[..i + 1]
    ensures RunContract(ps, name, batchSize, respond, cols, calls, prompts, Failed(EmbeddingFailed(e)))
  {
    EmbedStopsAt(ps, respond, i, e);
  }

  /** The embeddings stop at the first paragraph whose request fails. */
  lemma EmbedStopsAt(ps: seq<Paragraph>, respond: string -> EmbedResult, i: nat, e: EmbedError)
    requires i <= |EmbedAll(ps, respond)| && i < |ps| && respond(ps[i].text) == Failure(e)
    ensures |EmbedAll(ps, respond)| == i
  {
  }

  lemma ExitRejected(ps: seq<Paragraph>, name: string, batchSize: int,
                     respond: string -> EmbedResult, cols: Collections,
                     m: nat, before: seq<StoreCall>, batch: seq<Point>, prompts: seq<string>)
    requires var vs := EmbedAll(ps, respond);
             var b := EffectiveBatchSize(batchSize);
             && 0 < m <= |vs| && (m % b == 0 || m == |ps|)
             && before + [UpsertCall(name, batch)] == CallsThrough(cols, name, |vs[0]|, IndexPoints(ps, vs), m, b)
             && AllAccepted(cols, before) && !Accepts(Replay(cols, before), name, batch)
             && prompts == Texts(ps)[..m]
    ensures RunContract(ps, name, batchSize, respond, cols, before + [UpsertCall(name, batch)], prompts, Failed(UpsertRejected))
  {
    var vs := EmbedAll(ps, respond);
    var calls := before + [UpsertCall(name, batch)];
    SnocPrefix(before, UpsertCall(name, batch));
    assert RejectedAfter(cols, name, ps, vs, EffectiveBatchSize(batchSize), calls, prompts, m);
  }

  lemma ExitIndexed(ps: seq<Paragraph>, name: string, batchSize: int,
                    respond: string -> EmbedResult, cols: Collections,
                    calls: seq<StoreCall>, prompts: seq<string>)
    requires ps != [] && |EmbedAll(ps, respond)| == |ps|
    requires calls == CallsThrough(cols, name, |EmbedAll(ps, respond)[0]|, IndexPoints(ps, EmbedAll(ps, respond)),
                                   |ps|, EffectiveBatchSize(batchSize))
    requires AllAccepted(cols, calls) && prompts == Texts(ps)
    ensures RunContract(ps, name, batchSize, respond, cols, calls, prompts, Indexed(|ps|))
  {
  }

  /* ---------------------------------------------------------------------
   * The loop, step by step
   * ------------------------------------------------------------------- */

  /** The loop's state between passes; `stop` is the outcome once the run has ended. */
  datatype LoopState = LoopState(buffer: seq<Point>, calls: seq<StoreCall>, prompts: seq<string>, stop: Option<RunOutcome>)

  /** The state entering the loop: the first text was sent, and the collection ensured for its dimension. */
  function StartState(ps: seq<Paragraph>, name: string, cols: Collections, first: Vector): LoopState
    requires ps != []
  {
    LoopState([], EnsureCalls(cols, name, |first|), [ps[0].text], None)
  }

  /**
   * One pass of the loop body for paragraph `i`: its embedding (for the
   * first paragraph, the one already obtained), its point numbered `i`, and
   * the upsert of the buffer once `len(buffer) >= batch_size`.
   */
  function Pass(ps: seq<Paragraph>, respond: string -> EmbedResult, batchSize: int, cols: Collections,
                name: string, st: LoopState, i: nat): LoopState
    requires i < |ps|
  {
    if st.stop.Some? then st
    else
      var prompts := if i == 0 then st.prompts else st.prompts + [ps[i].text];
      match respond(ps[i].text)
      case Failure(e) => LoopState(st.buffer, st.calls, prompts, Some(Failed(EmbeddingFailed(e))))
      case Success(v) =>
        var buf := st.buffer + [Point(i, v, PayloadOf(ps[i]))];
        if |buf| >= batchSize then
          var calls := st.calls + [UpsertCall(name, buf)];
          if Accepts(Replay(cols, st.calls), name, buf) then LoopState([], calls, prompts, None)
          else LoopState(buf, calls, prompts, Some(Failed(UpsertRejected)))
        else LoopState(buf, st.calls, prompts, None)
  }

  /** The state after the first `n` passes. */
  function After(ps: seq<Paragraph>, respond: string -> EmbedResult, batchSize: int, cols: Collections,
                 name: string, first: Vector, n: nat): LoopState
    requires 0 < |ps| && n <= |ps|
    decreases n
  {
    if n == 0 then StartState(ps, name, cols, first)
    else Pass(ps, respond, batchSize, cols, name, After(ps, respond, batchSize, cols, name, first, n - 1), n - 1)
  }

  /** After the loop: the `if buffer:` upsert of what is left, and the outcome with every call made. */
  function Finish(ps: seq<Paragraph>, name: string, cols: Collections, st: LoopState): (RunOutcome, seq<StoreCall>) {
    if st.stop.Some? then (st.stop.value, st.calls)
    else if st.buffer == [] then (Indexed(|ps|), st.calls)
    else
      var calls := st.calls + [UpsertCall(name, st.buffer)];
      if Accepts(Replay(cols, st.calls), name, st.buffer) then (Indexed(|ps|), calls)
      else (Failed(UpsertRejected), calls)
  }

  datatype RunResult = RunResult(outcome: RunOutcome, calls: seq<StoreCall>, prompts: seq<string>)

  /** The whole run, step by step: the outcome, the store calls, and the texts sent to be embedded. */
  function RunSpec(ps: seq<Paragraph>, name: string, batchSize: int, respond: string -> EmbedResult,
                   cols: Collections): RunResult
  {
    if ps == [] then RunResult(NothingToIndex, [], [])
    else
      match respond(ps[0].text)
      case Failure(e) => RunResult(Failed(EmbeddingFailed(e)), [], [ps[0].text])
      case Success(first) =>
        var st := After(ps, respond, batchSize, cols, name, first, |ps|);
        var (outcome, calls) := Finish(ps, name, cols, st);
        RunResult(outcome, calls, st.prompts)
  }

  /** Once the run has stopped, further passes change nothing. */
  lemma {:induction false} StoppedStaysStopped(ps: seq<Paragraph>, respond: string -> EmbedResult, batchSize: int,
                                               cols: Collections, name: string, first: Vector, m: nat, n: nat)
    requires 0 < |ps| && m <= n <= |ps|
    requires After(ps, respond, batchSize, cols, name, first, m).stop.Some?
    ensures After(ps, respond, batchSize, cols, name, first, n) == After(ps, respond, batchSize, cols, name, first, m)
    decreases n - m
  {
    if m < n {
      StoppedStaysStopped(ps, respond, batchSize, cols, name, first, m, n - 1);
    }
  }

  /* ---------------------------------------------------------------------
   * The step-by-step run meets RunContract
   * ------------------------------------------------------------------- */

  lemma StartProgress(ps: seq<Paragraph>, respond: string -> EmbedResult, batchSize: int, cols: Collections,
                      name: string, first: Vector)
    requires ps != [] && respond(ps[0].text) == Success(first)
    ensures Progress(ps, respond, batchSize, cols, name, 0, [], EnsureCalls(cols, name, |first|))
  {
    var vs := EmbedAll(ps, respond);
    var b := EffectiveBatchSize(batchSize);
    var pts := IndexPoints(ps, vs);
    var calls := EnsureCalls(cols, name, |first|);
    assert Batches(pts[..0], b) == [];
    assert calls == CallsThrough(cols, name, |vs[0]|, pts, 0, b);
    assert AllAccepted(cols, calls) by {
      assert calls[..|calls| - 1] == [] || calls[..|calls| - 1] == [GetCall(name)];
      assert [GetCall(name)][..0] == [];
    }
  }

  /**
   * Appending point `i` keeps the buffer the points since the last whole
   * batch; the buffer reaches the batch size exactly when it holds `b`
   * points, and otherwise the loop goes on with the calls unchanged.
   */
  lemma AppendPoint(ps: seq<Paragraph>, respond: string -> EmbedResult, batchSize: int, cols: Collections,
                    name: string, i: nat, buffer: seq<Point>, calls: seq<StoreCall>, embedding: Vector)
    requires Progress(ps, respond, batchSize, cols, name, i, buffer, calls)
    requires i < |ps| && respond(ps[i].text) == Success(embedding)
    ensures var buf := buffer + [Point(i, embedding, PayloadOf(ps[i]))];
            var b := EffectiveBatchSize(batchSize);
            && i < |EmbedAll(ps, respond)|
            && buf == IndexPoints(ps, EmbedAll(ps, respond))[Flushed(i, b)..i + 1]
            && 1 <= |buf| <= b
            && (|buf| >= batchSize <==> |buf| == b)
            && (|buf| < batchSize ==> Progress(ps, respond, batchSize, cols, name, i + 1, buf, calls))
  {
    var vs := EmbedAll(ps, respond);
    var b := EffectiveBatchSize(batchSize);
    var pts := IndexPoints(ps, vs);
    assert i < |vs| && embedding == vs[i];
    FlushCount(i, b);
    SliceSnoc(pts, Flushed(i, b), i);
    assert pts[i] == Point(i, embedding, PayloadOf(ps[i]));
  }

  /** A full buffer that the store accepts starts a new, empty batch. */
  lemma FlushAccepted(ps: seq<Paragraph>, respond: string -> EmbedResult, batchSize: int, cols: Collections,
                      name: string, i: nat, buffer: seq<Point>, calls: seq<StoreCall>, embedding: Vector)
    requires Progress(ps, respond, batchSize, cols, name, i, buffer, calls)
    requires i < |ps| && respond(ps[i].text) == Success(embedding)
    requires var buf := buffer + [Point(i, embedding, PayloadOf(ps[i]))];
             |buf| >= batchSize && Accepts(Replay(cols, calls), name, buf)
    ensures var buf := buffer + [Point(i, embedding, PayloadOf(ps[i]))];
            Progress(ps, respond, batchSize, cols, name, i + 1, [], calls + [UpsertCall(name, buf)])
  {
    var vs := EmbedAll(ps, respond);
    var b := EffectiveBatchSize(batchSize);
    var pts := IndexPoints(ps, vs);
    var buf := buffer + [Point(i, embedding, PayloadOf(ps[i]))];
    AppendPoint(ps, respond, batchSize, cols, name, i, buffer, calls, embedding);
    CallsThroughFlush(cols, name, |vs[0]|, pts, i, b);
    SnocPrefix(calls, UpsertCall(name, buf));
  }

  /** A full buffer that the store rejects ends the run. */
  lemma FlushRejected(ps: seq<Paragraph>, respond: string -> EmbedResult, batchSize: int, cols: Collections,
                      name: string, i: nat, buffer: seq<Point>, calls: seq<StoreCall>, embedding: Vector,
                      prompts: seq<string>)
    requires Progress(ps, respond, batchSize, cols, name, i, buffer, calls)
    requires i < |ps| && respond(ps[i].text) == Success(embedding)
    requires var buf := buffer + [Point(i, embedding, PayloadOf(ps[i]))];
             |buf| >= batchSize && !Accepts(Replay(cols, calls), name, buf)
    requires prompts == Texts(ps)[..i + 1]
    ensures var buf := buffer + [Point(i, embedding, PayloadOf(ps[i]))];
            RunContract(ps, name, batchSize, respond, cols, calls + [UpsertCall(name, buf)], prompts, Failed(UpsertRejected))
  {
    var vs := EmbedAll(ps, respond);
    var b := EffectiveBatchSize(batchSize);
    var pts := IndexPoints(ps, vs);
    var buf := buffer + [Point(i, embedding, PayloadOf(ps[i]))];
    AppendPoint(ps, respond, batchSize, cols, name, i, buffer, calls, embedding);
    CallsThroughFlush(cols, name, |vs[0]|, pts, i, b);
    ExitRejected(ps, name, batchSize, respond, cols, i + 1, calls, buf, prompts);
  }

  /** What holds of the loop's state after `i` passes. */
  ghost predicate Inv(ps: seq<Paragraph>, respond: string -> EmbedResult, batchSize: int, cols: Collections,
                      name: string, i: nat, st: LoopState)
  {
    && (st.stop.None? ==>
          && Progress(ps, respond, batchSize, cols, name, i, st.buffer, st.calls)
          && st.prompts == Texts(ps)[..if i == 0 then 1 else i])
    && (st.stop.Some? ==> RunContract(ps, name, batchSize, respond, cols, st.calls, st.prompts, st.stop.value))
  }

  lemma PassKeepsInv(ps: seq<Paragraph>, respond: string -> EmbedResult, batchSize: int, cols: Collections,
                     name: string, first: Vector, i: nat, st: LoopState)
    requires i < |ps| && respond(ps[0].text) == Success(first)
    requires Inv(ps, respond, batchSize, cols, name, i, st)
    ensures Inv(ps, respond, batchSize, cols, name, i + 1, Pass(ps, respond, batchSize, cols, name, st, i))
  {
    if st.stop.None? {
      var prompts := if i == 0 then st.prompts else st.prompts + [ps[i].text];
      assert prompts == Texts(ps)[..i + 1] by {
        if i > 0 {
          SliceSnoc(Texts(ps), 0, i);
        }
      }
      match respond(ps[i].text)
      case Failure(e) =>
        ExitEmbeddingFailed(ps, name, batchSize, respond, cols, i, st.buffer, st.calls, prompts, e);
      case Success(v) =>
        var buf := st.buffer + [Point(i, v, PayloadOf(ps[i]))];
        AppendPoint(ps, respond, batchSize, cols, name, i, st.buffer, st.calls, v);
        if |buf| >= batchSize {
          if Accepts(Replay(cols, st.calls), name, buf) {
            FlushAccepted(ps, respond, batchSize, cols, name, i, st.buffer, st.calls, v);
          } else {
            FlushRejected(ps, respond, batchSize, cols, name, i, st.buffer, st.calls, v, prompts);
          }
        }
    }
  }

  lemma AfterKeepsInv(ps: seq<Paragraph>, respond: string -> EmbedResult, batchSize: int,
                      cols: Collections, name: string, first: Vector, n: nat, st: LoopState)
    requires 0 < |ps| && n <= |ps| && respond(ps[0].text) == Success(first)
    requires st == After(ps, respond, batchSize, cols, name, first, n)
    ensures Inv(ps, respond, batchSize, cols, name, n, st)
  {
    var k := 0;
    var cur := StartState(ps, name, cols, first);
    StartKeepsInv(ps, respond, batchSize, cols, name, first);
    while k < n
      invariant k <= n && cur == After(ps, respond, batchSize, cols, name, first, k)
      invariant Inv(ps, respond, batchSize, cols, name, k, cur)
    {
      var next := Pass(ps, respond, batchSize, cols, name, cur, k);
      StepKeepsInv(ps, respond, batchSize, cols, name, first, k, k + 1, cur, next);
      AfterStep(ps, respond, batchSize, cols, name, first, k + 1);
      k, cur := k + 1, next;
    }
  }

  lemma StepKeepsInv(ps: seq<Paragraph>, respond: string -> EmbedResult, batchSize: int, cols: Collections,
                     name: string, first: Vector, i: nat, j: nat, st: LoopState, st': LoopState)
    requires i < |ps| && j == i + 1 && respond(ps[0].text) == Success(first)
    requires Inv(ps, respond, batchSize, cols, name, i, st)
    requires st' == Pass(ps, respond, batchSize, cols, name, st, i)
    ensures Inv(ps, respond, batchSize, cols, name, j, st')
  {
    PassKeepsInv(ps, respond, batchSize, cols, name, first, i, st);
  }

  lemma AfterStep(ps: seq<Paragraph>, respond: string -> EmbedResult, batchSize: int,
                  cols: Collections, name: string, first: Vector, n: nat)
    requires 0 < n <= |ps|
    ensures After(ps, respond, batchSize, cols, name, first, n)
         == Pass(ps, respond, batchSize, cols, name, After(ps, respond, batchSize, cols, name, first, n - 1), n - 1)
  {
  }

  /** A running state that has made progress through `i` points, with the first `i` texts sent, meets Inv. */
  lemma RunningInv(ps: seq<Paragraph>, respond: string -> EmbedResult, batchSize: int, cols: Collections,
                   name: string, i: nat, st: LoopState)
    requires st.stop.None? && Progress(ps, respond, batchSize, cols, name, i, st.buffer, st.calls)
    requires st.prompts == Texts(ps)[..if i == 0 then 1 else i]
    ensures Inv(ps, respond, batchSize, cols, name, i, st)
  {
  }

  lemma StartKeepsInv(ps: seq<Paragraph>, respond: string -> EmbedResult, batchSize: int, cols: Collections,
                      name: string, first: Vector)
    requires ps != [] && respond(ps[0].text) == Success(first)
    ensures Inv(ps, respond, batchSize, cols, name, 0, StartState(ps, name, cols, first))
  {
    var st := StartState(ps, name, cols, first);
    StartProgress(ps, respond, batchSize, cols, name, first);
    var texts := Texts(ps);
    assert texts[..1] == [texts[0]];
    RunningInv(ps, respond, batchSize, cols, name, 0, st);
  }

  lemma FinishMeetsContract(ps: seq<Paragraph>, respond: string -> EmbedResult, batchSize: int,
                            cols: Collections, name: string, st: LoopState)
    requires ps != [] && Inv(ps, respond, batchSize, cols, name, |ps|, st)
    ensures var (outcome, calls) := Finish(ps, name, cols, st);
            RunContract(ps, name, batchSize, respond, cols, calls, st.prompts, outcome)
  {
    if st.stop.None? {
      var vs := EmbedAll(ps, respond);
      var b := EffectiveBatchSize(batchSize);
      var pts := IndexPoints(ps, vs);
      WholePrefix(Texts(ps));
      if st.buffer == [] {
        assert st.calls == CallsThrough(cols, name, |vs[0]|, pts, |pts|, b);
        ExitIndexed(ps, name, batchSize, respond, cols, st.calls, st.prompts);
      } else {
        CallsThroughLast(cols, name, |vs[0]|, pts, b);
        var calls := st.calls + [UpsertCall(name, st.buffer)];
        if Accepts(Replay(cols, st.calls), name, st.buffer) {
          SnocPrefix(st.calls, UpsertCall(name, st.buffer));
          ExitIndexed(ps, name, batchSize, respond, cols, calls, st.prompts);
        } else {
          ExitRejected(ps, name, batchSize, respond, cols, |pts|, st.calls, st.buffer, st.prompts);
        }
      }
    }
  }

  /**
   * The run, step by step, does what RunContract says: the outcome, the
   * store calls in their order and the texts sent, for every corpus, every
   * embedding service and every store.
   */
  lemma RunMeetsContract(ps: seq<Paragraph>, name: string, batchSize: int, respond: string -> EmbedResult,
                         cols: Collections)
    ensures var r := RunSpec(ps, name, batchSize, respond, cols);
            RunContract(ps, name, batchSize, respond, cols, r.calls, r.prompts, r.outcome)
  {
    if ps != [] {
      match respond(ps[0].text)
      case Failure(e) =>
        ExitFirstEmbeddingFailed(ps, name, batchSize, respond, cols, e);
      case Success(first) =>
        var st := After(ps, respond, batchSize, cols, name, first, |ps|);
        AfterKeepsInv(ps, respond, batchSize, cols, name, first, |ps|, st);
        FinishMeetsContract(ps, respond, batchSize, cols, name, st);
    }
  }

  /* ---------------------------------------------------------------------
   * A complete run: its batches and what the collection holds afterwards
   * ------------------------------------------------------------------- */

  lemma FlattenSnoc<T>(xss: seq<seq<T>>, xs: seq<T>)
    ensures Flatten(xss + [xs]) == Flatten(xss) + xs
    decreases |xss|
  {
    if xss == [] {
      assert [xs][1..] == [];
    } else {
      assert (xss + [xs])[1..] == xss[1..] + [xs];
      FlattenSnoc(xss[1..], xs);
    }
  }

  /** Accepted upserts of consecutive batches write their points, in order, into the collection. */
  lemma {:induction false} ReplayUpserts(cols: Collections, pre: seq<StoreCall>, name: string, batches: seq<seq<Point>>)
    requires name in Replay(cols, pre)
    requires AllAccepted(cols, pre + UpsertCalls(name, batches))
    ensures var before := Replay(cols, pre)[name];
            var after := Replay(cols, pre + UpsertCalls(name, batches));
            name in after && after[name] == Collection(before.size, AddPoints(before.points, Flatten(batches)))
    decreases |batches|
  {
    if batches == [] {
      assert pre + UpsertCalls(name, batches) == pre;
    } else {
      var init := batches[..|batches| - 1];
      var last := batches[|batches| - 1];
      assert init + [last] == batches;
      UpsertCallsSnoc(name, init, last);
      var calls := pre + UpsertCalls(name, init);
      SnocAssoc(pre, UpsertCalls(name, init), UpsertCall(name, last));
      assert pre + UpsertCalls(name, batches) == calls + [UpsertCall(name, last)];
      SnocPrefix(calls, UpsertCall(name, last));
      ReplayUpserts(cols, pre, name, init);
      ReplaySnoc(cols, calls, UpsertCall(name, last));
      FlattenSnoc(init, last);
      AddPointsAppend(Replay(cols, pre)[name].points, Flatten(init), last);
    }
  }

  /**
   * A run that indexes everything embeds each paragraph once, sizes the
   * collection by the first embedding, and upserts the points numbered
   * 0, 1, 2, ... in stream order, cut into ceil(N / B) batches of B points
   * (the last one possibly shorter, none empty) that together are all the
   * points in order; B is the batch size, or 1 below 1.
   */
  lemma IndexedRunBatches(ps: seq<Paragraph>, name: string, batchSize: int, respond: string -> EmbedResult,
                          cols: Collections)
    requires RunSpec(ps, name, batchSize, respond, cols).outcome.Indexed?
    ensures var r := RunSpec(ps, name, batchSize, respond, cols);
            var vs := EmbedAll(ps, respond);
            var pts := IndexPoints(ps, vs);
            var b := EffectiveBatchSize(batchSize);
            var batches := Batches(pts, b);
            && |pts| == |ps| > 0
            && r.prompts == Texts(ps)
            && (forall k :: 0 <= k < |ps| ==> pts[k].id == k && respond(ps[k].text) == Success(pts[k].vector)
                                              && pts[k].payload == PayloadOf(ps[k]))
            && r.calls == EnsureCalls(cols, name, |pts[0].vector|) + UpsertCalls(name, batches)
            && |batches| == (|ps| + b - 1) / b
            && (forall k :: 0 <= k < |batches| - 1 ==> |batches[k]| == b)
            && (forall k :: 0 <= k < |batches| ==> 0 < |batches[k]| <= b)
            && Flatten(batches) == pts
  {
    var r := RunSpec(ps, name, batchSize, respond, cols);
    RunMeetsContract(ps, name, batchSize, respond, cols);
    IndexedBatches(ps, name, batchSize, respond, cols, r.calls, r.prompts, r.outcome);
  }

  /** IndexedRunBatches for any calls and prompts that meet RunContract with an Indexed outcome. */
  lemma IndexedBatches(ps: seq<Paragraph>, name: string, batchSize: int, respond: string -> EmbedResult,
                       cols: Collections, calls: seq<StoreCall>, prompts: seq<string>, outcome: RunOutcome)
    requires RunContract(ps, name, batchSize, respond, cols, calls, prompts, outcome) && outcome.Indexed?
    ensures var vs := EmbedAll(ps, respond);
            var pts := IndexPoints(ps, vs);
            var b := EffectiveBatchSize(batchSize);
            var batches := Batches(pts, b);
            && |pts| == |ps| > 0
            && prompts == Texts(ps)
            && (forall k :: 0 <= k < |ps| ==> pts[k].id == k && respond(ps[k].text) == Success(pts[k].vector)
                                              && pts[k].payload == PayloadOf(ps[k]))
            && calls == EnsureCalls(cols, name, |pts[0].vector|) + UpsertCalls(name, batches)
            && |batches| == (|ps| + b - 1) / b
            && (forall k :: 0 <= k < |batches| - 1 ==> |batches[k]| == b)
            && (forall k :: 0 <= k < |batches| ==> 0 < |batches[k]| <= b)
            && Flatten(batches) == pts
  {
    IndexedOutcome(ps, name, batchSize, respond, cols, calls, prompts, outcome);
    var pts := IndexPoints(ps, EmbedAll(ps, respond));
    var b := EffectiveBatchSize(batchSize);
    WholePrefix(pts);
    BatchesCount(pts, b);
    BatchesSizes(pts, b);
    BatchesFlatten(pts, b);
  }

  /** What RunContract says of a run that indexes everything. */
  lemma IndexedOutcome(ps: seq<Paragraph>, name: string, batchSize: int, respond: string -> EmbedResult,
                       cols: Collections, calls: seq<StoreCall>, prompts: seq<string>, outcome: RunOutcome)
    requires RunContract(ps, name, batchSize, respond, cols, calls, prompts, outcome) && outcome.Indexed?
    ensures var vs := EmbedAll(ps, respond);
            var pts := IndexPoints(ps, vs);
            && |vs| == |ps| > 0
            && calls == CallsThrough(cols, name, |vs[0]|, pts, |pts|, EffectiveBatchSize(batchSize))
            && AllAccepted(cols, calls)
            && prompts == Texts(ps)
  {
  }

  /**
   * After a run that indexes everything, the collection holds every
   * paragraph's point under its id, and besides them only points it was
   * left with by `ensure_collection` (none when it was recreated).
   */
  lemma IndexedStoresEveryParagraph(ps: seq<Paragraph>, name: string, batchSize: int,
                                    respond: string -> EmbedResult, cols: Collections)
    requires RunSpec(ps, name, batchSize, respond, cols).outcome.Indexed?
    ensures var r := RunSpec(ps, name, batchSize, respond, cols);
            var vs := EmbedAll(ps, respond);
            var stored := Replay(cols, r.calls);
            && |vs| == |ps| > 0
            && name in stored
            && (forall k :: 0 <= k < |ps| ==> k in stored[name].points && stored[name].points[k] == Point(k, vs[k], PayloadOf(ps[k])))
            && name in Ensured(cols, name, |vs[0]|)
            && (forall id: nat :: id in stored[name].points <==> id < |ps| || id in Ensured(cols, name, |vs[0]|)[name].points)
  {
    var r := RunSpec(ps, name, batchSize, respond, cols);
    IndexedRunBatches(ps, name, batchSize, respond, cols);
    RunMeetsContract(ps, name, batchSize, respond, cols);
    var vs := EmbedAll(ps, respond);
    var pts := IndexPoints(ps, vs);
    var b := EffectiveBatchSize(batchSize);
    var pre := EnsureCalls(cols, name, |vs[0]|);
    EnsureReuseOrRecreate(cols, name, |vs[0]|);
    ReplayUpserts(cols, pre, name, Batches(pts, b));
    var base := Ensured(cols, name, |vs[0]|)[name].points;
    AddPointsNumbered(base, pts);
  }

  /** Every element of a batch is an element of the batched sequence. */
  lemma {:induction false} BatchMembers<T>(xs: seq<T>, b: nat, k: nat)
    requires b >= 1 && k < |Batches(xs, b)|
    ensures forall x :: x in Batches(xs, b)[k] ==> x in xs
    decreases |xs|
  {
    if |xs| > b {
      if k > 0 {
        BatchMembers(xs[b..], b, k - 1);
        assert Batches(xs, b)[k] == Batches(xs[b..], b)[k - 1];
        forall x | x in xs[b..] ensures x in xs {
          var j :| 0 <= j < |xs[b..]| && xs[b..][j] == x;
          assert xs[b + j] == x;
        }
      } else {
        forall x | x in xs[..b] ensures x in xs {
          var j :| 0 <= j < b && xs[..b][j] == x;
          assert xs[j] == x;
        }
      }
    }
  }

  /**
   * Once the collection has been ensured for `dim` and upserts after it went
   * through, a batch whose vectors all have length `dim` is accepted.
   */
  lemma UpsertAfterEnsureAccepted(cols: Collections, name: string, dim: nat, init: seq<seq<Point>>, last: seq<Point>)
    requires AllAccepted(cols, EnsureCalls(cols, name, dim) + UpsertCalls(name, init))
    requires forall x :: x in last ==> |x.vector| == dim
    ensures Accepts(Replay(cols, EnsureCalls(cols, name, dim) + UpsertCalls(name, init)), name, last)
  {
    EnsureBySizeReadiesCollection(cols, name, dim, false);
    ReplayUpserts(cols, EnsureCalls(cols, name, dim), name, init);
    forall k | 0 <= k < |last| ensures |last[k].vector| == dim {
      assert last[k] in last;
    }
  }

  /**
   * When every embedding has the first one's length, the last upsert of any
   * prefix of whole batches whose earlier calls went through is accepted.
   */
  lemma LastUpsertAccepted(ps: seq<Paragraph>, name: string, respond: string -> EmbedResult, cols: Collections,
                           b: nat, calls: seq<StoreCall>, m: nat)
    requires b >= 1
    requires var vs := EmbedAll(ps, respond);
             && 0 < m <= |vs| && (forall k :: 0 <= k < |vs| ==> |vs[k]| == |vs[0]|)
             && calls == CallsThrough(cols, name, |vs[0]|, IndexPoints(ps, vs), m, b)
    requires calls != [] && AllAccepted(cols, calls[..|calls| - 1])
    ensures calls[|calls| - 1].UpsertCall? ==>
              Accepts(Replay(cols, calls[..|calls| - 1]), calls[|calls| - 1].name, calls[|calls| - 1].points)
  {
    var vs := EmbedAll(ps, respond);
    var dim := |vs[0]|;
    var pts := IndexPoints(ps, vs);
    var bs := Batches(pts[..m], b);
    assert bs != [];
    var init, last := bs[..|bs| - 1], bs[|bs| - 1];
    CallsThroughSplit(cols, name, dim, pts, m, b);
    LastBatchHasDim(ps, respond, b, m);
    UpsertAfterEnsureAccepted(cols, name, dim, init, last);
  }

  /** The calls through `m > 0` points end with the upsert of the last of their batches. */
  lemma CallsThroughSplit(cols: Collections, name: string, dim: nat, pts: seq<Point>, m: nat, b: nat)
    requires b >= 1 && 0 < m <= |pts|
    ensures var bs := Batches(pts[..m], b);
            var calls := CallsThrough(cols, name, dim, pts, m, b);
            && bs != [] && calls != []
            && calls[..|calls| - 1] == EnsureCalls(cols, name, dim) + UpsertCalls(name, bs[..|bs| - 1])
            && calls[|calls| - 1] == UpsertCall(name, bs[|bs| - 1])
  {
    var bs := Batches(pts[..m], b);
    assert bs != [];
    var init, last := bs[..|bs| - 1], bs[|bs| - 1];
    assert bs == init + [last];
    UpsertCallsSnoc(name, init, last);
    var pre := EnsureCalls(cols, name, dim);
    SnocAssoc(pre, UpsertCalls(name, init), UpsertCall(name, last));
    SnocPrefix(pre + UpsertCalls(name, init), UpsertCall(name, last));
  }

  /** When every embedding has the first one's length, so has every point of the last batch. */
  lemma LastBatchHasDim(ps: seq<Paragraph>, respond: string -> EmbedResult, b: nat, m: nat)
    requires b >= 1
    requires var vs := EmbedAll(ps, respond);
             0 < m <= |vs| && forall k :: 0 <= k < |vs| ==> |vs[k]| == |vs[0]|
    ensures var vs := EmbedAll(ps, respond);
            var bs := Batches(IndexPoints(ps, vs)[..m], b);
            bs != [] && forall x: Point :: x in bs[|bs| - 1] ==> |x.vector| == |vs[0]|
  {
    var vs := EmbedAll(ps, respond);
    var pts := IndexPoints(ps, vs);
    var bs := Batches(pts[..m], b);
    assert bs != [];
    var prefix := pts[..m];
    assert forall j :: 0 <= j < |prefix| ==> |prefix[j].vector| == |vs[0]|;
    BatchMembers(prefix, b, |bs| - 1);
    forall x: Point | x in bs[|bs| - 1] ensures |x.vector| == |vs[0]| {
      assert x in prefix;
    }
  }

  /** No upsert is rejected when every embedding has the first one's length. */
  lemma NotRejectedAfter(ps: seq<Paragraph>, name: string, respond: string -> EmbedResult, cols: Collections,
                         b: nat, calls: seq<StoreCall>, prompts: seq<string>, m: nat)
    requires b >= 1
    requires var vs := EmbedAll(ps, respond);
             |vs| > 0 && forall k :: 0 <= k < |vs| ==> |vs[k]| == |vs[0]|
    ensures !RejectedAfter(cols, name, ps, EmbedAll(ps, respond), b, calls, prompts, m)
  {
    var vs := EmbedAll(ps, respond);
    if 0 < m <= |vs| && calls == CallsThrough(cols, name, |vs[0]|, IndexPoints(ps, vs), m, b)
       && calls != [] && AllAccepted(cols, calls[..|calls| - 1]) {
      LastUpsertAccepted(ps, name, respond, cols, b, calls, m);
    }
  }

  /**
   * With the collection ensured by its size, a run whose every paragraph is
   * embedded, each with the first embedding's length, indexes every
   * paragraph: no upsert is rejected.
   */
  lemma IndexedWhenDimensionsAgree(ps: seq<Paragraph>, name: string, batchSize: int,
                                   respond: string -> EmbedResult, cols: Collections)
    requires ps != []
    requires forall k :: 0 <= k < |ps| ==> respond(ps[k].text).Success?
    requires forall k :: 0 <= k < |ps| ==> |respond(ps[k].text).value| == |respond(ps[0].text).value|
    ensures RunSpec(ps, name, batchSize, respond, cols).outcome == Indexed(|ps|)
  {
    var r := RunSpec(ps, name, batchSize, respond, cols);
    var vs := EmbedAll(ps, respond);
    var b := EffectiveBatchSize(batchSize);
    RunMeetsContract(ps, name, batchSize, respond, cols);
    assert |vs| == |ps|;
    forall m: nat ensures !RejectedAfter(cols, name, ps, vs, b, r.calls, r.prompts, m) {
      NotRejectedAfter(ps, name, respond, cols, b, r.calls, r.prompts, m);
    }
  }

  /* ---------------------------------------------------------------------
   * The run, on the store and the embedding client
   * ------------------------------------------------------------------- */

  /**
   * `main` after argument parsing: count the paragraphs, embed the first to
   * learn the dimension, ensure the collection, then embed, number and
   * buffer every paragraph, upserting whenever the buffer reaches the batch
   * size and once more for what is left. `paragraphs` is the stream
   * `IterParagraphs(files)` over the text files `rglob` matched, which
   * `main` reads twice: once to count it and once to index it. The run is RunSpec on the
   * collections as the lookup sees them (AsSeen: without the collection when
   * `get_collection` raises), and the store ends as the calls leave it.
   */
  method Run(paragraphs: seq<Paragraph>, name: string, batchSize: int, store: Store, client: EmbeddingClient)
    returns (outcome: RunOutcome, ghost calls: seq<StoreCall>, ghost prompts: seq<string>)
    modifies store, client
    ensures RunResult(outcome, calls, prompts)
         == RunSpec(paragraphs, name, batchSize, client.respond, AsSeen(old(store.collections), name, store.lookupFails(name)))
    ensures store.log == old(store.log) + calls
    ensures store.collections == Replay(old(store.collections), calls)
    ensures client.prompts == old(client.prompts) + prompts
  {
    ghost var cols := store.collections;
    ghost var seen := AsSeen(cols, name, store.lookupFails(name));
    ghost var log0 := store.log;
    ghost var prompts0 := client.prompts;
    calls, prompts := [], [];

    var total := |paragraphs|;
    if total == 0 {
      return NothingToIndex, calls, prompts;
    }
    var first := paragraphs[0];
    var firstEmbedding := client.Embed(first.text);
    if firstEmbedding.Failure? {
      return Failed(EmbeddingFailed(firstEmbedding.error)), calls, [first.text];
    }
    var dim := |firstEmbedding.value|;
    EnsureCollection(store, name, dim);
    ghost var ensure := EnsureCallsWith(cols, name, dim, store.lookupFails(name));
    EnsureAsSeen(cols, name, dim, store.lookupFails(name), []);
    assert ensure + [] == ensure;
    outcome, calls, prompts := IndexStream(paragraphs, name, batchSize, store, client, firstEmbedding.value, seen, log0, prompts0);
    ReplayAsSeen(cols, name, dim, store.lookupFails(name), calls);
  }

  /** The store has seen `calls` since its log read `log0` and its collections were `cols`. */
  ghost predicate StoreSynced(store: Store, cols: Collections, log0: seq<StoreCall>, calls: seq<StoreCall>)
    reads store
  {
    store.log == log0 + calls && store.collections == Replay(cols, calls)
  }

  /** The client has sent `prompts` since its log read `prompts0`. */
  ghost predicate PromptsSynced(client: EmbeddingClient, prompts0: seq<string>, prompts: seq<string>)
    reads client
  {
    client.prompts == prompts0 + prompts
  }

  /** A run that the pass for paragraph `i` stopped. */
  lemma StoppedRun(ps: seq<Paragraph>, name: string, batchSize: int, respond: string -> EmbedResult,
                   cols: Collections, first: Vector, i: nat, st: LoopState)
    requires i < |ps| && respond(ps[0].text) == Success(first)
    requires st == After(ps, respond, batchSize, cols, name, first, i + 1) && st.stop.Some?
    ensures RunSpec(ps, name, batchSize, respond, cols) == RunResult(st.stop.value, st.calls, st.prompts)
  {
    StoppedStaysStopped(ps, respond, batchSize, cols, name, first, i + 1, |ps|);
  }

  /** A run whose every pass went through. */
  lemma CompletedRun(ps: seq<Paragraph>, name: string, batchSize: int, respond: string -> EmbedResult,
                     cols: Collections, first: Vector, st: LoopState)
    requires ps != [] && respond(ps[0].text) == Success(first)
    requires st == After(ps, respond, batchSize, cols, name, first, |ps|)
    ensures RunSpec(ps, name, batchSize, respond, cols) == RunResult(Finish(ps, name, cols, st).0, Finish(ps, name, cols, st).1, st.prompts)
  {
  }

  /**
   * The loop of `main` (`all_paragraphs()`, the point counter and the
   * buffer) and the final upsert, entered once the first paragraph's
   * embedding is known and the collection has been ensured for it.
   */
  method IndexStream(paragraphs: seq<Paragraph>, name: string, batchSize: int, store: Store, client: EmbeddingClient,
                     firstEmbedding: Vector, ghost cols: Collections, ghost log0: seq<StoreCall>, ghost prompts0: seq<string>)
    returns (outcome: RunOutcome, ghost calls: seq<StoreCall>, ghost prompts: seq<string>)
    requires paragraphs != [] && client.respond(paragraphs[0].text) == Success(firstEmbedding)
    requires StoreSynced(store, cols, log0, EnsureCalls(cols, name, |firstEmbedding|))
    requires PromptsSynced(client, prompts0, [paragraphs[0].text])
    modifies store, client
    ensures RunResult(outcome, calls, prompts) == RunSpec(paragraphs, name, batchSize, client.respond, cols)
    ensures StoreSynced(store, cols, log0, calls) && PromptsSynced(client, prompts0, prompts)
    ensures IsPrefix(EnsureCalls(cols, name, |firstEmbedding|), calls)
  {
    ghost var respond := client.respond;
    prompts := [paragraphs[0].text];
    calls := EnsureCalls(cols, name, |firstEmbedding|);
    ghost var ensure := calls;
    WholePrefix(ensure);
    var nextId := 0;
    var buffer: seq<Point> := [];
    var i := 0;
    while i < |paragraphs|
      invariant i <= |paragraphs| && nextId == i
      invariant LoopState(buffer, calls, prompts, None) == After(paragraphs, respond, batchSize, cols, name, firstEmbedding, i)
      invariant StoreSynced(store, cols, log0, calls) && PromptsSynced(client, prompts0, prompts)
      invariant IsPrefix(ensure, calls)
    {
      var stop: Option<RunOutcome>;
      ghost var before := calls;
      buffer, nextId, stop, calls, prompts :=
        IndexOne(paragraphs, name, batchSize, store, client, firstEmbedding, cols, log0, prompts0,
                 i, nextId, buffer, calls, prompts);
      PrefixTrans(ensure, before, calls);
      AfterStep(paragraphs, respond, batchSize, cols, name, firstEmbedding, i + 1);
      if stop.Some? {
        StoppedRun(paragraphs, name, batchSize, respond, cols, firstEmbedding, i, LoopState(buffer, calls, prompts, stop));
        return stop.value, calls, prompts;
      }
      i := i + 1;
    }
    CompletedRun(paragraphs, name, batchSize, respond, cols, firstEmbedding, LoopState(buffer, calls, prompts, None));
    ghost var before := calls;
    outcome, calls := FlushRest(paragraphs, name, store, nextId, buffer, cols, log0, calls, prompts);
    PrefixTrans(ensure, before, calls);
  }

  /**
   * One pass of the loop: take the paragraph's embedding, give its point the
   * next id, buffer it, and upsert the buffer once it holds `batch_size`
   * points. `stop` is the run's outcome when the pass ended it.
   */
  method IndexOne(paragraphs: seq<Paragraph>, name: string, batchSize: int, store: Store, client: EmbeddingClient,
                  firstEmbedding: Vector, ghost cols: Collections, ghost log0: seq<StoreCall>, ghost prompts0: seq<string>,
                  i: nat, nextId: nat, buffer: seq<Point>, ghost calls: seq<StoreCall>, ghost prompts: seq<string>)
    returns (buffer': seq<Point>, nextId': nat, stop: Option<RunOutcome>, ghost calls': seq<StoreCall>, ghost prompts': seq<string>)
    requires i < |paragraphs| && nextId == i && client.respond(paragraphs[0].text) == Success(firstEmbedding)
    requires StoreSynced(store, cols, log0, calls) && PromptsSynced(client, prompts0, prompts)
    modifies store, client
    ensures LoopState(buffer', calls', prompts', stop)
         == Pass(paragraphs, client.respond, batchSize, cols, name, LoopState(buffer, calls, prompts, None), i)
    ensures nextId' == nextId + 1
    ensures StoreSynced(store, cols, log0, calls') && PromptsSynced(client, prompts0, prompts')
    ensures IsPrefix(calls, calls')
  {
    var para := paragraphs[i];
    var maybeEmbedding: Option<Vector> := if i == 0 then Some(firstEmbedding) else None;
    var embedding := NextEmbedding(client, para.text, maybeEmbedding);
    prompts' := prompts;
    if i > 0 {
      SnocAssoc(prompts0, prompts, para.text);
      prompts' := prompts + [para.text];
    }
    calls', nextId' := calls, nextId + 1;
    WholePrefix(calls);
    if embedding.Failure? {
      return buffer, nextId', Some(Failed(EmbeddingFailed(embedding.error))), calls', prompts';
    }
    buffer' := buffer + [Point(nextId, embedding.value, PayloadOf(para))];
    stop := None;
    if |buffer'| >= batchSize {
      var ok := store.Upsert(name, buffer');
      PrefixSnoc(calls, UpsertCall(name, buffer'));
      ReplaySnoc(cols, calls, UpsertCall(name, buffer'));
      SnocAssoc(log0, calls, UpsertCall(name, buffer'));
      calls' := calls + [UpsertCall(name, buffer')];
      if !ok {
        stop := Some(Failed(UpsertRejected));
      } else {
        buffer' := [];
      }
    }
  }

  /** The `if buffer:` upsert after the loop, and the run's outcome. */
  method FlushRest(paragraphs: seq<Paragraph>, name: string, store: Store, nextId: nat, buffer: seq<Point>,
                   ghost cols: Collections, ghost log0: seq<StoreCall>, ghost calls: seq<StoreCall>, ghost prompts: seq<string>)
    returns (outcome: RunOutcome, ghost calls': seq<StoreCall>)
    requires nextId == |paragraphs| && StoreSynced(store, cols, log0, calls)
    modifies store
    ensures (outcome, calls') == Finish(paragraphs, name, cols, LoopState(buffer, calls, prompts, None))
    ensures StoreSynced(store, cols, log0, calls')
    ensures IsPrefix(calls, calls')
  {
    calls' := calls;
    WholePrefix(calls);
    if buffer != [] {
      var ok := store.Upsert(name, buffer);
      PrefixSnoc(calls, UpsertCall(name, buffer));
      ReplaySnoc(cols, calls, UpsertCall(name, buffer));
      SnocAssoc(log0, calls, UpsertCall(name, buffer));
      calls' := calls + [UpsertCall(name, buffer)];
      if !ok {
        return Failed(UpsertRejected), calls';
      }
    }
    return Indexed(nextId), calls';
  }

  /**
   * The embedding of one streamed paragraph: the one already obtained for the
   * first paragraph, or a fresh request.
   */
  method NextEmbedding(client: EmbeddingClient, text: string, maybeEmbedding: Option<Vector>) returns (r: EmbedResult)
    modifies client`prompts
    ensures maybeEmbedding.Some? ==> r == Success(maybeEmbedding.value) && client.prompts == old(client.prompts)
    ensures maybeEmbedding.None? ==> r == client.respond(text) && client.prompts == old(client.prompts) + [text]
  {
    if maybeEmbedding.None? {
      r := client.Embed(text);
    } else {
      r := Success(maybeEmbedding.value);
    }
  }
}
