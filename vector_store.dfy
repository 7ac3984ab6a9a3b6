/**
 * The vector store as the indexer sees it: named collections of points, the
 * three client calls the indexer issues (get, recreate, upsert), and
 * `ensure_collection`'s choice between reusing and recreating a collection.
 * The store's own behaviour is reduced to what those calls change.
 */
module VectorStore {
  import opened Wrappers

  /** An embedding; its components are opaque, only its length matters here. */
  type Vector = seq<real>

  /** The payload the indexer writes: `{file, paragraph_index, text}`. */
  datatype Payload = Payload(file: string, paragraphIndex: nat, text: string)

  datatype Point = Point(id: nat, vector: Vector, payload: Payload)

  /** A collection: its configured vector size and its points by id. */
  datatype Collection = Collection(size: nat, points: map<nat, Point>)

  /**
   * What `get_collection` reports: `vectors_count` (the number of stored
   * vectors; None when the server leaves it out) and the configured size.
   */
  datatype CollectionInfo = CollectionInfo(vectorsCount: Option<nat>, size: nat)

  /** One call the indexer makes on the store. */
  datatype StoreCall =
    | GetCall(name: string)
    | RecreateCall(name: string, dim: nat)
    | UpsertCall(name: string, points: seq<Point>)

  type Collections = map<string, Collection>

  /**
   * What the lookup reports for a collection, given the `vectors_count` the
   * server sends: the exact point count, an approximate one, or None.
   */
  function Describe(c: Collection, reported: Option<nat>): CollectionInfo {
    CollectionInfo(reported, c.size)
  }

  /** The report of a server that counts every stored vector exactly. */
  function ExactCount(c: Collection): Option<nat> {
    Some(|c.points|)
  }

  /**
   * `existing.vectors_count or existing.config.params.vectors.size`: Python's
   * `or` falls back to the size when the count is None or 0.
   */
  function ExistingDim(info: CollectionInfo): (d: nat)
    ensures info.vectorsCount.Some? && info.vectorsCount.value != 0 ==> d == info.vectorsCount.value
    ensures info.vectorsCount.None? || info.vectorsCount.value == 0 ==> d == info.size
  {
    match info.vectorsCount
    case Some(n) => if n != 0 then n else info.size
    case None => info.size
  }

  /** The store accepts an upsert into an existing collection whose size every vector has. */
  predicate Accepts(cols: Collections, name: string, points: seq<Point>) {
    name in cols && forall k :: 0 <= k < |points| ==> |points[k].vector| == cols[name].size
  }

  /** Write points by id, a later point overwriting an earlier one with the same id. */
  function AddPoints(m: map<nat, Point>, points: seq<Point>): map<nat, Point>
    decreases |points|
  {
    if points == [] then m
    else AddPoints(m[points[0].id := points[0]], points[1..])
  }

  lemma {:induction false} AddPointsAppend(m: map<nat, Point>, a: seq<Point>, b: seq<Point>)
    ensures AddPoints(m, a + b) == AddPoints(AddPoints(m, a), b)
    decreases |a|
  {
    if a != [] {
      assert (a + b)[0] == a[0] && (a + b)[1..] == a[1..] + b;
      AddPointsAppend(m[a[0].id := a[0]], a[1..], b);
    } else {
      assert a + b == b;
    }
  }

  /** Writing points whose ids differ from `id` leaves the entry for `id` as it was. */
  lemma {:induction false} AddPointsKeeps(m: map<nat, Point>, points: seq<Point>, id: nat)
    requires forall k :: 0 <= k < |points| ==> points[k].id != id
    ensures id in AddPoints(m, points) <==> id in m
    ensures id in m ==> AddPoints(m, points)[id] == m[id]
    decreases |points|
  {
    if points != [] {
      AddPointsKeeps(m[points[0].id := points[0]], points[1..], id);
    }
  }

  /**
   * Points with pairwise different ids are all found under their ids after
   * being written, and nothing else but them is added.
   */
  lemma {:induction false} AddPointsStoresEach(m: map<nat, Point>, points: seq<Point>)
    requires forall i, j :: 0 <= i < j < |points| ==> points[i].id != points[j].id
    ensures forall k :: 0 <= k < |points| ==> points[k].id in AddPoints(m, points) && AddPoints(m, points)[points[k].id] == points[k]
    ensures forall id :: id in AddPoints(m, points) <==> id in m || exists k :: 0 <= k < |points| && points[k].id == id
    decreases |points|
  {
    if points != [] {
      var m1 := m[points[0].id := points[0]];
      var rest := points[1..];
      AddPointsStoresEach(m1, rest);
      AddPointsKeeps(m1, rest, points[0].id);
      forall k | 0 < k < |points|
        ensures points[k].id in AddPoints(m, points) && AddPoints(m, points)[points[k].id] == points[k]
      {
        assert points[k] == rest[k - 1];
      }
      forall id ensures id in AddPoints(m, points) <==> id in m || exists k :: 0 <= k < |points| && points[k].id == id
      {
        if exists k :: 0 <= k < |rest| && rest[k].id == id {
          var k :| 0 <= k < |rest| && rest[k].id == id;
          assert points[k + 1].id == id;
        }
        if exists k :: 0 <= k < |points| && points[k].id == id {
          var k :| 0 <= k < |points| && points[k].id == id;
          if k > 0 {
            assert rest[k - 1].id == id;
          }
        }
      }
    }
  }

  /** Points numbered 0, 1, 2, ... by their position add exactly the ids below their count. */
  lemma AddPointsNumbered(m: map<nat, Point>, points: seq<Point>)
    requires forall k :: 0 <= k < |points| ==> points[k].id == k
    ensures forall k :: 0 <= k < |points| ==> k in AddPoints(m, points) && AddPoints(m, points)[k] == points[k]
    ensures forall id: nat :: id in AddPoints(m, points) <==> id in m || id < |points|
  {
    AddPointsStoresEach(m, points);
    forall id: nat ensures id in AddPoints(m, points) <==> id in m || id < |points| {
      if id < |points| {
        assert points[id].id == id;
      }
      if id in AddPoints(m, points) && id !in m {
        var k :| 0 <= k < |points| && points[k].id == id;
      }
    }
  }

  /** What one call does to the collections. A rejected upsert changes nothing. */
  function Apply(cols: Collections, call: StoreCall): Collections {
    match call
    case GetCall(_) => cols
    case RecreateCall(name, dim) => cols[name := Collection(dim, map[])]
    case UpsertCall(name, points) =>
      if Accepts(cols, name, points)
      then cols[name := Collection(cols[name].size, AddPoints(cols[name].points, points))]
      else cols
  }

  /** The collections after a sequence of calls. */
  function Replay(cols: Collections, calls: seq<StoreCall>): Collections
    decreases |calls|
  {
    if calls == [] then cols else Apply(Replay(cols, calls[..|calls| - 1]), calls[|calls| - 1])
  }

  /** Every upsert among `calls` was accepted by the store in the state it met. */
  predicate AllAccepted(cols: Collections, calls: seq<StoreCall>)
    decreases |calls|
  {
    calls == [] ||
    (var before := calls[..|calls| - 1];
     var last := calls[|calls| - 1];
     AllAccepted(cols, before) && (last.UpsertCall? ==> Accepts(Replay(cols, before), last.name, last.points)))
  }

  lemma ReplaySnoc(cols: Collections, calls: seq<StoreCall>, call: StoreCall)
    ensures Replay(cols, calls + [call]) == Apply(Replay(cols, calls), call)
  {
    assert (calls + [call])[..|calls|] == calls;
  }

  /* ---------------------------------------------------------------------
   * `ensure_collection` as written: it compares `vectors_count or size`
   * with the dimension (see the counterexamples below).
   * ------------------------------------------------------------------- */

  /**
   * The calls `ensure_collection` as written and its caller's `except`
   * branch make for `dim`: a `get_collection`; then a `recreate_collection`
   * unless the collection exists and its ExistingDim equals `dim` (a missing
   * collection makes `get_collection` raise, and the caller recreates it).
   */
  function EnsureCallsAsWritten(cols: Collections, name: string, dim: nat, reported: Option<nat>): seq<StoreCall> {
    if name in cols && ExistingDim(Describe(cols[name], reported)) == dim
    then [GetCall(name)]
    else [GetCall(name), RecreateCall(name, dim)]
  }

  function EnsuredAsWritten(cols: Collections, name: string, dim: nat, reported: Option<nat>): Collections {
    Replay(cols, EnsureCallsAsWritten(cols, name, dim, reported))
  }

  /**
   * As written, the collection is reused, untouched, exactly when it exists
   * and ExistingDim equals `dim`; otherwise it is recreated with `dim` and
   * no points. No other collection changes.
   */
  lemma AsWrittenReuseOrRecreate(cols: Collections, name: string, dim: nat, reported: Option<nat>)
    ensures var after := EnsuredAsWritten(cols, name, dim, reported);
            var reuse := name in cols && ExistingDim(Describe(cols[name], reported)) == dim;
            && (reuse <==> RecreateCall(name, dim) !in EnsureCallsAsWritten(cols, name, dim, reported))
            && (reuse ==> after == cols)
            && (!reuse ==> after == cols[name := Collection(dim, map[])])
  {
    var calls := EnsureCallsAsWritten(cols, name, dim, reported);
    assert Replay(cols, [GetCall(name)]) == cols by {
      assert [GetCall(name)][..0] == [];
    }
    if !(name in cols && ExistingDim(Describe(cols[name], reported)) == dim) {
      assert calls[..1] == [GetCall(name)];
    }
  }

  /**
   * As written, a collection that already has the right size but holds
   * points is recreated when the server reports the exact count:
   * two-dimensional vectors, one point, and ensuring for dimension 2
   * compares the count 1 with 2 and drops the point.
   */
  lemma EnsureDropsMatchingCollection()
    ensures var p := Point(0, [0.5, 0.5], Payload("a.txt", 0, "text"));
            var cols := map["lectio_corpus" := Collection(2, map[0 := p])];
            && cols["lectio_corpus"].size == 2
            && EnsuredAsWritten(cols, "lectio_corpus", 2, ExactCount(cols["lectio_corpus"]))["lectio_corpus"].points == map[]
  {
    var p := Point(0, [0.5, 0.5], Payload("a.txt", 0, "text"));
    var cols := map["lectio_corpus" := Collection(2, map[0 := p])];
    assert |map[0 := p]| == 1 by {
      assert map[0 := p].Keys == {0};
    }
    AsWrittenReuseOrRecreate(cols, "lectio_corpus", 2, ExactCount(cols["lectio_corpus"]));
  }

  /**
   * As written, a collection of the wrong size is reused when its point count
   * happens to equal `dim` and the server reports it exactly: size 5 with two
   * points, ensured for dimension 2, is kept, and an upsert of
   * two-dimensional vectors into it is rejected.
   */
  lemma EnsureKeepsMismatchedCollection()
    ensures var p0 := Point(0, [0.0, 0.0, 0.0, 0.0, 0.0], Payload("a.txt", 0, "text"));
            var p1 := Point(1, [0.0, 0.0, 0.0, 0.0, 0.0], Payload("a.txt", 1, "text"));
            var cols := map["lectio_corpus" := Collection(5, map[0 := p0, 1 := p1])];
            var after := EnsuredAsWritten(cols, "lectio_corpus", 2, ExactCount(cols["lectio_corpus"]));
            && "lectio_corpus" in after && after["lectio_corpus"].size == 5
            && !Accepts(after, "lectio_corpus", [Point(2, [1.0, 1.0], Payload("b.txt", 0, "text"))])
  {
    var p0 := Point(0, [0.0, 0.0, 0.0, 0.0, 0.0], Payload("a.txt", 0, "text"));
    var p1 := Point(1, [0.0, 0.0, 0.0, 0.0, 0.0], Payload("a.txt", 1, "text"));
    var pts := map[0 := p0, 1 := p1];
    var cols := map["lectio_corpus" := Collection(5, pts)];
    assert |pts| == 2 by {
      assert pts.Keys == {0, 1};
    }
    AsWrittenReuseOrRecreate(cols, "lectio_corpus", 2, ExactCount(cols["lectio_corpus"]));
    var after := EnsuredAsWritten(cols, "lectio_corpus", 2, ExactCount(cols["lectio_corpus"]));
    assert after == cols;
    var batch := [Point(2, [1.0, 1.0], Payload("b.txt", 0, "text"))];
    assert |batch[0].vector| == 2 != after["lectio_corpus"].size;
  }

  /* ---------------------------------------------------------------------
   * `ensure_collection` as its docstring describes it, comparing the
   * configured vector size with the dimension; the indexing run uses this.
   * ------------------------------------------------------------------- */

  /** The dimension of a collection: its configured vector size. */
  function ConfiguredDim(info: CollectionInfo): nat {
    info.size
  }

  /**
   * The calls for `dim`: a `get_collection`, then a `recreate_collection`
   * unless the collection exists with vector size `dim` (a missing
   * collection makes `get_collection` raise, and the caller recreates it).
   */
  function EnsureCalls(cols: Collections, name: string, dim: nat): seq<StoreCall> {
    if name in cols && cols[name].size == dim
    then [GetCall(name)]
    else [GetCall(name), RecreateCall(name, dim)]
  }

  /** The collections after ensuring `name` for `dim`. */
  function Ensured(cols: Collections, name: string, dim: nat): Collections {
    Replay(cols, EnsureCalls(cols, name, dim))
  }

  /**
   * When the server leaves `vectors_count` out, or reports 0, the `or` of
   * line 79 falls back to the size, and the decision as written is the one
   * by size.
   */
  lemma AsWrittenWithoutCount(cols: Collections, name: string, dim: nat, reported: Option<nat>)
    requires reported == None || reported == Some(0)
    ensures EnsureCallsAsWritten(cols, name, dim, reported) == EnsureCalls(cols, name, dim)
    ensures EnsuredAsWritten(cols, name, dim, reported) == Ensured(cols, name, dim)
  {
  }

  /**
   * The collection is reused, untouched, exactly when it exists with size
   * `dim`; otherwise it is recreated with `dim` and no points, a missing one
   * included. No other collection changes.
   */
  lemma EnsureReuseOrRecreate(cols: Collections, name: string, dim: nat)
    ensures var after := Ensured(cols, name, dim);
            var reuse := name in cols && cols[name].size == dim;
            && (reuse <==> RecreateCall(name, dim) !in EnsureCalls(cols, name, dim))
            && (reuse ==> after == cols)
            && (!reuse ==> after == cols[name := Collection(dim, map[])])
  {
    var calls := EnsureCalls(cols, name, dim);
    assert Replay(cols, [GetCall(name)]) == cols by {
      assert [GetCall(name)][..0] == [];
    }
    if !(name in cols && cols[name].size == dim) {
      assert calls[..1] == [GetCall(name)];
    }
  }


  /** Ensuring twice for the same dimension recreates nothing the second time. */
  lemma EnsureIdempotent(cols: Collections, name: string, dim: nat)
    ensures var after := Ensured(cols, name, dim);
            && EnsureCalls(after, name, dim) == [GetCall(name)]
            && Ensured(after, name, dim) == after
  {
    EnsureReuseOrRecreate(cols, name, dim);
    EnsureReuseOrRecreate(Ensured(cols, name, dim), name, dim);
  }

  /* ---------------------------------------------------------------------
   * A lookup that raises. `get_collection` can raise for an existing
   * collection too (a time-out, a server error); `main`'s `except` branch
   * then recreates the collection, whether or not it existed.
   * ------------------------------------------------------------------- */

  /** The calls for `dim` when the lookup raises exactly when `lookupFails`. */
  function EnsureCallsWith(cols: Collections, name: string, dim: nat, lookupFails: bool): seq<StoreCall> {
    if lookupFails then [GetCall(name), RecreateCall(name, dim)] else EnsureCalls(cols, name, dim)
  }

  function EnsuredWith(cols: Collections, name: string, dim: nat, lookupFails: bool): Collections {
    Replay(cols, EnsureCallsWith(cols, name, dim, lookupFails))
  }

  /** A failed lookup recreates the collection with `dim`, an existing one of that size included. */
  lemma FailedLookupRecreates(cols: Collections, name: string, dim: nat)
    ensures RecreateCall(name, dim) in EnsureCallsWith(cols, name, dim, true)
    ensures EnsuredWith(cols, name, dim, true) == cols[name := Collection(dim, map[])]
    ensures EnsuredWith(cols, name, dim, true)[name].points == map[]
  {
    var calls := EnsureCallsWith(cols, name, dim, true);
    assert calls[..1] == [GetCall(name)];
    assert Replay(cols, [GetCall(name)]) == cols by {
      assert [GetCall(name)][..0] == [];
    }
  }

  /** The collections as the lookup sees them: without `name` when it raises. */
  function AsSeen(cols: Collections, name: string, lookupFails: bool): Collections {
    if lookupFails then cols - {name} else cols
  }

  /** The collections after some calls and then some more. */
  lemma {:induction false} ReplayAppend(cols: Collections, a: seq<StoreCall>, b: seq<StoreCall>)
    ensures Replay(cols, a + b) == Replay(Replay(cols, a), b)
    decreases |b|
  {
    if b == [] {
      assert a + b == a;
    } else {
      ReplayAppend(cols, a, b[..|b| - 1]);
      assert (a + b)[..|a + b| - 1] == a + b[..|b| - 1];
    }
  }

  /**
   * Ensuring with a lookup that raises is ensuring a store in which the
   * collection is missing: the same calls, and the same collections after
   * them and after any calls that follow.
   */
  lemma EnsureAsSeen(cols: Collections, name: string, dim: nat, lookupFails: bool, rest: seq<StoreCall>)
    ensures var seen := AsSeen(cols, name, lookupFails);
            var calls := EnsureCallsWith(cols, name, dim, lookupFails);
            && calls == EnsureCalls(seen, name, dim)
            && Replay(cols, calls + rest) == Replay(seen, calls + rest)
  {
    var seen := AsSeen(cols, name, lookupFails);
    var calls := EnsureCallsWith(cols, name, dim, lookupFails);
    if lookupFails {
      FailedLookupRecreates(cols, name, dim);
      FailedLookupRecreates(seen, name, dim);
      assert seen[name := Collection(dim, map[])] == cols[name := Collection(dim, map[])];
      ReplayAppend(cols, calls, rest);
      ReplayAppend(seen, calls, rest);
    }
  }

  /**
   * What the comparison is for: afterwards the store accepts every batch of
   * vectors of length `dim`, whether or not the lookup raised; a collection
   * that already had that size keeps its points when the lookup went
   * through, and loses them when it raised.
   */
  lemma EnsureBySizeReadiesCollection(cols: Collections, name: string, dim: nat, lookupFails: bool)
    ensures var after := EnsuredWith(cols, name, dim, lookupFails);
            && name in after && after[name].size == dim
            && (forall points: seq<Point> :: (forall k :: 0 <= k < |points| ==> |points[k].vector| == dim)
                                               ==> Accepts(after, name, points))
            && (!lookupFails && name in cols && cols[name].size == dim ==> after[name] == cols[name])
            && (lookupFails ==> after[name].points == map[])
  {
    if lookupFails {
      FailedLookupRecreates(cols, name, dim);
    } else {
      EnsureReuseOrRecreate(cols, name, dim);
    }
  }

  /** Any calls that begin with the ensure leave the same collections on the store and on the store as seen. */
  lemma ReplayAsSeen(cols: Collections, name: string, dim: nat, lookupFails: bool, calls: seq<StoreCall>)
    requires IsPrefix(EnsureCallsWith(cols, name, dim, lookupFails), calls)
    ensures Replay(cols, calls) == Replay(AsSeen(cols, name, lookupFails), calls)
  {
    var ensure := EnsureCallsWith(cols, name, dim, lookupFails);
    EnsureAsSeen(cols, name, dim, lookupFails, calls[|ensure|..]);
    assert calls == ensure + calls[|ensure|..];
  }

  /** A recreation drops every point the collection held. */
  lemma RecreationDropsPoints(cols: Collections, name: string, dim: nat)
    requires RecreateCall(name, dim) in EnsureCalls(cols, name, dim)
    ensures name in Ensured(cols, name, dim)
    ensures Ensured(cols, name, dim)[name].points == map[]
  {
    EnsureReuseOrRecreate(cols, name, dim);
  }

  /**
   * The store client: its collections and, as a ghost, every call made on it.
   * Each method changes the collections as Apply says.
   */
  class Store {
    var collections: Collections
    ghost var log: seq<StoreCall>
    /** The names whose lookup raises even when the collection exists: `get_collection` itself, or reading what it returned. */
    const lookupFails: string -> bool
    /** The `vectors_count` the server reports for each name: exact, approximate, or left out. */
    const reportedCount: string -> Option<nat>

    constructor (initial: Collections, lookupFails: string -> bool, reportedCount: string -> Option<nat>)
      ensures collections == initial && log == []
      ensures this.lookupFails == lookupFails && this.reportedCount == reportedCount
    {
      collections := initial;
      log := [];
      this.lookupFails := lookupFails;
      this.reportedCount := reportedCount;
    }

    /** `get_collection`: None stands for the exception it raises, for a missing collection or any other reason. */
    method GetCollection(name: string) returns (info: Option<CollectionInfo>)
      modifies this`log
      ensures log == old(log) + [GetCall(name)]
      ensures info == if lookupFails(name) || name !in collections then None else Some(Describe(collections[name], reportedCount(name)))
    {
      log := log + [GetCall(name)];
      info := if lookupFails(name) || name !in collections then None else Some(Describe(collections[name], reportedCount(name)));
    }

    /** `recreate_collection`: drop the collection if it exists and create it empty with `dim`. */
    method RecreateCollection(name: string, dim: nat)
      modifies this
      ensures log == old(log) + [RecreateCall(name, dim)]
      ensures collections == Apply(old(collections), RecreateCall(name, dim))
    {
      log := log + [RecreateCall(name, dim)];
      collections := collections[name := Collection(dim, map[])];
    }

    /** `upsert`: `ok` is false when the store rejects the batch (and then raises). */
    method Upsert(name: string, points: seq<Point>) returns (ok: bool)
      modifies this
      ensures log == old(log) + [UpsertCall(name, points)]
      ensures ok == Accepts(old(collections), name, points)
      ensures collections == Apply(old(collections), UpsertCall(name, points))
    {
      log := log + [UpsertCall(name, points)];
      ok := Accepts(collections, name, points);
      if ok {
        collections := collections[name := Collection(collections[name].size, AddPoints(collections[name].points, points))];
      }
    }
  }

  /**
   * `ensure_collection(client, name, dim)` together with the `try/except`
   * around it in `main`, which recreates the collection when the lookup
   * raises; the existing collection's size is compared with `dim`.
   */
  method EnsureCollection(store: Store, name: string, dim: nat)
    modifies store
    ensures store.log == old(store.log) + EnsureCallsWith(old(store.collections), name, dim, store.lookupFails(name))
    ensures store.collections == EnsuredWith(old(store.collections), name, dim, store.lookupFails(name))
  {
    ghost var cols := store.collections;
    var info := store.GetCollection(name);
    assert Replay(cols, [GetCall(name)]) == cols by {
      assert [GetCall(name)][..0] == [];
    }
    if info.None? {
      store.RecreateCollection(name, dim);
      assert EnsureCallsWith(cols, name, dim, store.lookupFails(name))[..1] == [GetCall(name)];
    } else if ConfiguredDim(info.value) != dim {
      store.RecreateCollection(name, dim);
      assert EnsureCalls(cols, name, dim)[..1] == [GetCall(name)];
    }
  }
}
