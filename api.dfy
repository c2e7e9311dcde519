/**
 * The lookup layer of api.py. An ANN index pairs an opaque search structure
 * with the ordered list of logo IDs it was built from; the request handlers
 * check their parameters, resolve a logo ID through the index or, failing
 * that, through the embedding store, and turn the positions the search
 * returns back into logo IDs.
 */
module Api {
  import opened Wrappers
  import opened Positions
  import opened Embeddings

  /** A distance computed by the search structure; only passed through. */
  type Distance = real

  /** What a search returns: item positions and, position by position, their distances. */
  datatype Hits = Hits(positions: seq<nat>, distances: seq<Distance>)

  /**
   * The Annoy index, a native library: `get_nns_by_item` and
   * `get_nns_by_vector`, each asked for `count` neighbours.
   */
  datatype Searcher = Searcher(byItem: (nat, int) -> Hits, byVector: (Vector, int) -> Hits)

  /** A search result on an index of `size` items: one distance per position, every position an item. */
  predicate InRange(h: Hits, size: nat) {
    && |h.distances| == |h.positions|
    && forall i :: 0 <= i < |h.positions| ==> h.positions[i] < size
  }

  /** What the model assumes of the native search: results in range and at most `count` of them. */
  ghost predicate SearchFits(search: Searcher, size: nat) {
    && (forall item, count :: InRange(search.byItem(item, count), size) &&
          (0 <= count ==> |search.byItem(item, count).positions| <= count))
    && (forall v, count :: InRange(search.byVector(v, count), size) &&
          (0 <= count ==> |search.byVector(v, count).positions| <= count))
  }

  /** `ANNIndex`: the search structure, the keys in item order and the inverse `key_to_ann_id`. */
  datatype AnnIndex = AnnIndex(index: Searcher, keys: seq<LogoId>, keyToAnnId: map<LogoId, nat>) {
    ghost predicate Valid() {
      keyToAnnId == LastPositions(keys, 0) && SearchFits(index, |keys|)
    }
  }

  /**
   * `ANNIndex.__init__`: the inverse map holds every key, at a position that
   * holds that key; for a repeated key, the last such position.
   */
  function NewAnnIndex(index: Searcher, keys: seq<LogoId>): (a: AnnIndex)
    ensures a.index == index && a.keys == keys
    ensures a.keyToAnnId.Keys == Elements(keys)
    ensures forall k :: k in a.keyToAnnId ==> IsLastPosition(keys, k, a.keyToAnnId[k])
    ensures SearchFits(index, |keys|) ==> a.Valid()
  {
    LastPositionsSpec(keys, 0);
    AnnIndex(index, keys, LastPositions(keys, 0))
  }

  /** One entry of a result list: `{"distance": ..., "logo_id": ...}`. */
  datatype Neighbor = Neighbor(distance: Distance, logoId: LogoId)

  /** `results` lists the hits in order, each position replaced by the logo ID at that position of `keys`. */
  predicate Assembled(results: seq<Neighbor>, keys: seq<LogoId>, h: Hits)
    requires InRange(h, |keys|)
  {
    && |results| == |h.positions|
    && forall i :: 0 <= i < |results| ==> results[i] == Neighbor(h.distances[i], keys[h.positions[i]])
  }

  /** The loop shared by `get_nearest_neighbors` and the from-embedding handler that builds the result list. */
  method AssembleResults(keys: seq<LogoId>, h: Hits) returns (results: seq<Neighbor>)
    requires InRange(h, |keys|)
    ensures Assembled(results, keys, h)
  {
    results := [];
    var i := 0;
    while i < |h.positions|
      invariant 0 <= i <= |h.positions|
      invariant |results| == i
      invariant forall j :: 0 <= j < i ==> results[j] == Neighbor(h.distances[j], keys[h.positions[j]])
    {
      results := results + [Neighbor(h.distances[i], keys[h.positions[i]])];
      i := i + 1;
    }
  }

  /**
   * The search `get_nearest_neighbors` runs for `logoId`: by item when the ID
   * is indexed (even if it is also stored), by its stored embedding when it is
   * only stored, and none when it is neither.
   */
  function Search(ann: AnnIndex, count: int, logoId: LogoId, store: EmbeddingStore): (h: Option<Hits>)
    reads store, store.externalId, store.embedding
    requires store.Valid()
    ensures h.None? <==> logoId !in ann.keyToAnnId && !store.Contains(logoId)
    ensures logoId in ann.keyToAnnId ==> h == Some(ann.index.byItem(ann.keyToAnnId[logoId], count))
    ensures logoId !in ann.keyToAnnId ==>
      forall j :: IsLastPosition(store.externalId[..store.offset], logoId, j) ==>
        h == Some(ann.index.byVector(store.embedding[j], count))
  {
    if logoId in ann.keyToAnnId then Some(ann.index.byItem(ann.keyToAnnId[logoId], count))
    else
      match store.GetEmbedding(logoId)
      case None => None
      case Some(embedding) => Some(ann.index.byVector(embedding, count))
  }

  /**
   * `get_nearest_neighbors`: `None` exactly when there is nothing to search
   * with; otherwise one entry per returned position, in order, each an
   * indexed logo ID, and no more than `count` of them.
   */
  method GetNearestNeighbors(ann: AnnIndex, count: int, logoId: LogoId, store: EmbeddingStore)
    returns (results: Option<seq<Neighbor>>)
    requires ann.Valid() && store.Valid()
    ensures results.None? <==> Search(ann, count, logoId, store).None?
    ensures results.Some? ==>
      && InRange(Search(ann, count, logoId, store).value, |ann.keys|)
      && Assembled(results.value, ann.keys, Search(ann, count, logoId, store).value)
    ensures results.Some? ==>
      && (0 <= count ==> |results.value| <= count)
      && forall i :: 0 <= i < |results.value| ==> results.value[i].logoId in ann.keyToAnnId
  {
    var hits: Hits;
    if logoId in ann.keyToAnnId {
      var itemIndex := ann.keyToAnnId[logoId];
      hits := ann.index.byItem(itemIndex, count);
    } else {
      var embedding := store.GetEmbedding(logoId);
      if embedding.None? {
        return None;
      }
      hits := ann.index.byVector(embedding.value, count);
    }
    var list := AssembleResults(ann.keys, hits);
    LastPositionsSpec(ann.keys, 0);
    forall i | 0 <= i < |list|
      ensures list[i].logoId in ann.keyToAnnId
    {
      assert list[i].logoId == ann.keys[hits.positions[i]];
      assert list[i].logoId in Elements(ann.keys);
    }
    results := Some(list);
  }

  /** How a request fails: an HTTP 400 with its title, a 404, or an uncaught exception (500). */
  datatype HttpError = BadRequest(title: string) | NotFound | ServerError

  /** The JSON bodies of the handlers' responses. */
  datatype Body =
    | Neighbors(results: seq<Neighbor>, count: nat)
    | NeighborsByLogo(byLogo: map<LogoId, seq<Neighbor>>, count: nat)
    | Added(added: nat)
    | StoredCount(count: nat)
    | Stored(stored: seq<LogoId>)

  type Response = Result<Body, HttpError>

  const DefaultCount: int := 100
  const MinCount: int := 1
  const MaxCount: int := 500

  /** `req.get_param_as_int("count", min_value=1, max_value=500, default=100)`. */
  function CountParam(raw: Option<int>): (r: Result<int, HttpError>)
    ensures r.Success? ==> MinCount <= r.value <= MaxCount
    ensures raw.None? ==> r == Success(DefaultCount)
    ensures raw.Some? ==> (r.Success? <==> MinCount <= raw.value <= MaxCount)
    ensures raw.Some? && r.Success? ==> r.value == raw.value
    ensures r.Failure? ==> r.error.BadRequest?
  {
    match raw
    case None => Success(DefaultCount)
    case Some(c) => if MinCount <= c <= MaxCount then Success(c) else Failure(BadRequest("Invalid parameter count"))
  }

  /** Every loaded index satisfies its invariant. */
  ghost predicate AllValid(indexes: map<string, AnnIndex>) {
    forall name :: name in indexes ==> indexes[name].Valid()
  }

  /**
   * `ANNResource.on_get`: a bad `count`, then an unknown index, is a bad
   * request; without a logo ID a key of the index is drawn at random; a logo
   * with nothing to search with is a 404.
   */
  method AnnResourceOnGet(indexes: map<string, AnnIndex>, defaultIndex: string, indexName: Option<string>,
                          countRaw: Option<int>, logoId: Option<LogoId>, randint: (int, int) -> int,
                          store: EmbeddingStore)
    returns (resp: Response, ghost queried: LogoId)
    requires AllValid(indexes) && store.Valid()
    requires forall a, b :: a <= b ==> a <= randint(a, b) <= b
    ensures CountParam(countRaw).Failure? ==> resp == Failure(CountParam(countRaw).error)
    ensures CountParam(countRaw).Success? && indexName.GetOr(defaultIndex) !in indexes ==>
      resp == Failure(BadRequest("unknown index: " + indexName.GetOr(defaultIndex)))
    ensures CountParam(countRaw).Success? && indexName.GetOr(defaultIndex) in indexes ==>
      var ann := indexes[indexName.GetOr(defaultIndex)];
      var count := CountParam(countRaw).value;
      if logoId.None? && ann.keys == [] then resp == Failure(ServerError)
      else
        && (if logoId.Some? then queried == logoId.value else queried in ann.keys)
        && (resp == Failure(NotFound) <==> Search(ann, count, queried, store).None?)
        && (resp.Failure? ==> resp == Failure(NotFound))
        && (resp.Success? ==>
              && resp.value.Neighbors?
              && InRange(Search(ann, count, queried, store).value, |ann.keys|)
              && Assembled(resp.value.results, ann.keys, Search(ann, count, queried, store).value)
              && resp.value.count == |resp.value.results| <= count)
  {
    queried := 0;
    var count := CountParam(countRaw);
    if count.Failure? {
      return Failure(count.error), queried;
    }
    var name := indexName.GetOr(defaultIndex);
    if name !in indexes {
      return Failure(BadRequest("unknown index: " + name)), queried;
    }
    var ann := indexes[name];
    var id: LogoId;
    if logoId.None? {
      if |ann.keys| == 0 {
        // random.randint(0, -1) raises ValueError
        return Failure(ServerError), queried;
      }
      var draw := randint(0, |ann.keys| - 1);
      id := ann.keys[draw];
    } else {
      id := logoId.value;
    }
    queried := id;
    var results := GetNearestNeighbors(ann, count.value, id, store);
    if results.None? {
      resp := Failure(NotFound);
    } else {
      resp := Success(Neighbors(results.value, |results.value|));
    }
  }

  /** The IDs of `ids` for which a search has something to search with. */
  function Searchable(ann: AnnIndex, count: int, ids: seq<LogoId>, store: EmbeddingStore): set<LogoId>
    reads store, store.externalId, store.embedding
    requires store.Valid()
  {
    set id | id in ids && Search(ann, count, id, store).Some?
  }

  /** Extending the requested IDs by one adds that ID exactly when it can be searched. */
  lemma SearchableSnoc(ann: AnnIndex, count: int, ids: seq<LogoId>, id: LogoId, store: EmbeddingStore)
    requires store.Valid()
    ensures Searchable(ann, count, ids + [id], store) ==
      if Search(ann, count, id, store).Some? then Searchable(ann, count, ids, store) + {id}
      else Searchable(ann, count, ids, store)
  {
  }

  /** One entry of a batch answer: the ID can be searched and `neighbors` is its assembled result list. */
  predicate BatchEntry(ann: AnnIndex, count: int, id: LogoId, store: EmbeddingStore, neighbors: seq<Neighbor>)
    reads store, store.externalId, store.embedding
    requires store.Valid()
  {
    && Search(ann, count, id, store).Some?
    && InRange(Search(ann, count, id, store).value, |ann.keys|)
    && Assembled(neighbors, ann.keys, Search(ann, count, id, store).value)
  }

  /** Every entry of `results` is a batch entry. */
  predicate AllEntries(ann: AnnIndex, count: int, store: EmbeddingStore, results: map<LogoId, seq<Neighbor>>)
    reads store, store.externalId, store.embedding
    requires store.Valid()
  {
    forall id :: id in results ==> BatchEntry(ann, count, id, store, results[id])
  }

  /** Adding the result list of a search that found something keeps every entry a batch entry. */
  lemma AllEntriesUpdate(ann: AnnIndex, count: int, store: EmbeddingStore, results: map<LogoId, seq<Neighbor>>,
                         id: LogoId, neighbors: seq<Neighbor>)
    requires store.Valid() && AllEntries(ann, count, store, results)
    requires Search(ann, count, id, store).Some?
    requires InRange(Search(ann, count, id, store).value, |ann.keys|)
    requires Assembled(neighbors, ann.keys, Search(ann, count, id, store).value)
    ensures AllEntries(ann, count, store, results[id := neighbors])
  {
  }

  /**
   * `ANNBatchResource.on_get`: after the same parameter checks, the map holds
   * exactly the requested IDs that have something to search with, each with
   * its result list; the others are left out without failing the request.
   */
  method AnnBatchResourceOnGet(indexes: map<string, AnnIndex>, defaultIndex: string, indexName: Option<string>,
                               countRaw: Option<int>, logoIdsRaw: Option<seq<LogoId>>, store: EmbeddingStore)
    returns (resp: Response)
    requires AllValid(indexes) && store.Valid()
    ensures CountParam(countRaw).Failure? ==> resp == Failure(CountParam(countRaw).error)
    ensures CountParam(countRaw).Success? && logoIdsRaw.None? ==> resp == Failure(BadRequest("Missing parameter logo_ids"))
    ensures CountParam(countRaw).Success? && logoIdsRaw.Some? && indexName.GetOr(defaultIndex) !in indexes ==>
      resp == Failure(BadRequest("unknown index: " + indexName.GetOr(defaultIndex)))
    ensures CountParam(countRaw).Success? && logoIdsRaw.Some? && indexName.GetOr(defaultIndex) in indexes ==>
      var ann := indexes[indexName.GetOr(defaultIndex)];
      var count := CountParam(countRaw).value;
      && resp.Success? && resp.value.NeighborsByLogo?
      && resp.value.byLogo.Keys == Searchable(ann, count, logoIdsRaw.value, store)
      && (forall id :: id in resp.value.byLogo ==> BatchEntry(ann, count, id, store, resp.value.byLogo[id]))
      && resp.value.count == |resp.value.byLogo|
  {
    var count := CountParam(countRaw);
    if count.Failure? {
      return Failure(count.error);
    }
    if logoIdsRaw.None? {
      return Failure(BadRequest("Missing parameter logo_ids"));
    }
    var name := indexName.GetOr(defaultIndex);
    if name !in indexes {
      return Failure(BadRequest("unknown index: " + name));
    }
    var results := SearchEach(indexes[name], count.value, logoIdsRaw.value, store);
    resp := Success(NeighborsByLogo(results, |results|));
  }

  /** The loop of `ANNBatchResource.on_get`: one search per requested ID, keeping those that found something. */
  method SearchEach(ann: AnnIndex, count: int, logoIds: seq<LogoId>, store: EmbeddingStore)
    returns (results: map<LogoId, seq<Neighbor>>)
    requires ann.Valid() && store.Valid()
    ensures results.Keys == Searchable(ann, count, logoIds, store)
    ensures forall id :: id in results ==> BatchEntry(ann, count, id, store, results[id])
  {
    results := map[];
    var i := 0;
    while i < |logoIds|
      invariant 0 <= i <= |logoIds|
      invariant results.Keys == Searchable(ann, count, logoIds[..i], store)
      invariant AllEntries(ann, count, store, results)
    {
      assert logoIds[..i + 1] == logoIds[..i] + [logoIds[i]];
      results := SearchOne(ann, count, logoIds[..i], logoIds[i], store, results);
      i := i + 1;
    }
    assert logoIds[..i] == logoIds;
  }

  /** One turn of the loop of `SearchEach`: the search for `id`, added to `results` when it found something. */
  method SearchOne(ann: AnnIndex, count: int, done: seq<LogoId>, id: LogoId, store: EmbeddingStore,
                   results: map<LogoId, seq<Neighbor>>)
    returns (next: map<LogoId, seq<Neighbor>>)
    requires ann.Valid() && store.Valid()
    requires results.Keys == Searchable(ann, count, done, store)
    requires AllEntries(ann, count, store, results)
    ensures next.Keys == Searchable(ann, count, done + [id], store)
    ensures AllEntries(ann, count, store, next)
  {
    SearchableSnoc(ann, count, done, id, store);
    var logoResults := GetNearestNeighbors(ann, count, id, store);
    next := results;
    if logoResults.Some? {
      AllEntriesUpdate(ann, count, store, results, id, logoResults.value);
      next := results[id := logoResults.value];
    }
  }

  /**
   * `ANNEmbeddingResource.on_post`: an unknown index, then an embedding of the
   * wrong length, is a bad request and no search is run; otherwise the result
   * list of a search by that vector (`count` defaults to 1 and is not checked).
   */
  method AnnEmbeddingResourceOnPost(indexes: map<string, AnnIndex>, defaultIndex: string, indexName: Option<string>,
                                    countField: Option<int>, embeddingField: Option<Vector>, dimension: int)
    returns (resp: Response)
    requires AllValid(indexes)
    ensures indexName.GetOr(defaultIndex) !in indexes ==> resp == Failure(BadRequest("unknown index: " + indexName.GetOr(defaultIndex)))
    ensures indexName.GetOr(defaultIndex) in indexes && embeddingField.None? ==> resp == Failure(ServerError)
    ensures indexName.GetOr(defaultIndex) in indexes && embeddingField.Some? && |embeddingField.value| != dimension ==>
      resp == Failure(BadRequest("invalid dimension"))
    ensures indexName.GetOr(defaultIndex) in indexes && embeddingField.Some? && |embeddingField.value| == dimension ==>
      var ann := indexes[indexName.GetOr(defaultIndex)];
      var hits := ann.index.byVector(embeddingField.value, countField.GetOr(1));
      && InRange(hits, |ann.keys|)
      && resp.Success? && resp.value.Neighbors?
      && Assembled(resp.value.results, ann.keys, hits)
      && resp.value.count == |resp.value.results|
  {
    var name := indexName.GetOr(defaultIndex);
    if name !in indexes {
      return Failure(BadRequest("unknown index: " + name));
    }
    var ann := indexes[name];
    var count := countField.GetOr(1);
    if embeddingField.None? {
      // req.media["embedding"] raises KeyError
      return Failure(ServerError);
    }
    var embedding := embeddingField.value;
    if |embedding| != dimension {
      return Failure(BadRequest("invalid dimension"));
    }
    var hits := ann.index.byVector(embedding, count);
    var results := AssembleResults(ann.keys, hits);
    resp := Success(Neighbors(results, |results|));
  }

  /** The logo IDs of an add request, in request order. */
  function RequestIds(logos: seq<(LogoId, Box)>): seq<LogoId>
  {
    seq(|logos|, i requires 0 <= i < |logos| => logos[i].0)
  }

  /** The bounding boxes of an add request, in request order. */
  function RequestBoxes(logos: seq<(LogoId, Box)>): seq<Box>
  {
    seq(|logos|, i requires 0 <= i < |logos| => logos[i].1)
  }

  /** Every logo of an add request is already stored. */
  predicate AllRequestedStored(index: map<LogoId, nat>, logos: seq<(LogoId, Box)>) {
    forall i :: 0 <= i < |logos| ==> logos[i].0 in index
  }

  /** The logos of an add request that `add_logos` will compute and save: IDs and boxes, in request order. */
  function SelectedLogos(index: map<LogoId, nat>, logos: seq<(LogoId, Box)>): (seq<LogoId>, seq<Box>) {
    Unstored(index, RequestIds(logos), RequestBoxes(logos))
  }

  /**
   * `AddLogoResource.on_post`: when every requested logo is already stored,
   * `added: 0` with nothing fetched or written; otherwise an image that could
   * not be fetched is a bad request, and a fetched one goes to `add_logos`,
   * whose count is returned.
   */
  method AddLogoResourceOnPost(store: EmbeddingStore, logos: seq<(LogoId, Box)>, image: Option<Image>,
                               embed: (Image, Box) -> Vector)
    returns (resp: Response)
    requires store.Valid()
    requires store.offset + |SelectedLogos(store.logoIdToIdx, logos).0| <= store.externalId.Length
    modifies store, store.externalId, store.embedding
    ensures store.Valid()
    ensures store.externalId == old(store.externalId) && store.embedding == old(store.embedding)
    ensures AllRequestedStored(old(store.logoIdToIdx), logos) ==>
      resp == Success(Added(0)) && unchanged(store) && unchanged(store.externalId) && unchanged(store.embedding)
    ensures !AllRequestedStored(old(store.logoIdToIdx), logos) && image.None? ==>
      resp == Failure(BadRequest("invalid image")) && unchanged(store) && unchanged(store.externalId) && unchanged(store.embedding)
    ensures !AllRequestedStored(old(store.logoIdToIdx), logos) && image.Some? ==>
      var sel := SelectedLogos(old(store.logoIdToIdx), logos);
      && resp == Success(Added(|sel.0|))
      && 0 < |sel.0|
      && store.offset == old(store.offset) + |sel.0|
      && store.externalId[..] == old(store.externalId[..store.offset]) + sel.0
           + old(store.externalId[store.offset + resp.value.added..])
      && store.embedding[..] == old(store.embedding[..store.offset]) + EmbedCrops(image.value, sel.1, embed)
           + old(store.embedding[store.offset + resp.value.added..])
      && store.logoIdToIdx == old(store.logoIdToIdx) + LastPositions(sel.0, old(store.offset))
  {
    var logoIds := RequestIds(logos);
    var boxes := RequestBoxes(logos);
    var allStored := AllStored(store, logoIds);
    assert |logoIds| == |logos| && forall i :: 0 <= i < |logos| ==> logoIds[i] == logos[i].0;
    if allStored {
      return Success(Added(0));
    }
    if image.None? {
      return Failure(BadRequest("invalid image"));
    }
    var added := AddUnstored(store, logos, image.value, embed);
    resp := Success(Added(added));
  }

  /** The last step of `AddLogoResource.on_post`: `add_logos` on a request with at least one unstored logo. */
  method AddUnstored(store: EmbeddingStore, logos: seq<(LogoId, Box)>, image: Image, embed: (Image, Box) -> Vector)
    returns (added: nat)
    requires store.Valid()
    requires store.offset + |SelectedLogos(store.logoIdToIdx, logos).0| <= store.externalId.Length
    requires !AllRequestedStored(store.logoIdToIdx, logos)
    modifies store, store.externalId, store.embedding
    ensures store.Valid()
    ensures store.externalId == old(store.externalId) && store.embedding == old(store.embedding)
    ensures
      var sel := SelectedLogos(old(store.logoIdToIdx), logos);
      && added == |sel.0|
      && 0 < added
      && store.offset == old(store.offset) + added
      && store.externalId[..] == old(store.externalId[..store.offset]) + sel.0 + old(store.externalId[store.offset + added..])
      && store.embedding[..] == old(store.embedding[..store.offset]) + EmbedCrops(image, sel.1, embed)
           + old(store.embedding[store.offset + added..])
      && store.logoIdToIdx == old(store.logoIdToIdx) + LastPositions(sel.0, old(store.offset))
  {
    var logoIds := RequestIds(logos);
    var boxes := RequestBoxes(logos);
    ghost var missing :| 0 <= missing < |logos| && logos[missing].0 !in store.logoIdToIdx;
    assert logoIds[missing] !in store.logoIdToIdx;
    AllStoredIffNoneSelected(store.logoIdToIdx, logoIds, boxes);
    added := AddLogos(store, image, logoIds, boxes, embed);
  }

  /** The check `all(logo_id in store for logo_id in logo_ids)`. */
  method AllStored(store: EmbeddingStore, logoIds: seq<LogoId>) returns (allStored: bool)
    requires store.Valid()
    ensures allStored <==> forall i :: 0 <= i < |logoIds| ==> logoIds[i] in store.logoIdToIdx
  {
    allStored := true;
    var i := 0;
    while i < |logoIds|
      invariant 0 <= i <= |logoIds|
      invariant allStored <==> forall j :: 0 <= j < i ==> logoIds[j] in store.logoIdToIdx
    {
      allStored := allStored && store.Contains(logoIds[i]);
      i := i + 1;
    }
  }

  /** `ANNCountResource.on_get`: the number of distinct logo IDs in the store. */
  function AnnCountResourceOnGet(store: EmbeddingStore): (b: Body)
    reads store, store.externalId
    requires store.Valid()
    ensures b == StoredCount(|Elements(store.externalId[..store.offset])|)
  {
    StoredCount(store.Len())
  }

  /** `ANNStoredLogoResource.on_get`: every stored logo ID once, in the order they were first stored. */
  function AnnStoredLogoResourceOnGet(store: EmbeddingStore): (b: Body)
    reads store, store.externalId
    requires store.Valid()
    ensures b.Stored? && Elements(b.stored) == store.logoIdToIdx.Keys && Distinct(b.stored)
    ensures |b.stored| == AnnCountResourceOnGet(store).count
    ensures InFirstSeenOrder(store.externalId[..store.offset], b.stored)
  {
    Stored(store.GetLogoIds())
  }
}
