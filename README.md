# robotoff-ann: embedding store and nearest-neighbour lookup, in Dafny

This project models the core of the robotoff-ann service. The service answers
nearest-neighbour queries over logo embeddings for Open Food Facts. The model
covers two parts.

- **The embedding store** (`embeddings.py`). `EmbeddingStore` keeps two
  fixed-capacity datasets: the `external_id` column of logo IDs, and the
  `embedding` rows beside it. It also keeps the dictionary `logo_id_to_idx`,
  from logo ID to row, and the write cursor `offset`.
  - `save_embeddings` writes a batch at the cursor, points each ID at its
    new row (a repeated ID keeps its latest row) and advances the cursor.
  - Loading rebuilds the dictionary from the ID column, cut after its last
    non-zero slot.
  - `add_logos` passes on only the IDs not yet stored.
- **The lookup layer** (`api.py`). `ANNIndex` pairs an Annoy search
  structure with its ordered `keys` and their inverse `key_to_ann_id`.
  - `get_nearest_neighbors` searches by item for an indexed ID. It falls
    back to the stored embedding for an ID that is only stored, and gives
    nothing for an ID that is neither.
  - The HTTP handlers check their parameters and assemble result lists.

Files:

- `wrappers.dfy`: `Option` and `Result`.
- `positions.dfy`: `LastPositions`, the dictionary `{x: base + i for i, x in
  enumerate(s)}` in which the last occurrence wins. Loading, saving and
  `ANNIndex` all share it. The file also holds `FirstOccurrences`, the key
  order of such a dictionary.
- `embeddings.dfy`: the `EmbeddingStore` class and the logo selection of
  `add_logos`.
  - The datasets are arrays; the dictionary and the cursor are fields.
  - The class invariant `Valid` says five things. The two datasets have the
    same length. The cursor is within the capacity. The dictionary is exactly
    `LastPositions` of the written part of the ID column. Every ID slot after
    the cursor is still zero. Without a file the cursor is 0.
  - Restart lemmas connect a saved store to what loading the file gives back.
- `api.dfy`: the `ANNIndex` value, `get_nearest_neighbors` and the six
  resource handlers. The four handlers that search or write are methods from
  their request parameters to a response body or an HTTP error; the count
  and stored-logo handlers only read the store and are functions.

Behaviour of the code worth knowing:

- An ID that is stored but not indexed is searched by its stored embedding;
  no lookup reports an ID as "not indexed".
- The batch lookup leaves out IDs with nothing to search with instead of
  failing the request.
- `/ann/count` reports the number of stored logos only.
- Adding a logo that is already stored keeps its old row; it is not
  overwritten.
- Nothing in these files rebuilds or replaces a loaded index.

## Model

| member | source | states |
|---|---|---|
| Positions.LastPositionsSpec | embeddings.py:79 | the comprehension's keys are the IDs of the sequence, and each ID maps to `base` plus its last position |
| Positions.LastPositionsHas | embeddings.py:79 | the ID at any position is mapped, to that position or a later one, within the sequence's rows |
| Positions.LastPositionsOf | embeddings.py:79 | a mapped ID's row holds that ID and no later row does |
| Positions.LastPositionsAt | embeddings.py:79 | an ID's last position is exactly the row it maps to |
| Positions.LastPositionsSnoc | embeddings.py:135-138 | pointing one more ID at the next row is the same as recomputing the map over the longer column |
| Positions.LastPositionsAppend | embeddings.py:131-138 | the map of a column with a batch appended is the old map overridden by the batch's map at rows from the old length |
| Positions.BatchIdsUpdated | embeddings.py:135-138 | after a save, every batch ID maps to its last row in the batch, within `[offset, offset + n)` |
| Positions.OtherIdsKept | embeddings.py:135-138 | after a save, every ID outside the batch keeps its entry, or stays absent |
| Positions.FirstOccurrences | embeddings.py:42-44 | the key order lists each stored ID exactly once |
| Positions.FirstOccurrencesOrder | embeddings.py:42-44 | the key order is the order in which the IDs were first written: every occurrence of a later key comes after some occurrence of an earlier one |
| Positions.DistinctCardinality | embeddings.py:36-44 | a list without repeats has as many elements as its set of IDs |
| Embeddings.TrimmedLength | embeddings.py:77-78 | the cut column ends at the last non-zero slot; every slot after it is zero |
| Embeddings.LoadLogoIdToIndex | embeddings.py:71-81 | no file gives an empty map; an all-zero ID column fails (the IndexError); otherwise the map holds each ID of the cut column at its last position |
| Embeddings.LoadedRows | embeddings.py:76-79 | a successful load keeps at least one slot, every mapped row is below the cut length, and the last kept ID maps to the last kept row |
| Embeddings.MaxRowPlusOne | embeddings.py:32-34 | the result is zero exactly for an empty map; otherwise it is one past the largest row, and that row is mapped |
| Embeddings.EmbeddingStore.FromFile | embeddings.py:113-129 | the datasets hold the file's contents or, with no file, `DEFAULT_HDF5_COUNT` slots with zero IDs; the map is empty and the cursor is 0 |
| Embeddings.EmbeddingStore.Open | embeddings.py:29-34 | opening fails exactly when loading fails; otherwise the store is valid, holds the loaded map, its cursor is the length of the cut column, and its capacity is the file's column length or, without a file, the default count (`DEFAULT_HDF5_COUNT`) |
| Embeddings.EmbeddingStore.RestartRestoresState | embeddings.py:71-81 | when the last written ID is non-zero, reloading the file on disk gives back the same map and cursor |
| Embeddings.EmbeddingStore.ReopenEmptyFileFails | embeddings.py:76-78 | a file created by a save of no rows has an all-zero ID column and cannot be reloaded |
| Embeddings.EmbeddingStore.ReopenDropsTrailingZeroId | embeddings.py:77-78 | when the last written ID is 0, reloading puts the cursor before that row |
| Embeddings.EmbeddingStore.Len | embeddings.py:36-37 | `len(store)` is the number of distinct IDs written |
| Embeddings.EmbeddingStore.GetIndex | embeddings.py:46-51 | none exactly for an ID never written; otherwise the last row written with it |
| Embeddings.EmbeddingStore.Contains | embeddings.py:39-40 | `logo_id in store` holds exactly when the ID was written, and exactly when it is in the map |
| Embeddings.EmbeddingStore.GetEmbedding | embeddings.py:53-68 | none exactly for an unknown ID; otherwise the embedding row at the ID's last position |
| Embeddings.EmbeddingStore.GetLogoIds | embeddings.py:42-44 | every stored ID once, as many as `len(store)`, in the order the IDs were first written |
| Embeddings.EmbeddingStore.IterEmbeddings | embeddings.py:83-97 | each pair is a mapped ID with the row it maps to; rows strictly ascend; every mapped ID appears |
| Embeddings.EmbeddingStore.SaveEmbeddings | embeddings.py:99-140 | the store stays valid; the batch lands in slots `[offset, offset + n)` of both datasets; other slots are untouched; the cursor grows by `n`; the map is overridden by the batch's positions |
| Embeddings.EmbeddingStore.PointAtNewRows | embeddings.py:135-138 | the loop leaves the old map overridden by each batch ID's last row from the cursor on |
| Embeddings.WriteSlice | embeddings.py:131-133 | the slice assignment writes the values at `[start, start + n)` and leaves every other slot unchanged |
| Embeddings.Unstored | embeddings.py:194-202 | one box per selected ID, and no more selected than requested (membership, count, order and pairing are stated by `UnstoredMembers` and `UnstoredAtPositions`) |
| Embeddings.UnstoredMembers | embeddings.py:194-202 | an ID is selected exactly when it is requested and not stored |
| Embeddings.UnstoredPositionsSpec | embeddings.py:197-202 | the selected positions are exactly the request positions whose ID is not stored, one per entry (repeats included), in increasing order |
| Embeddings.UnstoredAtPositions | embeddings.py:197-202 | the selection has one entry per selected position, in that order, each that position's ID paired with the box at the same position; so `add_logos` returns the number of unstored request entries |
| Embeddings.AllStoredIffNoneSelected | embeddings.py:197-205 | nothing is selected exactly when every requested ID is already stored |
| Embeddings.NoneStoredSelectsAll | embeddings.py:194-202 | when no requested ID is stored, the whole request is selected with its boxes |
| Embeddings.SelectUnstored | embeddings.py:194-202 | the selection loop computes `Unstored` for the store's current map |
| Embeddings.EmbedCrops | embeddings.py:207-213 | one embedding per selected box |
| Embeddings.AddLogos | embeddings.py:171-217 | returns the number of unstored requested IDs; with none, writes nothing; otherwise saves exactly the selected IDs and their embeddings and keeps the store valid |
| Api.NewAnnIndex | api.py:33-36 | `key_to_ann_id` holds every key, at a position of `keys` that holds that key, the last one for a repeated key |
| Api.AssembleResults | api.py:157-163 | one entry per returned position, in order, each `keys[position]` with the distance at the same position |
| Api.Search | api.py:138-154 | none exactly when the ID is neither indexed nor stored; an indexed ID is always searched by item; a stored-only ID is searched by its stored embedding |
| Api.GetNearestNeighbors | api.py:119-163 | none exactly when there is nothing to search with; otherwise the assembled results, at most `count`, each an indexed logo ID |
| Api.CountParam | api.py:73 | `count` defaults to 100; a given value is accepted exactly within 1..500; anything else is a bad request |
| Api.AnnResourceOnGet | api.py:64-88 | a bad count, then an unknown index, is a bad request; without a logo ID, a key of the index is queried; nothing to search with is a 404; otherwise the assembled results and their number |
| Api.AnnBatchResourceOnGet | api.py:91-116 | after the count, `logo_ids` and index checks, the map holds exactly the requested IDs that have something to search with, and `count` is its size |
| Api.SearchEach | api.py:104-110 | the loop's map holds exactly the requested IDs that have something to search with, each with its assembled result list |
| Api.SearchOne | api.py:107-110 | one turn of that loop keeps both facts when the next ID is added to the requested prefix |
| Api.AnnEmbeddingResourceOnPost | api.py:166-202 | an unknown index, then a wrong dimension, is a bad request and no search runs; a missing embedding is a server error; otherwise the assembled results of a search by that vector (`count` defaults to 1) |
| Api.AllStored | api.py:217 | true exactly when every requested ID is in the store (true for an empty request) |
| Api.AddLogoResourceOnPost | api.py:205-236 | all stored gives `added: 0` with nothing changed; otherwise a missing image is a bad request with nothing changed; otherwise the unstored logos are saved after the cursor, every other slot of both datasets is unchanged, the map is overridden by the new rows and their number is returned |
| Api.AddUnstored | api.py:233-236 | with at least one unstored logo, `add_logos` saves a non-empty selection: both datasets in full, the cursor and the map are given in terms of the old state |
| Api.AnnCountResourceOnGet | api.py:239-243 | the count is the number of distinct stored logo IDs |
| Api.AnnStoredLogoResourceOnGet | api.py:246-249 | the list holds each stored ID exactly once, as many as the count resource reports, in the order the IDs were first stored |

## Left out

- HDF5 files are not modelled. The two datasets are in-memory arrays, and the file on disk is `OnDisk()`, their contents once the file exists. `is_file` checks and dataset creation happen at the constructor and the first save.
- Embeddings.EmbeddingStore.SaveEmbeddings: requires room for the batch (`offset + n` within the capacity), because h5py would raise on an out-of-range slice and that failure is not modelled.
- Logo IDs are unbounded integers: the `dtype="i"` (32-bit) column would truncate larger IDs, which is not modelled.
- Annoy (`get_nns_by_item`, `get_nns_by_vector`, index loading and `prefault`) is a native library. It is a pair of functions in `Searcher`, assumed (`SearchFits`) to return in-range positions, one distance per position, and at most `count` results. Under that assumption the `zip` truncation in result assembly never cuts.
- Distances and embedding values are floats. They are opaque `real`s and sequences of `real`s, never computed with.
- The embedding model, `generate_embeddings`, `ModelStore`, `crop_image` and the resize are a parameter `embed` from image and box to an embedding row.
- Embeddings.AddLogos, Embeddings.EmbedCrops, Api.AddUnstored, Api.AddLogoResourceOnPost: loading the model, cropping, resizing and computing the embeddings are assumed not to raise. In the source an exception there (embeddings.py:191, 206-212) leaves `add_logos` before `save_embeddings` (embeddings.py:213-215), so the request is a 500 and nothing is written; the model has no such path.
- Fetching the image (`get_image_from_url`) and the RGB conversion are network and image I/O. The fetched image is a parameter, `None` when the fetch failed.
- Embeddings.AddLogos: requires as many boxes as IDs, because the only caller builds both from one list; the `zip` truncation for unequal lists is not modelled.
- Embeddings.EmbeddingStore.IterEmbeddings: the sort by row is modelled as a scan of rows 0 to `offset`, keeping each row its ID maps to; the result is stated as the sorted sequence, and the generator becomes a returned sequence.
- The index dimension is a parameter of the from-embedding handler. `settings.INDEX_DIM` is a per-index table at api.py:48 but is compared with an integer at api.py:184; neither reading is reproduced.
- falcon's own parameter errors are not reproduced: a missing `logo_ids` (falcon's `HTTPMissingParam`) and a `count` outside 1..500 (falcon's `HTTPInvalidParam`) are 400 responses whose titles here, "Missing parameter logo_ids" and "Invalid parameter count", are stand-ins for falcon's title and description.
- Request parsing (JSON schema, non-integer query parameters, the `logo_ids` CSV list), falcon routing, CORS, multipart handling and logging are not modelled. A handler receives parsed parameters, `None` when absent.
- Loading the indexes from the data directory (`ANNIndex.load`, `text_file_iter`) is not modelled; the handlers receive the loaded index table.
- `random.randint` is a parameter `randint`, assumed to return a value within its bounds; it raises ValueError (a server error) when the index has no keys.
- Concurrency between requests is not modelled: each handler runs alone on the store.
