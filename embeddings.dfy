/**
 * The embedding store of embeddings.py: two datasets of fixed capacity (the
 * logo IDs and the embedding rows), a dictionary from logo ID to row, and a
 * write cursor; and the selection of not-yet-stored logos done by `add_logos`.
 */
module Embeddings {
  import opened Wrappers
  import opened Positions

  /** External logo ID (the primary key of a logo annotation); 0 marks an unused slot. */
  type LogoId = int

  /** One embedding row. Its values are stored and copied, never computed with. */
  type Vector = seq<real>

  /** A bounding box (y_min, x_min, y_max, x_max), relative to the image size. */
  type Box = (real, real, real, real)

  /** An image, as the external embedding model receives it. */
  type Image = seq<bv8>

  /** The two datasets of the HDF5 file, `external_id` and `embedding`, one slot per row. */
  datatype Hdf5File = Hdf5File(externalId: seq<LogoId>, embedding: seq<Vector>)

  /** Reading an existing file whose ID column holds no non-zero entry raises an IndexError. */
  datatype LoadError = NoNonZeroId

  /** The length of `column` once its trailing zero slots are cut off. */
  function TrimmedLength(column: seq<LogoId>): (n: nat)
    ensures n <= |column|
    ensures forall j :: n <= j < |column| ==> column[j] == 0
    ensures 0 < n ==> column[n - 1] != 0
    decreases |column|
  {
    if column == [] || column[|column| - 1] != 0 then |column|
    else TrimmedLength(column[..|column| - 1])
  }

  /**
   * `load_logo_id_to_index`: no file gives an empty dictionary; otherwise the ID
   * column is kept up to its last non-zero entry and each ID maps to its last
   * position there.
   */
  function LoadLogoIdToIndex(file: Option<Hdf5File>): (r: Result<map<LogoId, nat>, LoadError>)
    ensures file.None? ==> r == Success(map[])
    ensures file.Some? ==>
      (r.Failure? <==> forall j :: 0 <= j < |file.value.externalId| ==> file.value.externalId[j] == 0)
    ensures file.Some? && r.Success? ==>
      var kept := file.value.externalId[..TrimmedLength(file.value.externalId)];
      && r.value.Keys == Elements(kept)
      && forall k :: k in r.value ==> IsLastPosition(kept, k, r.value[k])
  {
    match file
    case None => Success(map[])
    case Some(f) =>
      var n := TrimmedLength(f.externalId);
      if n == 0 then Failure(NoNonZeroId)
      else
        LastPositionsSpec(f.externalId[..n], 0);
        Success(LastPositions(f.externalId[..n], 0))
  }

  /** `max(m.values()) + 1 if m else 0`, the write cursor of a freshly opened store. */
  method MaxRowPlusOne(m: map<LogoId, nat>) returns (r: nat)
    ensures r == 0 <==> m == map[]
    ensures forall k :: k in m ==> m[k] < r
    ensures 0 < r ==> exists k :: k in m && m[k] == r - 1
  {
    r := 0;
    var rest := m.Keys;
    while rest != {}
      invariant rest <= m.Keys
      invariant forall k :: k in m && k !in rest ==> m[k] < r
      invariant 0 < r ==> exists k :: k in m && m[k] == r - 1
      decreases rest
    {
      NonEmpty(rest);
      var k :| k in rest;
      if r < m[k] + 1 {
        r := m[k] + 1;
      }
      rest := rest - {k};
    }
    if m != map[] {
      assert m.Keys != {};
      NonEmpty(m.Keys);
    }
  }

  /** After a successful load every mapped row is below the cut length, and the last row kept is mapped. */
  lemma LoadedRows(f: Hdf5File)
    requires LoadLogoIdToIndex(Some(f)).Success?
    ensures 0 < TrimmedLength(f.externalId)
    ensures LoadLogoIdToIndex(Some(f)).value == LastPositions(f.externalId[..TrimmedLength(f.externalId)], 0)
    ensures forall k :: k in LoadLogoIdToIndex(Some(f)).value ==>
      LoadLogoIdToIndex(Some(f)).value[k] < TrimmedLength(f.externalId)
    ensures f.externalId[TrimmedLength(f.externalId) - 1] in LoadLogoIdToIndex(Some(f)).value
    ensures LoadLogoIdToIndex(Some(f)).value[f.externalId[TrimmedLength(f.externalId) - 1]] == TrimmedLength(f.externalId) - 1
  {
    var n := TrimmedLength(f.externalId);
    var kept := f.externalId[..n];
    LastPositionsAt(kept, 0, kept[n - 1], n - 1);
  }

  /** One past the largest mapped row is `n` when every row is below `n` and row `n - 1` is mapped. */
  lemma CursorAtEnd(m: map<LogoId, nat>, n: nat, r: nat)
    requires 0 < n && (forall k :: k in m ==> m[k] < n) && (exists k :: k in m && m[k] == n - 1)
    requires (forall k :: k in m ==> m[k] < r) && (0 < r ==> exists k :: k in m && m[k] == r - 1)
    ensures r == n
  {
  }

  class EmbeddingStore {
    /** Whether the HDF5 file exists; the first save creates it. */
    var hasFile: bool
    /** The `external_id` dataset. */
    var externalId: array<LogoId>
    /** The `embedding` dataset, row for row beside `externalId`. */
    var embedding: array<Vector>
    /** `logo_id_to_idx`: the row of each stored logo. */
    var logoIdToIdx: map<LogoId, nat>
    /** The first row not yet written. */
    var offset: nat

    /**
     * The dictionary is the one the written part of the ID column determines
     * (last occurrence wins), the cursor is within the capacity, and the slots
     * after it are still zero.
     */
    ghost predicate Valid()
      reads this, externalId
    {
      && externalId.Length == embedding.Length
      && offset <= externalId.Length
      && logoIdToIdx == LastPositions(externalId[..offset], 0)
      && (forall j :: offset <= j < externalId.Length ==> externalId[j] == 0)
      && (!hasFile ==> offset == 0)
    }

    /** The file as a restart would read it. */
    ghost function OnDisk(): Option<Hdf5File>
      reads this, externalId, embedding
    {
      if hasFile then Some(Hdf5File(externalId[..], embedding[..])) else None
    }

    /**
     * The datasets as they are on disk or, with no file, as the first save
     * creates them (`settings.DEFAULT_HDF5_COUNT` zero slots). This is only
     * the first step of `Open`: the dictionary is left empty even over a
     * non-empty ID column, so `Valid` need not hold until `Open` sets the
     * dictionary and the cursor.
     */
    constructor FromFile(file: Option<Hdf5File>, defaultCount: nat)
      requires file.Some? ==> |file.value.externalId| == |file.value.embedding|
      ensures fresh(externalId) && fresh(embedding)
      ensures hasFile == file.Some?
      ensures file.Some? ==> externalId[..] == file.value.externalId && embedding[..] == file.value.embedding
      ensures file.None? ==> externalId.Length == embedding.Length == defaultCount
      ensures file.None? ==> forall j :: 0 <= j < defaultCount ==> externalId[j] == 0
      ensures logoIdToIdx == map[] && offset == 0
    {
      hasFile := file.Some?;
      match file {
        case Some(f) =>
          externalId := new LogoId[|f.externalId|](j => if 0 <= j < |f.externalId| then f.externalId[j] else 0);
          embedding := new Vector[|f.embedding|](j => if 0 <= j < |f.embedding| then f.embedding[j] else []);
        case None =>
          externalId := new LogoId[defaultCount](j => 0);
          embedding := new Vector[defaultCount](j => []);
      }
      logoIdToIdx := map[];
      offset := 0;
    }

    /**
     * `EmbeddingStore.__init__`: load the dictionary and put the cursor after
     * the largest mapped row, which is the end of the trimmed ID column.
     */
    static method Open(file: Option<Hdf5File>, defaultCount: nat) returns (r: Result<EmbeddingStore, LoadError>)
      requires file.Some? ==> |file.value.externalId| == |file.value.embedding|
      ensures r.Failure? <==> LoadLogoIdToIndex(file).Failure?
      ensures r.Success? ==>
        && fresh(r.value) && fresh(r.value.externalId) && fresh(r.value.embedding)
        && r.value.Valid()
        && r.value.OnDisk() == file
        && r.value.logoIdToIdx == LoadLogoIdToIndex(file).value
        && r.value.offset == (if file.Some? then TrimmedLength(file.value.externalId) else 0)
        && r.value.externalId.Length == (if file.Some? then |file.value.externalId| else defaultCount)
    {
      var loaded := LoadLogoIdToIndex(file);
      if loaded.Failure? {
        return Failure(loaded.error);
      }
      var store := new EmbeddingStore.FromFile(file, defaultCount);
      store.logoIdToIdx := loaded.value;
      store.offset := MaxRowPlusOne(loaded.value);
      if file.Some? {
        var n := TrimmedLength(file.value.externalId);
        LoadedRows(file.value);
        CursorAtEnd(loaded.value, n, store.offset);
        assert store.externalId[..store.offset] == file.value.externalId[..n];
      }
      r := Success(store);
    }

    /**
     * A restart gives back the same store: when the last row written holds a
     * non-zero ID, loading the file on disk yields this dictionary and
     * `Open` puts the cursor where it is now.
     */
    lemma RestartRestoresState()
      requires Valid() && hasFile && 0 < offset && externalId[offset - 1] != 0
      ensures LoadLogoIdToIndex(OnDisk()) == Success(logoIdToIdx)
      ensures TrimmedLength(externalId[..]) == offset
    {
      assert externalId[..][..offset] == externalId[..offset];
    }

    /** A file created by a save of no rows cannot be reopened: its ID column is all zero. */
    lemma ReopenEmptyFileFails()
      requires Valid() && hasFile && offset == 0
      ensures LoadLogoIdToIndex(OnDisk()).Failure?
    {
    }

    /** When the last row written holds ID 0, a restart puts the cursor before that row. */
    lemma ReopenDropsTrailingZeroId()
      requires Valid() && hasFile && 0 < offset && externalId[offset - 1] == 0
      ensures LoadLogoIdToIndex(OnDisk()).Success? ==> TrimmedLength(externalId[..]) < offset
    {
    }

    /** `len(store)`: the number of distinct IDs written so far. */
    function Len(): (n: nat)
      reads this, externalId
      requires Valid()
      ensures n == |Elements(externalId[..offset])|
    {
      LastPositionsSpec(externalId[..offset], 0);
      |logoIdToIdx|
    }

    /** `get_index`: the last row written with `logoId`, if any. */
    function GetIndex(logoId: LogoId): (r: Option<nat>)
      reads this, externalId
      requires Valid()
      ensures r.None? <==> logoId !in externalId[..offset]
      ensures r.Some? ==> IsLastPosition(externalId[..offset], logoId, r.value)
    {
      LastPositionsSpec(externalId[..offset], 0);
      if logoId in logoIdToIdx then Some(logoIdToIdx[logoId]) else None
    }

    /** `logo_id in store`. */
    predicate Contains(logoId: LogoId)
      reads this, externalId
      requires Valid()
      ensures Contains(logoId) <==> logoId in externalId[..offset]
      ensures Contains(logoId) <==> logoId in logoIdToIdx
    {
      LastPositionsSpec(externalId[..offset], 0);
      GetIndex(logoId).Some?
    }

    /**
     * `get_embedding`: the row last written for `logoId`, or `None` for an
     * unknown ID. (The file test of the source always passes once an ID is
     * known, since the file exists as soon as one row is written.)
     */
    function GetEmbedding(logoId: LogoId): (r: Option<Vector>)
      reads this, externalId, embedding
      requires Valid()
      ensures r.None? <==> logoId !in externalId[..offset]
      ensures forall j :: IsLastPosition(externalId[..offset], logoId, j) ==> r == Some(embedding[j])
    {
      match GetIndex(logoId)
      case None => None
      case Some(idx) => Some(embedding[idx])
    }

    /**
     * `get_logo_ids`: the dictionary's keys in the dict's own order, which is
     * the order in which IDs were first written.
     */
    function GetLogoIds(): (ids: seq<LogoId>)
      reads this, externalId
      requires Valid()
      ensures Elements(ids) == logoIdToIdx.Keys
      ensures Distinct(ids)
      ensures |ids| == Len()
      ensures InFirstSeenOrder(externalId[..offset], ids)
    {
      var ids := FirstOccurrences(externalId[..offset]);
      LastPositionsSpec(externalId[..offset], 0);
      DistinctCardinality(ids);
      FirstOccurrencesOrder(externalId[..offset]);
      ids
    }

    /**
     * `iter_embeddings`: one `(logo_id, row)` pair per dictionary entry, in
     * ascending row order. The source sorts the entries by row; the model scans
     * the rows and keeps each row that is the last one of its ID, which yields
     * the same sequence.
     */
    method IterEmbeddings() returns (entries: seq<(LogoId, Vector)>)
      requires Valid()
      ensures forall i :: 0 <= i < |entries| ==>
        entries[i].0 in logoIdToIdx && logoIdToIdx[entries[i].0] < offset &&
        entries[i].1 == embedding[logoIdToIdx[entries[i].0]]
      ensures forall i, i' :: 0 <= i < i' < |entries| ==>
        logoIdToIdx[entries[i].0] < logoIdToIdx[entries[i'].0]
      ensures forall k :: k in logoIdToIdx ==> exists i :: 0 <= i < |entries| && entries[i].0 == k
    {
      entries := [];
      if !hasFile {
        return;
      }
      var column := externalId[..offset];
      forall r | 0 <= r < offset
        ensures column[r] in logoIdToIdx
      {
        LastPositionsHas(column, 0, r);
      }
      var j := 0;
      while j < offset
        invariant 0 <= j <= offset
        invariant forall i :: 0 <= i < |entries| ==>
          entries[i].0 in logoIdToIdx && logoIdToIdx[entries[i].0] < j &&
          entries[i].1 == embedding[logoIdToIdx[entries[i].0]]
        invariant forall i, i' :: 0 <= i < i' < |entries| ==>
          logoIdToIdx[entries[i].0] < logoIdToIdx[entries[i'].0]
        invariant forall r :: 0 <= r < j && logoIdToIdx[column[r]] == r ==>
          exists i :: 0 <= i < |entries| && entries[i].0 == column[r]
      {
        ghost var previous := entries;
        assert externalId[j] == column[j];
        if logoIdToIdx[externalId[j]] == j {
          entries := entries + [(externalId[j], embedding[j])];
          assert entries[|entries| - 1].0 == column[j];
        }
        assert forall i :: 0 <= i < |previous| ==> entries[i] == previous[i];
        j := j + 1;
      }
      forall k | k in logoIdToIdx
        ensures exists i :: 0 <= i < |entries| && entries[i].0 == k
      {
        LastPositionsOf(column, 0, k);
        assert column[logoIdToIdx[k]] == k;
      }
    }

    /**
     * `save_embeddings`: write the batch into the slots from the cursor on,
     * point each of its IDs at its new row (the last one for a repeated ID) and
     * advance the cursor. The batch must fit in the datasets.
     */
    method SaveEmbeddings(embeddings: seq<Vector>, externalIds: seq<LogoId>)
      requires Valid()
      requires |externalIds| == |embeddings|
      requires offset + |embeddings| <= externalId.Length
      modifies this, externalId, embedding
      ensures Valid() && hasFile
      ensures externalId == old(externalId) && embedding == old(embedding)
      ensures offset == old(offset) + |embeddings|
      ensures externalId[..] == old(externalId[..offset]) + externalIds + old(externalId[offset + |embeddings|..])
      ensures embedding[..] == old(embedding[..offset]) + embeddings + old(embedding[offset + |embeddings|..])
      ensures logoIdToIdx == old(logoIdToIdx) + LastPositions(externalIds, old(offset))
    {
      var n := |embeddings|;
      ghost var prefix := externalId[..offset];
      WriteSlice(embedding, offset, embeddings);
      WriteSlice(externalId, offset, externalIds);
      PointAtNewRows(externalIds);
      assert externalId[..offset + n] == prefix + externalIds by {
        assert externalId[..] == prefix + externalIds + old(externalId[offset + n..]);
      }
      LastPositionsAppend(prefix, externalIds, 0);
      hasFile := true;
      offset := offset + n;
    }

    /** The loop of `save_embeddings` that points each ID of the batch at the row it is written to. */
    method PointAtNewRows(externalIds: seq<LogoId>)
      modifies this`logoIdToIdx
      ensures logoIdToIdx == old(logoIdToIdx) + LastPositions(externalIds, offset)
    {
      var i := 0;
      while i < |externalIds|
        invariant 0 <= i <= |externalIds|
        invariant logoIdToIdx == old(logoIdToIdx) + LastPositions(externalIds[..i], offset)
      {
        assert externalIds[..i + 1] == externalIds[..i] + [externalIds[i]];
        LastPositionsSnoc(externalIds[..i], externalIds[i], offset);
        UnionUpdate(old(logoIdToIdx), LastPositions(externalIds[..i], offset), externalIds[i], offset + i);
        logoIdToIdx := logoIdToIdx[externalIds[i] := offset + i];
        i := i + 1;
      }
      assert externalIds[..i] == externalIds;
    }
  }

  /** `dataset[start:start + len(values)] = values` on a dataset of fixed size. */
  method WriteSlice<T>(a: array<T>, start: nat, values: seq<T>)
    requires start + |values| <= a.Length
    modifies a
    ensures a[..] == old(a[..start]) + values + old(a[start + |values|..])
    ensures forall j :: 0 <= j < a.Length && !(start <= j < start + |values|) ==> a[j] == old(a[j])
  {
    forall j | start <= j < start + |values| {
      a[j] := values[j - start];
    }
    ghost var expected := old(a[..start]) + values + old(a[start + |values|..]);
    forall j | 0 <= j < a.Length
      ensures a[j] == expected[j]
    {
      if j < start {
      } else if j < start + |values| {
      }
    }
  }

  /** The IDs of `externalIds` that `index` does not hold, each with its box, in input order. */
  function Unstored(index: map<LogoId, nat>, externalIds: seq<LogoId>, boxes: seq<Box>): (sel: (seq<LogoId>, seq<Box>))
    requires |externalIds| == |boxes|
    ensures |sel.0| == |sel.1| <= |externalIds|
    decreases |externalIds|
  {
    if externalIds == [] then ([], [])
    else
      var n := |externalIds| - 1;
      var prefix := Unstored(index, externalIds[..n], boxes[..n]);
      if externalIds[n] in index then prefix
      else (prefix.0 + [externalIds[n]], prefix.1 + [boxes[n]])
  }

  /** An ID is selected exactly when it is requested and not stored. */
  lemma {:induction false} UnstoredMembers(index: map<LogoId, nat>, externalIds: seq<LogoId>, boxes: seq<Box>)
    requires |externalIds| == |boxes|
    ensures forall k :: k in Unstored(index, externalIds, boxes).0 <==> k in externalIds && k !in index
    decreases |externalIds|
  {
    if externalIds != [] {
      var n := |externalIds| - 1;
      UnstoredMembers(index, externalIds[..n], boxes[..n]);
      assert externalIds == externalIds[..n] + [externalIds[n]];
    }
  }

  /** `UnstoredMembers` for one ID. */
  lemma UnstoredMember(index: map<LogoId, nat>, externalIds: seq<LogoId>, boxes: seq<Box>, k: LogoId)
    requires |externalIds| == |boxes|
    ensures k in Unstored(index, externalIds, boxes).0 <==> k in externalIds && k !in index
  {
    UnstoredMembers(index, externalIds, boxes);
  }

  /** The positions of `externalIds` holding an ID that `index` does not hold, in increasing order. */
  function UnstoredPositions(index: map<LogoId, nat>, externalIds: seq<LogoId>): seq<nat>
    decreases |externalIds|
  {
    if externalIds == [] then []
    else
      var n := |externalIds| - 1;
      var prefix := UnstoredPositions(index, externalIds[..n]);
      if externalIds[n] in index then prefix else prefix + [n]
  }

  /**
   * The positions picked are exactly those of the unstored requested IDs
   * (one per request entry, repeats included), each once, in increasing order.
   */
  lemma UnstoredPositionsSpec(index: map<LogoId, nat>, externalIds: seq<LogoId>)
    ensures var idx := UnstoredPositions(index, externalIds);
      && (forall t :: 0 <= t < |idx| ==> idx[t] < |externalIds| && externalIds[idx[t]] !in index)
      && (forall s, t :: 0 <= s < t < |idx| ==> idx[s] < idx[t])
      && (forall i :: 0 <= i < |externalIds| && externalIds[i] !in index ==> i in idx)
  {
    UnstoredPositionsInRange(index, externalIds);
    UnstoredPositionsIncreasing(index, externalIds);
    UnstoredPositionsComplete(index, externalIds);
  }

  lemma {:induction false} UnstoredPositionsInRange(index: map<LogoId, nat>, externalIds: seq<LogoId>)
    ensures forall t :: 0 <= t < |UnstoredPositions(index, externalIds)| ==>
      UnstoredPositions(index, externalIds)[t] < |externalIds| &&
      externalIds[UnstoredPositions(index, externalIds)[t]] !in index
    decreases |externalIds|
  {
    if externalIds != [] {
      var n := |externalIds| - 1;
      var prefix := externalIds[..n];
      UnstoredPositionsInRange(index, prefix);
      var idx := UnstoredPositions(index, prefix);
      assert UnstoredPositions(index, externalIds) == if externalIds[n] in index then idx else idx + [n];
      forall t | 0 <= t < |idx|
        ensures idx[t] < n && externalIds[idx[t]] !in index
      {
        assert externalIds[idx[t]] == prefix[idx[t]];
      }
    }
  }

  lemma {:induction false} UnstoredPositionsIncreasing(index: map<LogoId, nat>, externalIds: seq<LogoId>)
    ensures forall s, t :: 0 <= s < t < |UnstoredPositions(index, externalIds)| ==>
      UnstoredPositions(index, externalIds)[s] < UnstoredPositions(index, externalIds)[t]
    decreases |externalIds|
  {
    if externalIds != [] {
      var n := |externalIds| - 1;
      var prefix := externalIds[..n];
      UnstoredPositionsIncreasing(index, prefix);
      UnstoredPositionsInRange(index, prefix);
      var idx := UnstoredPositions(index, prefix);
      assert UnstoredPositions(index, externalIds) == if externalIds[n] in index then idx else idx + [n];
    }
  }

  lemma {:induction false} UnstoredPositionsComplete(index: map<LogoId, nat>, externalIds: seq<LogoId>)
    ensures forall i :: 0 <= i < |externalIds| && externalIds[i] !in index ==> i in UnstoredPositions(index, externalIds)
    decreases |externalIds|
  {
    if externalIds != [] {
      var n := |externalIds| - 1;
      var prefix := externalIds[..n];
      UnstoredPositionsComplete(index, prefix);
      var idx := UnstoredPositions(index, prefix);
      assert UnstoredPositions(index, externalIds) == if externalIds[n] in index then idx else idx + [n];
      forall i | 0 <= i < |externalIds| && externalIds[i] !in index
        ensures i in UnstoredPositions(index, externalIds)
      {
        if i < n {
          assert prefix[i] == externalIds[i];
          assert i in idx;
        }
      }
    }
  }

  /**
   * `add_logos` keeps, for each unstored position of the request, that ID with
   * the box at the same position: the count, the order and the pairing.
   */
  lemma {:induction false} UnstoredAtPositions(index: map<LogoId, nat>, externalIds: seq<LogoId>, boxes: seq<Box>)
    requires |externalIds| == |boxes|
    ensures var sel := Unstored(index, externalIds, boxes);
      var idx := UnstoredPositions(index, externalIds);
      && |sel.0| == |sel.1| == |idx|
      && forall t :: 0 <= t < |idx| ==> idx[t] < |externalIds| && sel.0[t] == externalIds[idx[t]] && sel.1[t] == boxes[idx[t]]
    decreases |externalIds|
  {
    if externalIds != [] {
      var n := |externalIds| - 1;
      var ids, bs := externalIds[..n], boxes[..n];
      UnstoredAtPositions(index, ids, bs);
      var prefix := Unstored(index, ids, bs);
      var prefixIdx := UnstoredPositions(index, ids);
      assert forall t :: 0 <= t < |prefixIdx| ==>
        ids[prefixIdx[t]] == externalIds[prefixIdx[t]] && bs[prefixIdx[t]] == boxes[prefixIdx[t]];
      if externalIds[n] in index {
        assert Unstored(index, externalIds, boxes) == prefix;
        assert UnstoredPositions(index, externalIds) == prefixIdx;
      } else {
        assert Unstored(index, externalIds, boxes) == (prefix.0 + [externalIds[n]], prefix.1 + [boxes[n]]);
        assert UnstoredPositions(index, externalIds) == prefixIdx + [n];
      }
    }
  }

  /** Nothing is selected exactly when every requested ID is already stored. */
  lemma {:induction false} AllStoredIffNoneSelected(index: map<LogoId, nat>, externalIds: seq<LogoId>, boxes: seq<Box>)
    requires |externalIds| == |boxes|
    ensures (forall i :: 0 <= i < |externalIds| ==> externalIds[i] in index) <==> Unstored(index, externalIds, boxes).0 == []
  {
    UnstoredMembers(index, externalIds, boxes);
    var selected := Unstored(index, externalIds, boxes).0;
    if selected != [] {
      assert selected[0] in selected;
      var i :| 0 <= i < |externalIds| && externalIds[i] == selected[0];
    } else {
      forall i | 0 <= i < |externalIds|
        ensures externalIds[i] in index
      {
        UnstoredMember(index, externalIds, boxes, externalIds[i]);
      }
    }
  }

  /** When no requested ID is stored yet, every one is selected, each with its own box. */
  lemma {:induction false} NoneStoredSelectsAll(index: map<LogoId, nat>, externalIds: seq<LogoId>, boxes: seq<Box>)
    requires |externalIds| == |boxes|
    requires forall i :: 0 <= i < |externalIds| ==> externalIds[i] !in index
    ensures Unstored(index, externalIds, boxes) == (externalIds, boxes)
    decreases |externalIds|
  {
    if externalIds != [] {
      var n := |externalIds| - 1;
      var ids, bs := externalIds[..n], boxes[..n];
      assert forall i :: 0 <= i < |ids| ==> ids[i] == externalIds[i];
      NoneStoredSelectsAll(index, ids, bs);
      assert externalIds[n] !in index;
      assert Unstored(index, externalIds, boxes) == (ids + [externalIds[n]], bs + [boxes[n]]);
      assert ids + [externalIds[n]] == externalIds;
      assert bs + [boxes[n]] == boxes;
    }
  }

  /** The loop of `add_logos` that keeps the IDs not yet in the store, with their boxes. */
  method SelectUnstored(store: EmbeddingStore, externalIds: seq<LogoId>, boxes: seq<Box>)
    returns (selectedIds: seq<LogoId>, selectedBoxes: seq<Box>)
    requires store.Valid()
    requires |externalIds| == |boxes|
    ensures (selectedIds, selectedBoxes) == Unstored(store.logoIdToIdx, externalIds, boxes)
  {
    selectedIds, selectedBoxes := [], [];
    var i := 0;
    while i < |externalIds|
      invariant 0 <= i <= |externalIds|
      invariant (selectedIds, selectedBoxes) == Unstored(store.logoIdToIdx, externalIds[..i], boxes[..i])
    {
      assert externalIds[..i + 1][..i] == externalIds[..i];
      assert boxes[..i + 1][..i] == boxes[..i];
      if !store.Contains(externalIds[i]) {
        selectedIds := selectedIds + [externalIds[i]];
        selectedBoxes := selectedBoxes + [boxes[i]];
      }
      i := i + 1;
    }
    assert externalIds[..i] == externalIds && boxes[..i] == boxes;
  }

  /** The external model: one embedding per cropped box of `image`. */
  function EmbedCrops(image: Image, boxes: seq<Box>, embed: (Image, Box) -> Vector): (rows: seq<Vector>)
    ensures |rows| == |boxes|
  {
    seq(|boxes|, i requires 0 <= i < |boxes| => embed(image, boxes[i]))
  }

  /**
   * `add_logos`: compute and save the embeddings of the logos not yet stored;
   * return how many were saved (0, with nothing written, when all are stored).
   */
  method AddLogos(store: EmbeddingStore, image: Image, externalIds: seq<LogoId>, boxes: seq<Box>,
                  embed: (Image, Box) -> Vector) returns (added: nat)
    requires store.Valid()
    requires |externalIds| == |boxes|
    requires store.offset + |Unstored(store.logoIdToIdx, externalIds, boxes).0| <= store.externalId.Length
    modifies store, store.externalId, store.embedding
    ensures store.Valid()
    ensures store.externalId == old(store.externalId) && store.embedding == old(store.embedding)
    ensures added == |Unstored(old(store.logoIdToIdx), externalIds, boxes).0|
    ensures added == 0 ==> unchanged(store) && unchanged(store.externalId) && unchanged(store.embedding)
    ensures added != 0 ==>
      var sel := Unstored(old(store.logoIdToIdx), externalIds, boxes);
      && store.offset == old(store.offset) + added
      && store.externalId[..] == old(store.externalId[..store.offset]) + sel.0 + old(store.externalId[store.offset + added..])
      && store.embedding[..] == old(store.embedding[..store.offset]) + EmbedCrops(image, sel.1, embed) + old(store.embedding[store.offset + added..])
      && store.logoIdToIdx == old(store.logoIdToIdx) + LastPositions(sel.0, old(store.offset))
  {
    var selectedIds, selectedBoxes := SelectUnstored(store, externalIds, boxes);
    if selectedBoxes == [] {
      return 0;
    }
    var embeddings := EmbedCrops(image, selectedBoxes, embed);
    store.SaveEmbeddings(embeddings, selectedIds);
    added := |embeddings|;
  }
}
