/**
 * Bookkeeping shared by the embedding store and the ANN index: the dictionary
 * `{x: i for i, x in enumerate(column)}` that maps each ID to the last row that
 * holds it, and the order in which a Python dict built that way lists its keys.
 */
module Positions {

  /** The set of values occurring in `s`. */
  function Elements(s: seq<int>): set<int> {
    set x | x in s
  }

  /** `j` is the last position of `k` in `s`. */
  predicate IsLastPosition(s: seq<int>, k: int, j: int) {
    0 <= j < |s| && s[j] == k && forall i :: j < i < |s| ==> s[i] != k
  }

  /**
   * The dictionary obtained by writing `s` row by row from row `base` on,
   * assigning each ID the row it is written to: a later occurrence overrides
   * an earlier one.
   */
  function LastPositions(s: seq<int>, base: nat): (m: map<int, nat>)
    decreases |s|
  {
    if s == [] then map[]
    else LastPositions(s[..|s| - 1], base)[s[|s| - 1] := base + |s| - 1]
  }

  /** The dictionary holds exactly the IDs of `s`, each at the row of its last occurrence. */
  lemma {:induction false} LastPositionsSpec(s: seq<int>, base: nat)
    ensures LastPositions(s, base).Keys == Elements(s)
    ensures forall k :: k in LastPositions(s, base) ==>
      base <= LastPositions(s, base)[k] && IsLastPosition(s, k, LastPositions(s, base)[k] - base)
    decreases |s|
  {
    if s != [] {
      var prefix := s[..|s| - 1];
      assert s == prefix + [s[|s| - 1]];
      LastPositionsSpec(prefix, base);
    }
  }

  /** Each slot's ID is in the dictionary, at that slot or a later one. */
  lemma LastPositionsHas(s: seq<int>, base: nat, j: int)
    requires 0 <= j < |s|
    ensures s[j] in LastPositions(s, base)
    ensures base + j <= LastPositions(s, base)[s[j]] < base + |s|
  {
    LastPositionsSpec(s, base);
    assert s[j] in Elements(s);
    var m := LastPositions(s, base);
    assert IsLastPosition(s, s[j], m[s[j]] - base);
  }

  /** Each dictionary entry points at the last slot holding its ID. */
  lemma LastPositionsOf(s: seq<int>, base: nat, k: int)
    requires k in LastPositions(s, base)
    ensures base <= LastPositions(s, base)[k] && IsLastPosition(s, k, LastPositions(s, base)[k] - base)
  {
    LastPositionsSpec(s, base);
  }

  /** Every ID of `s` gets exactly its last position. */
  lemma LastPositionsAt(s: seq<int>, base: nat, k: int, j: int)
    requires IsLastPosition(s, k, j)
    ensures k in LastPositions(s, base) && LastPositions(s, base)[k] == base + j
  {
    LastPositionsSpec(s, base);
    assert k in Elements(s);
  }

  /** Writing one more ID after `s` assigns it the next row. */
  lemma LastPositionsSnoc(s: seq<int>, x: int, base: nat)
    ensures LastPositions(s + [x], base) == LastPositions(s, base)[x := base + |s|]
  {
    assert (s + [x])[..|s|] == s;
  }

  /** Writing `a` then `b` right after it gives the dictionary of `a` updated by that of `b`. */
  lemma {:induction false} LastPositionsAppend(a: seq<int>, b: seq<int>, base: nat)
    ensures LastPositions(a + b, base) == LastPositions(a, base) + LastPositions(b, base + |a|)
    decreases |b|
  {
    if b == [] {
      assert a + b == a;
    } else {
      var b' := b[..|b| - 1];
      var x := b[|b| - 1];
      var v := base + |a| + |b| - 1;
      assert (a + b)[..|a + b| - 1] == a + b';
      assert (a + b)[|a + b| - 1] == x;
      var ma, mb' := LastPositions(a, base), LastPositions(b', base + |a|);
      calc {
        LastPositions(a + b, base);
        LastPositions(a + b', base)[x := v];
        { LastPositionsAppend(a, b', base); }
        (ma + mb')[x := v];
        { UnionUpdate(ma, mb', x, v); }
        ma + mb'[x := v];
        ma + LastPositions(b, base + |a|);
      }
    }
  }

  /**
   * Overriding `m` with the positions of `batch` (rows from `base` on): every
   * batch ID maps to its last row in the batch.
   */
  lemma BatchIdsUpdated(m: map<int, nat>, batch: seq<int>, base: nat)
    ensures forall k :: k in batch ==>
      && k in LastPositions(batch, base)
      && base <= (m + LastPositions(batch, base))[k] < base + |batch|
      && IsLastPosition(batch, k, (m + LastPositions(batch, base))[k] - base)
  {
    forall k | k in batch
      ensures
        && k in LastPositions(batch, base)
        && base <= (m + LastPositions(batch, base))[k] < base + |batch|
        && IsLastPosition(batch, k, (m + LastPositions(batch, base))[k] - base)
    {
      BatchIdUpdated(m, batch, base, k);
    }
  }

  /** Overriding `m` with the positions of `batch`: every other ID keeps its entry, or stays absent. */
  lemma OtherIdsKept(m: map<int, nat>, batch: seq<int>, base: nat)
    ensures forall k :: k !in batch ==>
      && (k in m + LastPositions(batch, base) <==> k in m)
      && (k in m ==> (m + LastPositions(batch, base))[k] == m[k])
  {
    forall k | k !in batch
      ensures
        && (k in m + LastPositions(batch, base) <==> k in m)
        && (k in m ==> (m + LastPositions(batch, base))[k] == m[k])
    {
      OtherIdKept(m, batch, base, k);
    }
  }

  lemma BatchIdUpdated(m: map<int, nat>, batch: seq<int>, base: nat, k: int)
    requires k in batch
    ensures k in LastPositions(batch, base) && (m + LastPositions(batch, base))[k] == LastPositions(batch, base)[k]
    ensures base <= LastPositions(batch, base)[k] < base + |batch|
    ensures IsLastPosition(batch, k, LastPositions(batch, base)[k] - base)
  {
    LastPositionsKeys(batch, base);
    assert k in Elements(batch);
    LastPositionsOf(batch, base, k);
  }

  lemma OtherIdKept(m: map<int, nat>, batch: seq<int>, base: nat, k: int)
    requires k !in batch
    ensures k in m + LastPositions(batch, base) <==> k in m
    ensures k in m ==> (m + LastPositions(batch, base))[k] == m[k]
  {
    LastPositionsKeys(batch, base);
    assert k !in Elements(batch);
  }

  /** The IDs `LastPositions` maps are exactly those of the sequence (the cheap half of `LastPositionsSpec`). */
  lemma LastPositionsKeys(s: seq<int>, base: nat)
    ensures LastPositions(s, base).Keys == Elements(s)
  {
    LastPositionsSpec(s, base);
  }

  lemma UnionUpdate(m: map<int, nat>, n: map<int, nat>, x: int, v: nat)
    ensures (m + n)[x := v] == m + n[x := v]
  {
  }

  /** A non-empty set has an element to pick. */
  lemma NonEmpty(s: set<int>)
    requires s != {}
    ensures exists k :: k in s
  {
    if forall k :: k !in s {
      assert false;
    }
  }

  /** All values of `s` are distinct. */
  predicate Distinct(s: seq<int>) {
    forall i, j :: 0 <= i < j < |s| ==> s[i] != s[j]
  }

  /**
   * The distinct values of `s` in the order of their first occurrence: the
   * order in which a Python dict lists keys that were inserted in the order of
   * `s`, since re-assigning an existing key keeps its place.
   */
  function FirstOccurrences(s: seq<int>): (d: seq<int>)
    ensures Elements(d) == Elements(s)
    ensures Distinct(d)
    decreases |s|
  {
    if s == [] then []
    else
      var prefix := s[..|s| - 1];
      assert s == prefix + [s[|s| - 1]];
      var p := FirstOccurrences(prefix);
      var x := s[|s| - 1];
      assert Elements(p + [x]) == Elements(p) + {x};
      if x in p then p else p + [x]
  }

  /** Every occurrence of `b` in `s` comes after some occurrence of `a`: `a` was first seen before `b`. */
  predicate FirstSeenBefore(s: seq<int>, a: int, b: int) {
    forall p :: 0 <= p < |s| && s[p] == b ==> a in s[..p]
  }

  /** `d` lists values in the order in which they are first seen in `s`. */
  predicate InFirstSeenOrder(s: seq<int>, d: seq<int>) {
    forall i, j :: 0 <= i < j < |d| ==> FirstSeenBefore(s, d[i], d[j])
  }

  /** `FirstOccurrences` lists the values in the order in which they first occur. */
  lemma {:induction false} FirstOccurrencesOrder(s: seq<int>)
    ensures InFirstSeenOrder(s, FirstOccurrences(s))
    decreases |s|
  {
    if s != [] {
      var prefix, x := s[..|s| - 1], s[|s| - 1];
      assert s == prefix + [x];
      FirstOccurrencesOrder(prefix);
      var d0 := FirstOccurrences(prefix);
      assert FirstOccurrences(s) == if x in d0 then d0 else d0 + [x];
      FirstSeenOrderSnoc(prefix, x, d0);
    }
  }

  /** Appending `x` to the column keeps the order, and `x` goes last when it is new. */
  lemma FirstSeenOrderSnoc(prefix: seq<int>, x: int, d0: seq<int>)
    requires Elements(d0) == Elements(prefix)
    requires InFirstSeenOrder(prefix, d0)
    ensures InFirstSeenOrder(prefix + [x], if x in d0 then d0 else d0 + [x])
  {
    var s := prefix + [x];
    var d := if x in d0 then d0 else d0 + [x];
    forall i, j | 0 <= i < j < |d|
      ensures FirstSeenBefore(s, d[i], d[j])
    {
      assert d[i] in Elements(d0);
      forall p | 0 <= p < |s| && s[p] == d[j]
        ensures d[i] in s[..p]
      {
        if p < |prefix| {
          assert prefix[p] == s[p];
          assert d[j] in Elements(prefix);
          // the appended x is not in prefix, so d[j] is not it
          assert j < |d0|;
          assert FirstSeenBefore(prefix, d0[i], d0[j]);
          assert prefix[..p] == s[..p];
        } else {
          assert d[i] in Elements(prefix);
          assert s[..p] == prefix;
        }
      }
    }
  }

  /** A sequence without repetition has as many elements as distinct values. */
  lemma {:induction false} DistinctCardinality(s: seq<int>)
    requires Distinct(s)
    ensures |Elements(s)| == |s|
    decreases |s|
  {
    if s != [] {
      var prefix := s[..|s| - 1];
      var x := s[|s| - 1];
      assert s == prefix + [x];
      assert Distinct(prefix);
      DistinctCardinality(prefix);
      assert x !in Elements(prefix);
      assert Elements(s) == Elements(prefix) + {x};
    }
  }
}
