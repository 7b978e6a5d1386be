/**
 * The three collections hold records tagged with an id (`{ ...fields, id }`).
 * This module gives the array operations the core applies to them: `filter`,
 * the replace-by-id `map`, and `find` by id, with what each guarantees.
 */
module Collections {

  import opened Wrappers

  type Id = int

  /** A stored record: its fields together with the id the store gave it. */
  datatype Entry<T> = Entry(id: Id, fields: T)

  /** No record of `s` has id `id`. */
  predicate Fresh<T>(s: seq<Entry<T>>, id: Id) {
    forall i :: 0 <= i < |s| ==> s[i].id != id
  }

  predicate UniqueIds<T>(s: seq<Entry<T>>) {
    forall i, j :: 0 <= i < j < |s| ==> s[i].id != s[j].id
  }

  /** `s.filter(p)`. */
  function Filter<T>(s: seq<T>, p: T -> bool): (r: seq<T>)
    ensures |r| <= |s|
    ensures forall k :: 0 <= k < |r| ==> r[k] in s && p(r[k])
    ensures forall i :: 0 <= i < |s| && p(s[i]) ==> s[i] in r
    decreases |s|
  {
    if s == [] then []
    else
      var init, last := s[..|s| - 1], s[|s| - 1];
      assert s == init + [last];
      Filter(init, p) + (if p(last) then [last] else [])
  }

  /** The positions of `s` whose element passes `p`, in increasing order. */
  ghost function KeptIndices<T>(s: seq<T>, p: T -> bool): (idx: seq<int>)
    ensures forall k :: 0 <= k < |idx| ==> 0 <= idx[k] < |s| && p(s[idx[k]])
    ensures forall i :: 0 <= i < |s| && p(s[i]) ==> i in idx
    ensures forall j, k :: 0 <= j < k < |idx| ==> idx[j] < idx[k]
    decreases |s|
  {
    if s == [] then []
    else
      var init := s[..|s| - 1];
      var before := KeptIndices(init, p);
      assert forall k :: 0 <= k < |before| ==> s[before[k]] == init[before[k]];
      before + (if p(s[|s| - 1]) then [|s| - 1] else [])
  }

  /**
   * Filtering keeps the elements at exactly the passing positions, in their
   * original order: an order-preserving subsequence from which nothing that
   * passes is missing.
   */
  lemma {:induction false} FilterSelects<T>(s: seq<T>, p: T -> bool)
    ensures |Filter(s, p)| == |KeptIndices(s, p)|
    ensures forall k :: 0 <= k < |Filter(s, p)| ==> Filter(s, p)[k] == s[KeptIndices(s, p)[k]]
    decreases |s|
  {
    if s != [] {
      var init := s[..|s| - 1];
      FilterSelects(init, p);
      forall k | 0 <= k < |Filter(s, p)|
        ensures Filter(s, p)[k] == s[KeptIndices(s, p)[k]]
      {
        if k < |Filter(init, p)| {
          assert Filter(s, p)[k] == Filter(init, p)[k];
          assert KeptIndices(s, p)[k] == KeptIndices(init, p)[k];
          assert init[KeptIndices(init, p)[k]] == s[KeptIndices(init, p)[k]];
        }
      }
    }
  }

  /** The positions of `s` whose element passes `p`. */
  ghost function PassingPositions<T>(s: seq<T>, p: T -> bool): set<int> {
    set i | 0 <= i < |s| && p(s[i])
  }

  /** The length of a filtered sequence is the number of positions that pass. */
  lemma {:induction false} FilterCount<T>(s: seq<T>, p: T -> bool)
    ensures |Filter(s, p)| == |PassingPositions(s, p)|
    decreases |s|
  {
    if s != [] {
      var init := s[..|s| - 1];
      FilterCount(init, p);
      if p(s[|s| - 1]) {
        assert PassingPositions(s, p) == PassingPositions(init, p) + {|s| - 1};
      } else {
        assert PassingPositions(s, p) == PassingPositions(init, p);
      }
    }
  }

  /** When every element passes, filtering changes nothing. */
  lemma {:induction false} FilterAllPass<T>(s: seq<T>, p: T -> bool)
    ensures (forall i :: 0 <= i < |s| ==> p(s[i])) ==> Filter(s, p) == s
    decreases |s|
  {
    if s != [] && forall i :: 0 <= i < |s| ==> p(s[i]) {
      var init := s[..|s| - 1];
      assert s == init + [s[|s| - 1]];
      FilterAllPass(init, p);
    }
  }

  /** Filtering twice by the same test is filtering once. */
  lemma FilterIdempotent<T>(s: seq<T>, p: T -> bool)
    ensures Filter(Filter(s, p), p) == Filter(s, p)
  {
    FilterAllPass(Filter(s, p), p);
  }

  /** Two tests that agree on every element of `s` filter it alike. */
  lemma {:induction false} FilterCongruent<T>(s: seq<T>, p: T -> bool, q: T -> bool)
    requires forall i :: 0 <= i < |s| ==> p(s[i]) == q(s[i])
    ensures Filter(s, p) == Filter(s, q)
    decreases |s|
  {
    if s != [] {
      var init := s[..|s| - 1];
      assert s == init + [s[|s| - 1]];
      FilterCongruent(init, p, q);
    }
  }

  /** Filtering a store collection cannot create two records with one id. */
  lemma FilterKeepsIdsUnique<T>(s: seq<Entry<T>>, p: Entry<T> -> bool)
    requires UniqueIds(s)
    ensures UniqueIds(Filter(s, p))
  {
    FilterSelects(s, p);
  }

  function HasId<T>(id: Id): Entry<T> -> bool {
    (e: Entry<T>) => e.id == id
  }

  function LacksId<T>(id: Id): Entry<T> -> bool {
    (e: Entry<T>) => e.id != id
  }

  /** Appending a record under a fresh id: it is then the one and only record with that id. */
  lemma AppendFreshListsOnce<T>(s: seq<Entry<T>>, id: Id, fields: T)
    requires Fresh(s, id)
    ensures Filter(s + [Entry(id, fields)], HasId(id)) == [Entry(id, fields)]
  {
    var s' := s + [Entry(id, fields)];
    assert s'[..|s'| - 1] == s;
    FilterCount(s, HasId(id));
    assert PassingPositions(s, HasId(id)) == {};
  }

  /** Appending under a fresh id keeps the ids unique. */
  lemma AppendFreshKeepsIdsUnique<T>(s: seq<Entry<T>>, id: Id, fields: T)
    requires UniqueIds(s) && Fresh(s, id)
    ensures UniqueIds(s + [Entry(id, fields)])
  {
    var s' := s + [Entry(id, fields)];
    forall i, j | 0 <= i < j < |s'|
      ensures s'[i].id != s'[j].id
    {
      assert s'[i] == s[i];
      if j < |s| {
        assert s'[j] == s[j];
      }
    }
  }

  /** `s.filter(e => e.id !== id)`. */
  function Remove<T>(s: seq<Entry<T>>, id: Id): (r: seq<Entry<T>>)
    ensures Fresh(r, id)
    ensures forall k :: 0 <= k < |r| ==> r[k] in s
    ensures forall i :: 0 <= i < |s| && s[i].id != id ==> s[i] in r
  {
    Filter(s, LacksId(id))
  }

  /** Removing an id no record has changes nothing. */
  lemma RemoveAbsent<T>(s: seq<Entry<T>>, id: Id)
    requires Fresh(s, id)
    ensures Remove(s, id) == s
  {
    FilterAllPass(s, LacksId(id));
  }

  /** Deleting the same id twice is deleting it once. */
  lemma RemoveIdempotent<T>(s: seq<Entry<T>>, id: Id)
    ensures Remove(Remove(s, id), id) == Remove(s, id)
  {
    FilterIdempotent(s, LacksId(id));
  }

  /**
   * `s.map(e => e.id === id ? { ...fields, id } : e)`: every record with that id
   * becomes the new fields under the same id; every other record stays.
   */
  function Replace<T>(s: seq<Entry<T>>, id: Id, fields: T): (r: seq<Entry<T>>)
    ensures |r| == |s|
    ensures forall i :: 0 <= i < |s| ==> r[i] == if s[i].id == id then Entry(id, fields) else s[i]
    decreases |s|
  {
    if s == [] then []
    else
      var last := s[|s| - 1];
      Replace(s[..|s| - 1], id, fields) + [if last.id == id then Entry(id, fields) else last]
  }

  /** Replacing keeps every id where it was, so it keeps the ids unique. */
  lemma ReplaceKeepsIds<T>(s: seq<Entry<T>>, id: Id, fields: T)
    ensures forall i :: 0 <= i < |s| ==> Replace(s, id, fields)[i].id == s[i].id
    ensures UniqueIds(s) ==> UniqueIds(Replace(s, id, fields))
  {
  }

  /** Replacing an id no record has changes nothing. */
  lemma ReplaceAbsent<T>(s: seq<Entry<T>>, id: Id, fields: T)
    requires Fresh(s, id)
    ensures Replace(s, id, fields) == s
  {
  }

  /** Position `i` holds the first record of `s` with id `id`. */
  predicate FirstWithId<T>(s: seq<Entry<T>>, i: int, id: Id) {
    0 <= i < |s| && s[i].id == id && forall j :: 0 <= j < i ==> s[j].id != id
  }

  /** The position of the record `s.find(e => e.id === id)` returns: the first one with that id, if any. */
  function Find<T>(s: seq<Entry<T>>, id: Id): (r: Option<nat>)
    ensures r.Some? ==> FirstWithId(s, r.value, id)
    ensures r.None? <==> Fresh(s, id)
  {
    if s == [] then None
    else if s[0].id == id then Some(0)
    else
      match Find(s[1..], id)
      case Some(k) => Some(k + 1)
      case None => None
  }

}
