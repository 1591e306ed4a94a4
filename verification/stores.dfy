/** What the map-backed stores share: a map from id to entity whose keys
    the store's counter handed out, read back in ascending key order. */
module Stores {
  import opened Common
  import opened Seqs

  /** Every key was handed out by a counter now at `lastId`. */
  ghost predicate KeysWithin<T>(m: map<Id, T>, lastId: Id) {
    forall k :: k in m ==> 1 <= k <= lastId
  }

  /** The values under the keys `lo..hi`, in ascending key order. */
  function ValuesFrom<T(!new)>(m: map<Id, T>, lo: Id, hi: Id): (r: seq<T>)
    ensures forall v :: v in r ==> exists k :: lo <= k <= hi && k in m && m[k] == v
    ensures forall k :: lo <= k <= hi && k in m ==> m[k] in r
    decreases hi - lo
  {
    if lo > hi then []
    else (if lo in m then [m[lo]] else []) + ValuesFrom(m, lo + 1, hi)
  }

  /** No two keys hold the same entity. */
  ghost predicate Injective<T>(m: map<Id, T>) {
    forall j, k :: j in m && k in m && j != k ==> m[j] != m[k]
  }

  /** `values()` of the store: the stored entities, keys ascending; when no
      two keys share an entity, each is listed exactly once. */
  function Values<T(==,!new)>(m: map<Id, T>, lastId: Id): (r: seq<T>)
    requires KeysWithin(m, lastId)
    ensures forall v :: v in r <==> v in m.Values
    ensures Injective(m) ==> forall v :: multiset(r)[v] == if v in m.Values then 1 else 0
  {
    var r := ValuesFrom(m, 1, lastId);
    forall v | v in m.Values ensures v in r {
      var k :| k in m && m[k] == v;
    }
    ValuesFromOnce(m, 1, lastId);
    r
  }

  /** Over an injective map, each listed value is listed once. */
  lemma ValuesFromOnce<T(!new)>(m: map<Id, T>, lo: Id, hi: Id)
    ensures Injective(m) ==>
              forall v :: multiset(ValuesFrom(m, lo, hi))[v] == if v in ValuesFrom(m, lo, hi) then 1 else 0
  {
    if Injective(m) {
      ValuesFromDistinct(m, lo, hi);
      DistinctMultiset(ValuesFrom(m, lo, hi));
    }
  }

  /** Over an injective map the listing has no repeats: the values of
      later keys differ from the value of the first. */
  lemma {:induction false} ValuesFromDistinct<T(!new)>(m: map<Id, T>, lo: Id, hi: Id)
    requires Injective(m)
    ensures Distinct(ValuesFrom(m, lo, hi))
    decreases hi - lo
  {
    if lo <= hi {
      var rest := ValuesFrom(m, lo + 1, hi);
      ValuesFromDistinct(m, lo + 1, hi);
      if lo in m {
        forall v | v in rest ensures v != m[lo] {
          var k :| lo + 1 <= k <= hi && k in m && m[k] == v;
        }
        var r := [m[lo]] + rest;
        assert ValuesFrom(m, lo, hi) == r;
        forall i, j | 0 <= i < j < |r| ensures r[i] != r[j] {
          if i == 0 {
            assert r[j] == rest[j - 1];
          } else {
            assert r[i] == rest[i - 1] && r[j] == rest[j - 1];
          }
        }
      }
    }
  }

  /** Each key contributes exactly one value: the count is the number of
      keys. */
  lemma {:induction false} ValuesFromCount<T(!new)>(m: map<Id, T>, lo: Id, hi: Id)
    ensures |ValuesFrom(m, lo, hi)| == |set k | k in m && lo <= k <= hi|
    decreases hi - lo
  {
    if lo > hi {
      assert (set k | k in m && lo <= k <= hi) == {};
    } else {
      ValuesFromCount(m, lo + 1, hi);
      ValuesFromStep(m, lo, hi);
      KeysStep(m, lo, hi);
    }
  }

  lemma ValuesFromStep<T(!new)>(m: map<Id, T>, lo: Id, hi: Id)
    requires lo <= hi
    ensures |ValuesFrom(m, lo, hi)| == (if lo in m then 1 else 0) + |ValuesFrom(m, lo + 1, hi)|
  {
  }

  lemma KeysStep<T>(m: map<Id, T>, lo: Id, hi: Id)
    requires lo <= hi
    ensures |set k | k in m && lo <= k <= hi| == (if lo in m then 1 else 0) + |set k | k in m && lo + 1 <= k <= hi|
  {
    var keys := set k | k in m && lo <= k <= hi;
    var rest := set k | k in m && lo + 1 <= k <= hi;
    if lo in m {
      assert keys == rest + {lo} && lo !in rest;
    } else {
      assert keys == rest;
    }
  }
}
