/** The collection operations the repositories are built from: selecting
    the rows a query's `where` clause admits, taking the first match,
    ordering by a key, and cutting out one page. */
module Seqs {
  import opened Common

  /** The rows of `s` that `p` admits, in their original order. */
  function Filter<T(!new)>(s: seq<T>, p: T -> bool): (r: seq<T>)
    ensures |r| <= |s|
    ensures forall i :: 0 <= i < |r| ==> p(r[i])
    ensures forall x :: x in r <==> x in s && p(x)
    decreases |s|
  {
    if |s| == 0 then []
    else
      var rest := Filter(s[1..], p);
      assert forall x :: x in s <==> x == s[0] || x in s[1..];
      if p(s[0]) then [s[0]] + rest else rest
  }

  /** No element occurs twice. */
  ghost predicate Distinct<T>(s: seq<T>) {
    forall i, j :: 0 <= i < j < |s| ==> s[i] != s[j]
  }

  /** In a sequence without repeats, each element occurs exactly once. */
  lemma {:induction false} DistinctMultiset<T>(s: seq<T>)
    requires Distinct(s)
    ensures forall x :: multiset(s)[x] == if x in s then 1 else 0
    decreases |s|
  {
    if |s| > 0 {
      assert s == [s[0]] + s[1..];
      assert Distinct(s[1..]) by {
        forall i, j | 0 <= i < j < |s[1..]| ensures s[1..][i] != s[1..][j] {
          assert s[1..][i] == s[i + 1] && s[1..][j] == s[j + 1];
        }
      }
      DistinctMultiset(s[1..]);
      forall j | 0 <= j < |s[1..]| ensures s[1..][j] != s[0] {
        assert s[1..][j] == s[j + 1];
      }
    }
  }

  /** `Filter` keeps every admitted row as often as it occurs, and no other. */
  lemma {:induction false} FilterMultiset<T(!new)>(s: seq<T>, p: T -> bool)
    ensures forall x :: multiset(Filter(s, p))[x] == if p(x) then multiset(s)[x] else 0
    decreases |s|
  {
    if |s| > 0 {
      FilterMultiset(s[1..], p);
      assert s == [s[0]] + s[1..];
    }
  }

  /** The first row of `s` that `p` admits, if any. */
  function FindFirst<T>(s: seq<T>, p: T -> bool): (r: Option<T>)
    ensures r.None? <==> forall i :: 0 <= i < |s| ==> !p(s[i])
    ensures r.Some? ==> exists i :: 0 <= i < |s| && s[i] == r.value && p(s[i])
                          && forall j :: 0 <= j < i ==> !p(s[j])
    decreases |s|
  {
    if |s| == 0 then None
    else if p(s[0]) then Some(s[0])
    else
      var r := FindFirst(s[1..], p);
      assert forall j :: 1 <= j < |s| ==> s[j] == s[1..][j - 1];
      r
  }

  /** `s` is in non-decreasing order of `key`. */
  ghost predicate SortedBy<T>(s: seq<T>, key: T -> int) {
    forall i, j :: 0 <= i < j < |s| ==> key(s[i]) <= key(s[j])
  }

  /** Places `x` in front of the first element whose key is not smaller. */
  function Insert<T(!new)>(x: T, s: seq<T>, key: T -> int): (r: seq<T>)
    requires SortedBy(s, key)
    ensures SortedBy(r, key)
    ensures multiset(r) == multiset(s) + multiset{x}
    ensures forall i :: 0 <= i < |r| ==> r[i] == x || r[i] in s
    decreases |s|
  {
    if |s| == 0 then [x]
    else if key(x) <= key(s[0]) then
      assert multiset([x] + s) == multiset{x} + multiset(s);
      [x] + s
    else
      var rest := Insert(x, s[1..], key);
      InsertBehindHead(x, s, key, rest);
      [s[0]] + rest
  }

  /** The step of `Insert` that keeps the head of `s` in front. */
  lemma InsertBehindHead<T(!new)>(x: T, s: seq<T>, key: T -> int, rest: seq<T>)
    requires |s| > 0 && SortedBy(s, key) && key(s[0]) < key(x)
    requires SortedBy(rest, key)
    requires multiset(rest) == multiset(s[1..]) + multiset{x}
    requires forall i :: 0 <= i < |rest| ==> rest[i] == x || rest[i] in s[1..]
    ensures SortedBy([s[0]] + rest, key)
    ensures multiset([s[0]] + rest) == multiset(s) + multiset{x}
    ensures forall i :: 0 <= i < |[s[0]] + rest| ==> ([s[0]] + rest)[i] == x || ([s[0]] + rest)[i] in s
  {
    assert s == [s[0]] + s[1..];
    HeadBelowRest(x, s, key, rest);
    var r := [s[0]] + rest;
    forall i, j | 0 <= i < j < |r| ensures key(r[i]) <= key(r[j]) {
      if i > 0 {
        assert r[i] == rest[i - 1] && r[j] == rest[j - 1];
      }
    }
  }

  lemma HeadBelowRest<T(!new)>(x: T, s: seq<T>, key: T -> int, rest: seq<T>)
    requires |s| > 0 && SortedBy(s, key) && key(s[0]) < key(x)
    requires forall i :: 0 <= i < |rest| ==> rest[i] == x || rest[i] in s[1..]
    ensures forall i :: 0 <= i < |rest| ==> key(s[0]) <= key(rest[i])
  {
    forall i | 0 <= i < |rest| ensures key(s[0]) <= key(rest[i]) {
      if rest[i] != x {
        var k :| 0 <= k < |s[1..]| && s[1..][k] == rest[i];
        assert s[k + 1] == rest[i];
      }
    }
  }

  /** A stable insertion sort by `key`, ascending. A descending order is
      obtained by sorting on the negated key. */
  function SortBy<T(!new)>(s: seq<T>, key: T -> int): (r: seq<T>)
    ensures SortedBy(r, key)
    ensures multiset(r) == multiset(s)
    ensures |r| == |s|
    decreases |s|
  {
    if |s| == 0 then []
    else
      assert s == [s[0]] + s[1..];
      Insert(s[0], SortBy(s[1..], key), key)
  }

  /** Sorting neither adds nor drops an element. */
  lemma SortByMembers<T(!new)>(s: seq<T>, key: T -> int, x: T)
    ensures x in SortBy(s, key) <==> x in s
  {
    assert x in SortBy(s, key) <==> multiset(SortBy(s, key))[x] > 0;
    assert x in s <==> multiset(s)[x] > 0;
  }

  /** How many rows page `page` of `total` rows holds when pages have
      `size` rows: none past the end, a short last page, else `size`. */
  function PageLength(total: nat, page: nat, size: nat): nat {
    if page * size >= total then 0
    else if total - page * size < size then total - page * size else size
  }

  /** `PageRequest.of(page, size)` applied to a fully ordered result: skip
      `page * size` rows, keep at most `size`. */
  function Page<T>(s: seq<T>, page: nat, size: nat): (r: seq<T>)
    ensures |r| <= size
    ensures |r| == PageLength(|s|, page, size)
    ensures forall i :: 0 <= i < |r| ==> page * size + i < |s| && r[i] == s[page * size + i]
  {
    var lo := if page * size < |s| then page * size else |s|;
    var hi := if lo + size < |s| then lo + size else |s|;
    s[lo..hi]
  }

  /** Every row of `s` is on some page, at the offset its position names. */
  lemma PageCovers<T>(s: seq<T>, size: nat, j: nat)
    requires size > 0 && j < |s|
    ensures exists page: nat :: && page * size <= j < page * size + size
                                && j - page * size < |Page(s, page, size)|
                                && Page(s, page, size)[j - page * size] == s[j]
  {
    var p := j / size;
    assert p * size + j % size == j;
    assert Page(s, p, size)[j - p * size] == s[j];
  }

  /** The row at position `n` is on the page whose rows span `n`, at the
      offset `n` names there. */
  lemma PageHolds<T>(s: seq<T>, size: nat, n: nat, page: nat)
    requires size > 0 && n < |s| && page * size <= n < page * size + size
    ensures n - page * size < |Page(s, page, size)| && Page(s, page, size)[n - page * size] == s[n]
  {
  }

  /** Every row of a page is a row of what was paged. */
  lemma PageMembers<T>(s: seq<T>, page: nat, size: nat)
    ensures forall x :: x in Page(s, page, size) ==> x in s
  {
    var r := Page(s, page, size);
    forall x | x in r ensures x in s {
      var i :| 0 <= i < |r| && r[i] == x;
      assert r[i] == s[page * size + i];
    }
  }

  /** A page of an ordering of `all` holds rows of `all`, still in key
      order. */
  lemma PageOfSorted<T(!new)>(all: seq<T>, sorted: seq<T>, key: T -> int, page: nat, size: nat)
    requires multiset(sorted) == multiset(all)
    requires SortedBy(sorted, key)
    ensures var r := Page(sorted, page, size);
            && (forall i :: 0 <= i < |r| ==> r[i] in all)
            && (forall i, j :: 0 <= i < j < |r| ==> key(r[i]) <= key(r[j]))
  {
    var r := Page(sorted, page, size);
    forall i | 0 <= i < |r| ensures r[i] in all {
      assert r[i] == sorted[page * size + i];
      assert multiset(sorted)[r[i]] > 0;
    }
    forall i, j | 0 <= i < j < |r| ensures key(r[i]) <= key(r[j]) {
      assert r[i] == sorted[page * size + i] && r[j] == sorted[page * size + j];
    }
  }

  /** The page index every paginated service computes from the `from`
      and `size` request parameters: `from < size ? 0 : from / size`. Java's
      `/` truncates toward zero, which agrees with Dafny's `/` here because
      both operands are non-negative. */
  function PageIndex(from: int, size: int): (page: nat)
    requires from >= 0 && size > 0
    ensures page == from / size
    ensures page * size <= from < page * size + size
  {
    if from < size then 0 else from / size
  }

  /** The first row of the page is `from` rounded down to a multiple of
      `size`: a `from` that is not such a multiple loses its remainder. */
  lemma PageStartRoundsDown(from: int, size: int)
    requires from >= 0 && size > 0
    ensures PageIndex(from, size) * size == from - from % size
    ensures PageIndex(from, size) * size == from <==> from % size == 0
  {
  }

  /** The page a multiple of `size` selects starts at that multiple. */
  lemma PageIndexOfStart(page: nat, size: nat)
    requires size > 0
    ensures page * size >= 0 && PageIndex(page * size, size) == page
  {
    NatProduct(page, size);
    var q: nat := PageIndex(page * size, size);
    if q < page {
      MulMonotone(q + 1, page, size);
      assert false;
    } else if q > page {
      MulMonotone(page + 1, q, size);
      assert false;
    }
  }

  /** Multiplying by a natural keeps the order. */
  lemma MulMonotone(a: nat, b: nat, c: nat)
    requires a <= b
    ensures a * c <= b * c
  {
    NatProduct(b - a, c);
    assert b * c == a * c + (b - a) * c;
  }

  /** The number of rows of `s` whose key is below `k`. */
  function CountBelow<T>(s: seq<T>, key: T -> int, k: int): (n: nat)
    ensures n <= |s|
    decreases |s|
  {
    if |s| == 0 then 0
    else (if key(s[0]) < k then 1 else 0) + CountBelow(s[1..], key, k)
  }

  /** In the ordering of `all` by `key`, `x` may stand at position `n`:
      at most `n` rows have a smaller key and more than `n` rows have a key
      no larger. Rows sharing a key share the positions between the two
      counts, in an order this does not fix. */
  predicate AtRank<T>(all: seq<T>, key: T -> int, x: T, n: int) {
    CountBelow(all, key, key(x)) <= n < CountBelow(all, key, key(x) + 1)
  }

  /** Inserting `x` adds one to the count exactly when `x`'s key is below
      the bound. */
  lemma {:induction false} CountInsert<T(!new)>(x: T, s: seq<T>, key: T -> int, k: int)
    requires SortedBy(s, key)
    ensures CountBelow(Insert(x, s, key), key, k) == CountBelow(s, key, k) + (if key(x) < k then 1 else 0)
    decreases |s|
  {
    var r := Insert(x, s, key);
    if |s| == 0 {
      assert r == [x] && r[1..] == [];
    } else if key(x) <= key(s[0]) {
      assert r == [x] + s && r[1..] == s;
    } else {
      var rest := Insert(x, s[1..], key);
      CountInsert(x, s[1..], key, k);
      assert r == [s[0]] + rest && r[1..] == rest;
    }
  }

  /** Sorting keeps every count. */
  lemma {:induction false} CountSortBy<T(!new)>(s: seq<T>, key: T -> int, k: int)
    ensures CountBelow(SortBy(s, key), key, k) == CountBelow(s, key, k)
    decreases |s|
  {
    if |s| > 0 {
      CountSortBy(s[1..], key, k);
      CountInsert(s[0], SortBy(s[1..], key), key, k);
    }
  }

  lemma {:induction false} CountNoneBelow<T>(s: seq<T>, key: T -> int, k: int)
    requires forall i :: 0 <= i < |s| ==> k <= key(s[i])
    ensures CountBelow(s, key, k) == 0
    decreases |s|
  {
    if |s| > 0 {
      assert forall i :: 0 <= i < |s[1..]| ==> s[1..][i] == s[i + 1];
      CountNoneBelow(s[1..], key, k);
    }
  }

  /** In a sorted sequence the row at position `j` stands at rank `j`. */
  lemma {:induction false} SortedRank<T>(s: seq<T>, key: T -> int, j: nat)
    requires SortedBy(s, key) && j < |s|
    ensures AtRank(s, key, s[j], j)
    decreases j
  {
    if j == 0 {
      CountNoneBelow(s, key, key(s[0]));
    } else {
      assert forall a, b :: 0 <= a < b < |s[1..]| ==> s[1..][a] == s[a + 1] && s[1..][b] == s[b + 1];
      SortedRank(s[1..], key, j - 1);
      assert s[1..][j - 1] == s[j];
      assert key(s[0]) <= key(s[j]);
    }
  }

  /** Stated apart so that the solver need not search for it. */
  lemma NatProduct(a: nat, b: nat)
    ensures a * b >= 0
  {
  }

  /** A page of `all` ordered by `key` holds as many rows as remain past
      the skipped ones, up to `size`; each is a row of `all`, standing at
      its overall position in the key order. */
  lemma {:induction false} PageOfSortBy<T(!new)>(all: seq<T>, key: T -> int, page: nat, size: nat)
    ensures var r := Page(SortBy(all, key), page, size);
            && |r| == PageLength(|all|, page, size)
            && (forall i :: 0 <= i < |r| ==> r[i] in all && AtRank(all, key, r[i], page * size + i))
            && (forall i, j :: 0 <= i < j < |r| ==> key(r[i]) <= key(r[j]))
  {
    var sorted := SortBy(all, key);
    var r := Page(sorted, page, size);
    assert forall i, j :: 0 <= i < j < |r| ==> key(r[i]) <= key(r[j]) by {
      PageOfSorted(all, sorted, key, page, size);
    }
    assert forall i :: 0 <= i < |r| ==> r[i] in all && AtRank(all, key, r[i], page * size + i) by {
      forall i | 0 <= i < |r| ensures r[i] in all && AtRank(all, key, r[i], page * size + i) {
        PageRank(all, key, page, size, i);
      }
    }
  }

  lemma PageRank<T(!new)>(all: seq<T>, key: T -> int, page: nat, size: nat, i: nat)
    requires i < |Page(SortBy(all, key), page, size)|
    ensures var r := Page(SortBy(all, key), page, size);
            r[i] in all && AtRank(all, key, r[i], page * size + i)
  {
    NatProduct(page, size);
    var j: nat := page * size + i;
    assert Page(SortBy(all, key), page, size)[i] == SortBy(all, key)[j];
    RankInSortBy(all, key, j);
  }

  /** The row at position `j` of the sorted rows stands at rank `j` among
      the unsorted ones. */
  lemma RankInSortBy<T(!new)>(all: seq<T>, key: T -> int, j: nat)
    requires j < |all|
    ensures j < |SortBy(all, key)| && SortBy(all, key)[j] in all && AtRank(all, key, SortBy(all, key)[j], j)
  {
    var sorted := SortBy(all, key);
    assert sorted[j] in all by {
      assert sorted[j] in multiset(sorted);
    }
    assert AtRank(all, key, sorted[j], j) by {
      SortedRank(sorted, key, j);
      CountSortBy(all, key, key(sorted[j]));
      CountSortBy(all, key, key(sorted[j]) + 1);
    }
  }

  /** Every row of `all` is on some page of its ordering by `key`; a row
      whose key no other row shares stands at its rank in that ordering. */
  lemma {:induction false} PagesCover<T(!new)>(all: seq<T>, key: T -> int, size: nat, x: T)
    requires size > 0 && x in all
    ensures exists page: nat :: x in Page(SortBy(all, key), page, size)
    ensures CountBelow(all, key, key(x) + 1) == CountBelow(all, key, key(x)) + 1 ==>
              var n := CountBelow(all, key, key(x));
              n < |SortBy(all, key)| && SortBy(all, key)[n] == x
  {
    var sorted := SortBy(all, key);
    assert multiset(sorted)[x] > 0;
    var j: nat :| j < |sorted| && sorted[j] == x;
    PageCovers(sorted, size, j);
    var p: nat :| && p * size <= j < p * size + size
                  && j - p * size < |Page(sorted, p, size)|
                  && Page(sorted, p, size)[j - p * size] == sorted[j];
    assert x in Page(sorted, p, size);
    SortedRank(sorted, key, j);
    CountSortBy(all, key, key(x));
    CountSortBy(all, key, key(x) + 1);
    var n := CountBelow(all, key, key(x));
    if CountBelow(all, key, key(x) + 1) == n + 1 {
      assert j == n;
    }
  }

  /** A row whose key `k` no other row of `all` shares is on the page
      whose rows span its rank, at the offset its rank names there. */
  lemma {:induction false} UniqueKeyPaged<T(!new)>(all: seq<T>, key: T -> int, size: nat, x: T, k: int, page: nat)
    requires size > 0 && x in all && key(x) == k
    requires CountBelow(all, key, k + 1) == CountBelow(all, key, k) + 1
    requires page * size <= CountBelow(all, key, k) < page * size + size
    ensures var n := CountBelow(all, key, k);
            && n - page * size < |Page(SortBy(all, key), page, size)|
            && Page(SortBy(all, key), page, size)[n - page * size] == x
  {
    UniqueKeyPosition(all, key, x);
    KeyedPageHolds(all, key, size, x, CountBelow(all, key, k), page);
  }

  /** An element whose key no other element shares sits, after sorting, at
      the position counting the elements with smaller keys. */
  lemma UniqueKeyPosition<T(!new)>(all: seq<T>, key: T -> int, x: T)
    requires x in all
    requires CountBelow(all, key, key(x) + 1) == CountBelow(all, key, key(x)) + 1
    ensures CountBelow(all, key, key(x)) < |SortBy(all, key)| && SortBy(all, key)[CountBelow(all, key, key(x))] == x
  {
    var sorted := SortBy(all, key);
    SortByMembers(all, key, x);
    var j: nat :| j < |sorted| && sorted[j] == x;
    var n := CountBelow(all, key, key(x));
    assert CountBelow(sorted, key, key(x)) <= j < CountBelow(sorted, key, key(x) + 1) by {
      SortedRank(sorted, key, j);
    }
    assert CountBelow(sorted, key, key(x)) == n && CountBelow(sorted, key, key(x) + 1) == n + 1 by {
      CountSortBy(all, key, key(x));
      CountSortBy(all, key, key(x) + 1);
    }
    assert j == n;
  }

  lemma KeyedPageHolds<T(!new)>(all: seq<T>, key: T -> int, size: nat, x: T, n: nat, page: nat)
    requires size > 0 && page * size <= n < page * size + size
    requires n < |SortBy(all, key)| && SortBy(all, key)[n] == x
    ensures n - page * size < |Page(SortBy(all, key), page, size)|
            && Page(SortBy(all, key), page, size)[n - page * size] == x
  {
    PageHolds(SortBy(all, key), size, n, page);
  }
}
