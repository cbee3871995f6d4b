/** Sequence operations that give SQL statements and Mongo filters their meaning over a
    table held as a sequence of rows in insertion order: WHERE (Filter), LIMIT 1 / first()
    (FirstWhere), deleteOne (RemoveFirst), ORDER BY ... DESC (SortDesc), LIMIT/OFFSET (Page)
    and Mongo's skip/limit (SkipLimit). */
module Tables {
  import opened Wrappers

  /** The complement of a row condition (`DELETE ... WHERE c` keeps the rows of `Not(c)`). */
  function Not<T>(f: T -> bool): T -> bool {
    (x: T) => !f(x)
  }

  /** The rows of s that satisfy f, in table order. */
  function Filter<T>(s: seq<T>, f: T -> bool): (r: seq<T>)
    ensures |r| <= |s|
    ensures forall k :: 0 <= k < |r| ==> f(r[k])
  {
    if s == [] then [] else (if f(s[0]) then [s[0]] else []) + Filter(s[1..], f)
  }

  lemma {:induction false} FilterMember<T>(s: seq<T>, f: T -> bool)
    ensures forall x :: x in Filter(s, f) <==> x in s && f(x)
  {
    if s != [] {
      FilterMember(s[1..], f);
      assert s == [s[0]] + s[1..];
    }
  }

  lemma {:induction false} FilterAppend<T>(a: seq<T>, b: seq<T>, f: T -> bool)
    ensures Filter(a + b, f) == Filter(a, f) + Filter(b, f)
  {
    if a != [] {
      var head := if f(a[0]) then [a[0]] else [];
      assert (a + b)[0] == a[0];
      assert (a + b)[1..] == a[1..] + b;
      FilterAppend(a[1..], b, f);
      calc {
        Filter(a + b, f);
        head + Filter(a[1..] + b, f);
        head + (Filter(a[1..], f) + Filter(b, f));
        (head + Filter(a[1..], f)) + Filter(b, f);
      }
    } else {
      assert a + b == b;
    }
  }

  lemma FilterOne<T>(x: T, f: T -> bool)
    ensures Filter([x], f) == if f(x) then [x] else []
  {
  }

  /** Filtering twice with the same predicate changes nothing more. */
  lemma {:induction false} FilterIdempotent<T>(s: seq<T>, f: T -> bool)
    ensures Filter(Filter(s, f), f) == Filter(s, f)
  {
    if s != [] {
      FilterIdempotent(s[1..], f);
      if f(s[0]) {
        FilterAppend([s[0]], Filter(s[1..], f), f);
        FilterOne(s[0], f);
      } else {
        assert Filter(s, f) == [] + Filter(s[1..], f) == Filter(s[1..], f);
      }
    }
  }

  /** A filter that keeps every row is the identity. */
  lemma {:induction false} FilterAll<T>(s: seq<T>, f: T -> bool)
    requires forall k :: 0 <= k < |s| ==> f(s[k])
    ensures Filter(s, f) == s
  {
    if s != [] {
      FilterAll(s[1..], f);
    }
  }

  /** Two complementary filters split a table: together they hold every row exactly once. */
  lemma {:induction false} FilterPartition<T>(s: seq<T>, f: T -> bool, g: T -> bool)
    requires forall k :: 0 <= k < |s| ==> g(s[k]) == !f(s[k])
    ensures multiset(Filter(s, f)) + multiset(Filter(s, g)) == multiset(s)
    ensures |Filter(s, f)| + |Filter(s, g)| == |s|
  {
    if s != [] {
      FilterPartition(s[1..], f, g);
      assert s == [s[0]] + s[1..];
    }
  }

  /** What a query selects plus what the matching delete leaves is the whole table. */
  lemma FilterSplit<T>(s: seq<T>, f: T -> bool)
    ensures multiset(Filter(s, f)) + multiset(Filter(s, Not(f))) == multiset(s)
    ensures |Filter(s, f)| + |Filter(s, Not(f))| == |s|
  {
    FilterPartition(s, f, Not(f));
  }

  /** The first row satisfying f (SQL `LIMIT 1`, Mongo `first()`), or None. */
  function FirstWhere<T>(s: seq<T>, f: T -> bool): (r: Option<T>)
    ensures r.Some? ==> r.value in s && f(r.value)
    ensures r.None? <==> forall k :: 0 <= k < |s| ==> !f(s[k])
  {
    if s == [] then None else if f(s[0]) then Some(s[0]) else FirstWhere(s[1..], f)
  }

  lemma {:induction false} FirstWhereAppend<T>(a: seq<T>, b: seq<T>, f: T -> bool)
    ensures FirstWhere(a + b, f) == if FirstWhere(a, f).Some? then FirstWhere(a, f) else FirstWhere(b, f)
  {
    if a != [] {
      assert (a + b)[0] == a[0];
      assert (a + b)[1..] == a[1..] + b;
      FirstWhereAppend(a[1..], b, f);
    } else {
      assert a + b == b;
    }
  }

  /** FirstWhere picks the first hit among the filtered rows. */
  lemma {:induction false} FirstWhereIsFilterHead<T>(s: seq<T>, f: T -> bool)
    ensures FirstWhere(s, f) == if Filter(s, f) == [] then None else Some(Filter(s, f)[0])
  {
    if s != [] {
      FirstWhereIsFilterHead(s[1..], f);
    }
  }

  /** s without its first row that satisfies f (Mongo `deleteOne`). */
  function RemoveFirst<T>(s: seq<T>, f: T -> bool): (r: seq<T>)
    ensures FirstWhere(s, f).None? ==> r == s
    ensures FirstWhere(s, f).Some? ==> |r| == |s| - 1
    ensures multiset(r) + (if FirstWhere(s, f).Some? then multiset{FirstWhere(s, f).value} else multiset{}) == multiset(s)
  {
    if s == [] then []
    else if f(s[0]) then
      assert s == [s[0]] + s[1..];
      s[1..]
    else
      assert s == [s[0]] + s[1..];
      [s[0]] + RemoveFirst(s[1..], f)
  }

  /** Deleting the first hit and deleting every hit agree exactly when there is at most one hit. */
  lemma {:induction false} RemoveFirstIsFilterWhenUnique<T>(s: seq<T>, f: T -> bool, g: T -> bool)
    requires forall k :: 0 <= k < |s| ==> g(s[k]) == !f(s[k])
    requires |Filter(s, f)| <= 1
    ensures RemoveFirst(s, f) == Filter(s, g)
  {
    if s != [] {
      if f(s[0]) {
        assert |Filter(s[1..], f)| == 0;
        FilterMember(s[1..], f);
        forall k | 0 <= k < |s[1..]| ensures g(s[1..][k]) {
          assert s[1..][k] in s[1..];
        }
        FilterAll(s[1..], g);
      } else {
        RemoveFirstIsFilterWhenUnique(s[1..], f, g);
      }
    }
  }

  /** deleteOne takes away only the first hit: the hits left are all the others. */
  lemma {:induction false} RemoveFirstHits<T>(s: seq<T>, f: T -> bool)
    ensures Filter(s, f) != [] ==> Filter(RemoveFirst(s, f), f) == Filter(s, f)[1..]
  {
    if s != [] && !f(s[0]) {
      RemoveFirstHits(s[1..], f);
      FilterAppend([s[0]], RemoveFirst(s[1..], f), f);
    }
  }

  lemma {:induction false} RemoveFirstKeepsAll<T>(s: seq<T>, f: T -> bool, p: T -> bool)
    requires forall k :: 0 <= k < |s| ==> p(s[k])
    ensures forall k :: 0 <= k < |RemoveFirst(s, f)| ==> p(RemoveFirst(s, f)[k])
  {
    if s != [] && !f(s[0]) {
      RemoveFirstKeepsAll(s[1..], f, p);
    }
  }

  lemma {:induction false} RemoveFirstKeysBelow<T>(s: seq<T>, key: T -> int, next: int, f: T -> bool)
    requires KeysBelow(s, key, next)
    ensures KeysBelow(RemoveFirst(s, f), key, next)
  {
    if s != [] {
      KeysBelowTail(s, key, next);
      if f(s[0]) {
        assert RemoveFirst(s, f) == s[1..];
      } else {
        var rest := RemoveFirst(s[1..], f);
        RemoveFirstKeysBelow(s[1..], key, next, f);
        RemoveFirstKeepsAll(s[1..], f, (y: T) => key(s[0]) < key(y));
        ConsKeysBelow(s[0], rest, key, next);
        assert RemoveFirst(s, f) == [s[0]] + rest;
      }
    }
  }

  lemma KeysBelowTail<T>(s: seq<T>, key: T -> int, next: int)
    requires s != [] && KeysBelow(s, key, next)
    ensures KeysBelow(s[1..], key, next) && 1 <= key(s[0]) < next
    ensures forall k :: 0 <= k < |s[1..]| ==> key(s[0]) < key(s[1..][k])
  {
    var t := s[1..];
    forall i, j | 0 <= i < j < |t| ensures key(t[i]) < key(t[j]) {
      assert t[i] == s[i + 1] && t[j] == s[j + 1];
    }
    forall k | 0 <= k < |t| ensures 1 <= key(t[k]) < next && key(s[0]) < key(t[k]) {
      assert t[k] == s[k + 1];
    }
  }

  lemma ConsKeysBelow<T>(x: T, rest: seq<T>, key: T -> int, next: int)
    requires KeysBelow(rest, key, next) && 1 <= key(x) < next
    requires forall k :: 0 <= k < |rest| ==> key(x) < key(rest[k])
    ensures KeysBelow([x] + rest, key, next)
  {
    var s := [x] + rest;
    forall i, j | 0 <= i < j < |s| ensures key(s[i]) < key(s[j]) {
      if i == 0 {
        assert s[j] == rest[j - 1];
      } else {
        assert s[i] == rest[i - 1] && s[j] == rest[j - 1];
      }
    }
  }

  function Map<T, U>(s: seq<T>, f: T -> U): (r: seq<U>)
    ensures |r| == |s| && forall k :: 0 <= k < |s| ==> r[k] == f(s[k])
  {
    if s == [] then [] else [f(s[0])] + Map(s[1..], f)
  }

  /** Filtering converted rows is converting the rows whose conversion passes. */
  lemma {:induction false} FilterMap<T, U>(s: seq<T>, g: T -> U, f: U -> bool, h: T -> bool)
    requires forall k :: 0 <= k < |s| ==> h(s[k]) == f(g(s[k]))
    ensures Filter(Map(s, g), f) == Map(Filter(s, h), g)
  {
    if s != [] {
      FilterMap(s[1..], g, f, h);
      assert Map(s, g)[1..] == Map(s[1..], g);
      if h(s[0]) {
        assert Filter(s, h) == [s[0]] + Filter(s[1..], h);
        assert Map([s[0]] + Filter(s[1..], h), g) == [g(s[0])] + Map(Filter(s[1..], h), g);
      }
    }
  }

  function MapOption<T, U>(o: Option<T>, g: T -> U): Option<U> {
    match o
    case Some(x) => Some(g(x))
    case None => None
  }

  /** The first converted row that passes is the conversion of the first row that does. */
  lemma {:induction false} FirstWhereMap<T, U>(s: seq<T>, g: T -> U, f: U -> bool, h: T -> bool)
    requires forall k :: 0 <= k < |s| ==> h(s[k]) == f(g(s[k]))
    ensures FirstWhere(Map(s, g), f) == MapOption(FirstWhere(s, h), g)
  {
    if s != [] {
      FirstWhereMap(s[1..], g, f, h);
      assert Map(s, g)[1..] == Map(s[1..], g);
    }
  }

  // ----- ORDER BY key DESC -----

  predicate SortedDesc<T>(s: seq<T>, key: T -> int) {
    forall i, j :: 0 <= i < j < |s| ==> key(s[i]) >= key(s[j])
  }

  /** Inserts x before the first row with a key not above x's. */
  function InsertDesc<T>(x: T, s: seq<T>, key: T -> int): (r: seq<T>)
    ensures |r| == |s| + 1
    ensures multiset(r) == multiset{x} + multiset(s)
  {
    if s == [] || key(x) >= key(s[0]) then [x] + s
    else
      assert s == [s[0]] + s[1..];
      [s[0]] + InsertDesc(x, s[1..], key)
  }

  /** Stable sort by key, largest first; rows with equal keys keep their table order. */
  function SortDesc<T>(s: seq<T>, key: T -> int): (r: seq<T>)
    ensures |r| == |s|
  {
    if s == [] then [] else InsertDesc(s[0], SortDesc(s[1..], key), key)
  }

  lemma {:induction false} InsertDescSorted<T>(x: T, s: seq<T>, key: T -> int)
    requires SortedDesc(s, key)
    ensures SortedDesc(InsertDesc(x, s, key), key)
  {
    if s != [] && key(x) < key(s[0]) {
      InsertDescSorted(x, s[1..], key);
      var t := InsertDesc(x, s[1..], key);
      assert multiset(t) == multiset{x} + multiset(s[1..]);
      forall k | 0 <= k < |t| ensures key(s[0]) >= key(t[k]) {
        assert t[k] in multiset(t);
        if t[k] != x {
          assert t[k] in multiset(s[1..]);
          assert t[k] in s[1..];
        }
      }
    }
  }

  /** ORDER BY key DESC yields rows in non-increasing key order ... */
  lemma {:induction false} SortDescSorted<T>(s: seq<T>, key: T -> int)
    ensures SortedDesc(SortDesc(s, key), key)
  {
    if s != [] {
      SortDescSorted(s[1..], key);
      InsertDescSorted(s[0], SortDesc(s[1..], key), key);
    }
  }

  /** ... and returns exactly the rows of the table. */
  lemma {:induction false} SortDescPermutation<T>(s: seq<T>, key: T -> int)
    ensures multiset(SortDesc(s, key)) == multiset(s)
  {
    if s != [] {
      SortDescPermutation(s[1..], key);
      assert s == [s[0]] + s[1..];
    }
  }

  /** x goes in front: the filtered table's first row has a key at most key(x) as well. */
  lemma FilterInsertDescFront<T>(x: T, s: seq<T>, key: T -> int, f: T -> bool)
    requires SortedDesc(s, key)
    requires s == [] || key(x) >= key(s[0])
    ensures Filter([x] + s, f) == if f(x) then InsertDesc(x, Filter(s, f), key) else Filter(s, f)
  {
    var fs := Filter(s, f);
    FilterAppend([x], s, f);
    FilterOne(x, f);
    forall k | 0 <= k < |s| ensures key(s[k]) <= key(x) {
      if k > 0 {
        assert key(s[0]) >= key(s[k]);
      }
    }
    FilterKeepsAll(s, f, (y: T) => key(y) <= key(x));
    assert fs == [] || key(x) >= key(fs[0]);
    assert InsertDesc(x, fs, key) == [x] + fs;
    if !f(x) {
      assert Filter([x] + s, f) == [] + fs;
    }
  }

  /** x goes behind s[0]: s[0] is kept or dropped whatever happens to x. */
  lemma FilterInsertDescBehind<T>(x: T, s: seq<T>, key: T -> int, f: T -> bool, t: seq<T>)
    requires s != [] && key(x) < key(s[0])
    requires Filter(t, f) == if f(x) then InsertDesc(x, Filter(s[1..], f), key) else Filter(s[1..], f)
    ensures Filter([s[0]] + t, f) == if f(x) then InsertDesc(x, Filter(s, f), key) else Filter(s, f)
  {
    var rest := Filter(s[1..], f);
    assert s == [s[0]] + s[1..];
    FilterAppend([s[0]], t, f);
    FilterAppend([s[0]], s[1..], f);
    FilterOne(s[0], f);
    if f(s[0]) {
      assert Filter(s, f) == [s[0]] + rest;
      if f(x) {
        assert ([s[0]] + rest)[0] == s[0] && ([s[0]] + rest)[1..] == rest;
        assert InsertDesc(x, [s[0]] + rest, key) == [s[0]] + InsertDesc(x, rest, key);
      }
    } else {
      assert Filter(s, f) == [] + rest == rest;
      assert Filter([s[0]] + t, f) == [] + Filter(t, f);
    }
  }

  lemma {:induction false} FilterInsertDesc<T>(x: T, s: seq<T>, key: T -> int, f: T -> bool)
    requires SortedDesc(s, key)
    ensures Filter(InsertDesc(x, s, key), f) ==
            if f(x) then InsertDesc(x, Filter(s, f), key) else Filter(s, f)
  {
    if s == [] || key(x) >= key(s[0]) {
      FilterInsertDescFront(x, s, key, f);
    } else {
      FilterInsertDesc(x, s[1..], key, f);
      FilterInsertDescBehind(x, s, key, f, InsertDesc(x, s[1..], key));
    }
  }

  /** Filtering a sorted table equals sorting the filtered table: `WHERE ... ORDER BY` and
      `ORDER BY` followed by a filter give the same rows in the same order. */
  lemma {:induction false} FilterSortDescCommute<T>(s: seq<T>, key: T -> int, f: T -> bool)
    ensures Filter(SortDesc(s, key), f) == SortDesc(Filter(s, f), key)
  {
    if s != [] {
      var sorted := SortDesc(s[1..], key);
      var rest := Filter(s[1..], f);
      FilterSortDescCommute(s[1..], key, f);
      SortDescSorted(s[1..], key);
      FilterInsertDesc(s[0], sorted, key, f);
      assert Filter(sorted, f) == SortDesc(rest, key);
      if f(s[0]) {
        assert Filter(s, f) == [s[0]] + rest;
        assert ([s[0]] + rest)[0] == s[0] && ([s[0]] + rest)[1..] == rest;
        assert SortDesc(Filter(s, f), key) == InsertDesc(s[0], SortDesc(rest, key), key);
      } else {
        assert Filter(s, f) == [] + rest == rest;
      }
    }
  }

  // ----- LIMIT / OFFSET -----

  function Min(a: int, b: int): int { if a <= b then a else b }

  /** SQL `LIMIT limit OFFSET offset`: skip offset rows, then take at most limit rows. */
  function Page<T>(s: seq<T>, limit: nat, offset: nat): (r: seq<T>)
    ensures |r| <= limit
    ensures |r| == Min(limit, |s| - Min(offset, |s|))
    ensures forall k :: 0 <= k < |r| ==> r[k] == s[offset + k]
  {
    s[Min(offset, |s|)..Min(offset + limit, |s|)]
  }

  /** A page is a contiguous run of the rows: it keeps their order and takes each row at
      most once. */
  lemma PageIsSlice<T>(s: seq<T>, limit: nat, offset: nat, key: T -> int)
    ensures SortedDesc(s, key) ==> SortedDesc(Page(s, limit, offset), key)
    ensures multiset(Page(s, limit, offset)) <= multiset(s)
  {
    var lo, hi := Min(offset, |s|), Min(offset + limit, |s|);
    assert s == s[..lo] + s[lo..hi] + s[hi..];
  }

  lemma PageAll<T>(s: seq<T>, limit: nat)
    requires |s| <= limit
    ensures Page(s, limit, 0) == s
  {
  }

  /** Mongo `skip(offset).limit(limit)`: as Page, except that a limit of 0 means no limit. */
  function SkipLimit<T>(s: seq<T>, limit: nat, offset: nat): (r: seq<T>)
    ensures limit > 0 ==> r == Page(s, limit, offset)
    ensures limit == 0 ==> r == s[Min(offset, |s|)..]
  {
    if limit == 0 then s[Min(offset, |s|)..] else Page(s, limit, offset)
  }

  /** A limit at or beyond the number of rows cuts nothing. */
  lemma PageWhole<T>(s: seq<T>, limit: nat, offset: nat)
    ensures |s| <= limit ==> Page(s, limit, offset) == s[Min(offset, |s|)..]
  {
  }

  /** Converting the rows of a page is paging the converted rows. */
  lemma MapPage<T, U>(s: seq<T>, g: T -> U, limit: nat, offset: nat)
    ensures Map(Page(s, limit, offset), g) == Page(Map(s, g), limit, offset)
  {
  }

  /** `ORDER BY key DESC LIMIT limit`: xs holds `limit` of the rows of s (all of them when
      there are fewer), largest key first, and no row left out has a larger key than a row
      listed. */
  ghost predicate TopRows<T>(xs: seq<T>, s: seq<T>, limit: nat, key: T -> int) {
    && |xs| == Min(limit, |s|)
    && SortedDesc(xs, key)
    && multiset(xs) <= multiset(s)
    && forall y, k :: y in multiset(s) - multiset(xs) && 0 <= k < |xs| ==> key(y) <= key(xs[k])
  }

  /** The first page of the sorted rows holds the rows with the largest keys. */
  lemma TopPage<T>(s: seq<T>, limit: nat, key: T -> int)
    ensures TopRows(Page(SortDesc(s, key), limit, 0), s, limit, key)
  {
    var sorted := SortDesc(s, key);
    SortDescSorted(s, key);
    SortDescPermutation(s, key);
    var m := Min(limit, |s|);
    var xs := Page(sorted, limit, 0);
    assert xs == sorted[..m];
    assert sorted == xs + sorted[m..];
    assert multiset(s) - multiset(xs) == multiset(sorted[m..]);
    PageIsSlice(sorted, limit, 0, key);
    forall y, k | y in multiset(s) - multiset(xs) && 0 <= k < |xs| ensures key(y) <= key(xs[k]) {
      assert y in sorted[m..];
      var j :| 0 <= j < |sorted[m..]| && sorted[m..][j] == y;
      assert sorted[m + j] == y && xs[k] == sorted[k];
    }
  }

  /** Converting rows whose conversion keeps the sort key commutes with inserting in order. */
  lemma {:induction false} MapInsertDesc<T, U>(x: T, s: seq<T>, g: T -> U, key: T -> int, mappedKey: U -> int)
    requires forall y :: mappedKey(g(y)) == key(y)
    ensures Map(InsertDesc(x, s, key), g) == InsertDesc(g(x), Map(s, g), mappedKey)
  {
    var ms := Map(s, g);
    if s == [] || key(x) >= key(s[0]) {
      assert ms == [] || mappedKey(g(x)) >= mappedKey(ms[0]);
      assert Map([x] + s, g) == [g(x)] + ms;
    } else {
      MapInsertDesc(x, s[1..], g, key, mappedKey);
      assert ms[1..] == Map(s[1..], g);
      assert Map([s[0]] + InsertDesc(x, s[1..], key), g) == [g(s[0])] + Map(InsertDesc(x, s[1..], key), g);
    }
  }

  /** ... and so with the sort itself: ORDER BY before or after the conversion gives the same
      converted rows in the same order. */
  lemma {:induction false} MapSortDesc<T, U>(s: seq<T>, g: T -> U, key: T -> int, mappedKey: U -> int)
    requires forall y :: mappedKey(g(y)) == key(y)
    ensures Map(SortDesc(s, key), g) == SortDesc(Map(s, g), mappedKey)
  {
    if s != [] {
      var ms := Map(s, g);
      MapSortDesc(s[1..], g, key, mappedKey);
      MapInsertDesc(s[0], SortDesc(s[1..], key), g, key, mappedKey);
      assert ms[0] == g(s[0]) && ms[1..] == Map(s[1..], g);
    }
  }

  // ----- key bounds -----

  /** Keys strictly increase along the table and lie in [1, next); `next` is the key the next
      insertion receives. */
  predicate KeysBelow<T>(s: seq<T>, key: T -> int, next: int) {
    && next >= 1
    && (forall i, j :: 0 <= i < j < |s| ==> key(s[i]) < key(s[j]))
    && (forall k :: 0 <= k < |s| ==> 1 <= key(s[k]) < next)
  }

  /** A property of every row is a property of every kept row. */
  lemma {:induction false} FilterKeepsAll<T>(s: seq<T>, f: T -> bool, p: T -> bool)
    requires forall k :: 0 <= k < |s| ==> p(s[k])
    ensures forall k :: 0 <= k < |Filter(s, f)| ==> p(Filter(s, f)[k])
  {
    if s != [] {
      FilterKeepsAll(s[1..], f, p);
    }
  }

  lemma {:induction false} FilterKeysBelow<T>(s: seq<T>, key: T -> int, next: int, f: T -> bool)
    requires KeysBelow(s, key, next)
    ensures KeysBelow(Filter(s, f), key, next)
  {
    FilterKeepsAll(s, f, (y: T) => 1 <= key(y) < next);
    if s != [] {
      FilterKeysBelow(s[1..], key, next, f);
      FilterKeepsAll(s[1..], f, (y: T) => key(s[0]) < key(y));
    }
  }

  lemma KeysBelowGrow<T>(s: seq<T>, key: T -> int, next: int)
    requires KeysBelow(s, key, next)
    ensures KeysBelow(s, key, next + 1)
  {
  }

  lemma AppendKeysBelow<T>(s: seq<T>, key: T -> int, next: int, x: T)
    requires KeysBelow(s, key, next) && key(x) == next
    ensures KeysBelow(s + [x], key, next + 1)
  {
  }
}
