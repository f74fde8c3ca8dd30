/**
 * A bolt bucket seen abstractly: a finite map from key to value whose
 * cursor visits the keys in byte order. This module gives that visiting
 * order, the pagination the query applies to it and the key range the
 * expiry sweep selects from it.
 */
module Ordered {
  import opened ByteOrder

  type Bucket = map<Bytes, Bytes>

  /** One row of a query result: the raw key (the time) and its value. */
  datatype Entry = Entry(key: Bytes, value: Bytes)

  ghost predicate Ascending(s: seq<Bytes>) {
    forall i, j :: 0 <= i < j < |s| ==> Less(s[i], s[j])
  }

  ghost predicate Descending(s: seq<Bytes>) {
    forall i, j :: 0 <= i < j < |s| ==> Less(s[j], s[i])
  }

  ghost predicate KeysAscending(es: seq<Entry>) {
    forall i, j :: 0 <= i < j < |es| ==> Less(es[i].key, es[j].key)
  }

  ghost predicate KeysDescending(es: seq<Entry>) {
    forall i, j :: 0 <= i < j < |es| ==> Less(es[j].key, es[i].key)
  }

  predicate IsLeast(m: Bytes, ks: set<Bytes>) {
    m in ks && forall k :: k in ks ==> LessEq(m, k)
  }

  lemma {:induction false} LeastExists(ks: set<Bytes>)
    requires ks != {}
    ensures exists m :: IsLeast(m, ks)
  {
    var x :| x in ks;
    if ks == {x} {
      assert IsLeast(x, ks);
    } else {
      LeastExists(ks - {x});
      var m :| IsLeast(m, ks - {x});
      if LessEq(x, m) {
        forall k | k in ks
          ensures LessEq(x, k)
        {
          if k != x {
            CompareTransitive(x, m, k);
          }
        }
        assert IsLeast(x, ks);
      } else {
        NotLessEq(x, m);
        assert IsLeast(m, ks);
      }
    }
  }

  lemma LeastUnique(ks: set<Bytes>)
    ensures forall m, m' :: IsLeast(m, ks) && IsLeast(m', ks) ==> m == m'
  {
    forall m, m' | IsLeast(m, ks) && IsLeast(m', ks)
      ensures m == m'
    {
      CompareFlip(m, m');
    }
  }

  /** The smallest key of a non-empty key set: where a cursor's First lands. */
  function Least(ks: set<Bytes>): (m: Bytes)
    requires ks != {}
    ensures m in ks && forall k :: k in ks ==> LessEq(m, k)
  {
    LeastExists(ks);
    LeastUnique(ks);
    var m :| IsLeast(m, ks);
    m
  }

  /** The keys of a bucket in the order First/Next visits them: the least key, then the rest. */
  function SortedKeys(ks: set<Bytes>): (r: seq<Bytes>)
    ensures forall k :: k in r <==> k in ks
    ensures |r| == |ks|
    decreases |ks|
  {
    if ks == {} then []
    else
      var m := Least(ks);
      [m] + SortedKeys(ks - {m})
  }

  /** First/Next visits the keys in strictly ascending order. */
  lemma {:induction false} SortedKeysAscending(ks: set<Bytes>)
    ensures Ascending(SortedKeys(ks))
    decreases |ks|
  {
    if ks != {} {
      var m := Least(ks);
      var rest := SortedKeys(ks - {m});
      SortedKeysAscending(ks - {m});
      assert SortedKeys(ks) == [m] + rest;
      forall k | k in rest
        ensures Less(m, k)
      {
        assert k != m && LessEq(m, k);
      }
    }
  }

  function Reverse<T>(s: seq<T>): (r: seq<T>)
    ensures |r| == |s|
    ensures forall i :: 0 <= i < |s| ==> r[i] == s[|s| - 1 - i]
  {
    if s == [] then [] else Reverse(s[1..]) + [s[0]]
  }

  /**
   * The keys in the order the query's cursor walks them: First/Next
   * when `asc`, otherwise Last/Prev. Every key of the bucket is visited
   * exactly once.
   */
  function WalkKeys(b: Bucket, asc: bool): (ks: seq<Bytes>)
    ensures forall k :: k in ks <==> k in b
    ensures |ks| == |b|
  {
    var up := SortedKeys(b.Keys);
    if asc then up
    else
      ReverseMembers(up);
      Reverse(up)
  }

  /** Reversing keeps the elements. */
  lemma ReverseMembers(s: seq<Bytes>)
    ensures forall x :: x in Reverse(s) <==> x in s
  {
    var r := Reverse(s);
    forall x | x in s
      ensures x in r
    {
      var i :| 0 <= i < |s| && s[i] == x;
      assert r[|s| - 1 - i] == x;
    }
    forall x | x in r
      ensures x in s
    {
      var i :| 0 <= i < |r| && r[i] == x;
      assert s[|s| - 1 - i] == x;
    }
  }

  /** The walk is strictly ascending for "asc" (First/Next) and strictly descending otherwise (Last/Prev). */
  lemma WalkKeysOrdered(b: Bucket, asc: bool)
    ensures asc ==> Ascending(WalkKeys(b, asc))
    ensures !asc ==> Descending(WalkKeys(b, asc))
  {
    SortedKeysAscending(b.Keys);
    if !asc {
      ReverseDescends(SortedKeys(b.Keys));
    }
  }

  /** Reversing an ascending walk gives a descending one. */
  lemma ReverseDescends(up: seq<Bytes>)
    requires Ascending(up)
    ensures Descending(Reverse(up))
  {
    var down := Reverse(up);
    forall i, j | 0 <= i < j < |down|
      ensures Less(down[j], down[i])
    {
      var n := |up| - 1;
      assert down[j] == up[n - j] && down[i] == up[n - i];
    }
  }

  /** Every entry of the bucket as the cursor yields it, key and value. */
  function Listing(b: Bucket, asc: bool): (es: seq<Entry>)
    ensures |es| == |b|
    ensures forall i :: 0 <= i < |es| ==> es[i].key == WalkKeys(b, asc)[i]
    ensures forall i :: 0 <= i < |es| ==> es[i].key in b && es[i].value == b[es[i].key]
  {
    var ks := WalkKeys(b, asc);
    var es := Rows(b, ks);
    assert forall i :: 0 <= i < |es| ==> es[i] == Entry(ks[i], b[ks[i]]);
    es
  }

  /** Each key of `ks` paired with its value in `b`. */
  function Rows(b: Bucket, ks: seq<Bytes>): (es: seq<Entry>)
    requires forall k :: k in ks ==> k in b
    ensures |es| == |ks|
    ensures forall i :: 0 <= i < |ks| ==> es[i] == Entry(ks[i], b[ks[i]])
  {
    seq(|ks|, i requires 0 <= i < |ks| => Entry(ks[i], b[ks[i]]))
  }

  lemma RowsReversed(b: Bucket, ks: seq<Bytes>)
    requires forall k :: k in ks ==> k in b
    ensures Rows(b, Reverse(ks)) == Reverse(Rows(b, ks))
  {
    var rk := Reverse(ks);
    assert forall k :: k in rk ==> k in b by {
      forall k | k in rk ensures k in b {
        var i :| 0 <= i < |rk| && rk[i] == k;
        assert ks[|ks| - 1 - i] == k;
      }
    }
  }

  /**
   * The query's paging: drop the first `offset` entries (none when
   * `offset <= 0`), then keep at most `limit` (all when `limit <= 0`).
   */
  function Page<T>(s: seq<T>, limit: int, offset: int): (p: seq<T>)
    ensures |p| <= |s| && (limit > 0 ==> |p| <= limit)
    ensures offset <= 0 && limit <= 0 ==> p == s
    ensures offset >= |s| ==> p == []
  {
    var rest := if offset <= 0 then s else if offset < |s| then s[offset..] else [];
    if 0 < limit < |rest| then rest[..limit] else rest
  }

  /** Index of the first key at or above `target` in a walk: what a cursor's Seek returns. */
  function Seek(ks: seq<Bytes>, target: Bytes): (i: nat)
    ensures i <= |ks|
    ensures forall j :: 0 <= j < i ==> Less(ks[j], target)
    ensures i < |ks| ==> LessEq(target, ks[i])
  {
    if ks == [] then 0
    else if LessEq(target, ks[0]) then 0
    else
      NotLessEq(target, ks[0]);
      1 + Seek(ks[1..], target)
  }

  predicate InRange(k: Bytes, lo: Bytes, hi: Bytes) {
    LessEq(lo, k) && LessEq(k, hi)
  }

  /** The keys of a walk that lie in [lo, hi], in walk order. */
  function KeysInRange(ks: seq<Bytes>, lo: Bytes, hi: Bytes): (r: seq<Bytes>)
  {
    if ks == [] then []
    else (if InRange(ks[0], lo, hi) then [ks[0]] else []) + KeysInRange(ks[1..], lo, hi)
  }

  // ---------------------------------------------------------------------
  // Properties of the walk, the paging and the range selection
  // ---------------------------------------------------------------------

  /** The listing holds exactly the bucket's pairs, each key once. */
  lemma ListingHoldsBucket(b: Bucket, asc: bool, k: Bytes, v: Bytes)
    ensures Entry(k, v) in Listing(b, asc) <==> k in b && b[k] == v
  {
    var es, ks := Listing(b, asc), WalkKeys(b, asc);
    if k in b && b[k] == v {
      var i :| 0 <= i < |ks| && ks[i] == k;
      assert es[i] == Entry(k, v);
    }
  }

  /** A listing has strictly monotone keys, so no key appears twice. */
  lemma ListingOrdered(b: Bucket, asc: bool)
    ensures asc ==> KeysAscending(Listing(b, asc))
    ensures !asc ==> KeysDescending(Listing(b, asc))
  {
    WalkKeysOrdered(b, asc);
  }

  /** The descending walk is the ascending walk backwards. */
  lemma DescendingIsReversed(b: Bucket)
    ensures Listing(b, false) == Reverse(Listing(b, true))
  {
    var ku := WalkKeys(b, true);
    assert WalkKeys(b, false) == Reverse(ku);
    RowsReversed(b, ku);
  }

  /**
   * Paging is a window on the full listing: with `offset` clamped to
   * [0, |s|], the page is s[offset .. offset + limit], or s[offset ..]
   * when `limit <= 0`, cut off at the end of s.
   */
  lemma PageIsWindow<T>(s: seq<T>, limit: int, offset: int)
    ensures var lo := if offset <= 0 then 0 else if offset < |s| then offset else |s|;
            var hi := if limit <= 0 || lo + limit > |s| then |s| else lo + limit;
            Page(s, limit, offset) == s[lo..hi]
  {
  }

  /** A page holds only entries of what it pages and keeps their order. */
  lemma PagePreservesOrder(s: seq<Entry>, limit: int, offset: int)
    ensures forall e :: e in Page(s, limit, offset) ==> e in s
    ensures KeysAscending(s) ==> KeysAscending(Page(s, limit, offset))
    ensures KeysDescending(s) ==> KeysDescending(Page(s, limit, offset))
  {
    var lo := if offset <= 0 then 0 else if offset < |s| then offset else |s|;
    var hi := if limit <= 0 || lo + limit > |s| then |s| else lo + limit;
    PageIsWindow(s, limit, offset);
    SliceKeepsOrder(s, lo, hi);
  }

  /** A contiguous slice of a listing keeps its rows and their direction. */
  lemma SliceKeepsOrder(s: seq<Entry>, lo: nat, hi: nat)
    requires lo <= hi <= |s|
    ensures forall e :: e in s[lo..hi] ==> e in s
    ensures KeysAscending(s) ==> KeysAscending(s[lo..hi])
    ensures KeysDescending(s) ==> KeysDescending(s[lo..hi])
  {
    var p := s[lo..hi];
    assert forall i :: 0 <= i < |p| ==> p[i] == s[lo + i];
  }

  /** An unlimited, unskipped page is the whole listing: one row per key. */
  lemma FullPageHasEveryKey(b: Bucket, asc: bool, limit: int, offset: int)
    requires limit <= 0 && offset <= 0
    ensures |Page(Listing(b, asc), limit, offset)| == |b|
  {
  }

  /** The range selection keeps exactly the walk's keys in [lo, hi]. */
  lemma {:induction false} KeysInRangeMembers(ks: seq<Bytes>, lo: Bytes, hi: Bytes, k: Bytes)
    ensures k in KeysInRange(ks, lo, hi) <==> k in ks && InRange(k, lo, hi)
  {
    if ks != [] {
      KeysInRangeMembers(ks[1..], lo, hi, k);
      assert k in ks <==> k == ks[0] || k in ks[1..];
    }
  }

  /** The range selection is a subsequence, so it keeps an ascending walk ascending. */
  lemma {:induction false} KeysInRangeAscending(ks: seq<Bytes>, lo: Bytes, hi: Bytes)
    requires Ascending(ks)
    ensures Ascending(KeysInRange(ks, lo, hi))
  {
    if ks != [] {
      KeysInRangeAscending(ks[1..], lo, hi);
      var rest := KeysInRange(ks[1..], lo, hi);
      forall k | k in rest
        ensures Less(ks[0], k)
      {
        KeysInRangeMembers(ks[1..], lo, hi, k);
      }
    }
  }

  /**
   * In an ascending walk, the keys from the first one at or above `lo`
   * up to the first one above `hi` are exactly the keys in [lo, hi]:
   * what a Seek to `lo` followed by Next while at most `hi` collects.
   */
  lemma SeekWindow(ks: seq<Bytes>, lo: Bytes, hi: Bytes, start: nat, stop: nat)
    requires Ascending(ks) && start <= stop <= |ks|
    requires forall x :: 0 <= x < start ==> Less(ks[x], lo)
    requires start < |ks| ==> LessEq(lo, ks[start])
    requires forall x :: start <= x < stop ==> LessEq(ks[x], hi)
    requires stop < |ks| ==> Less(hi, ks[stop])
    ensures KeysInRange(ks, lo, hi) == ks[start..stop]
  {
    forall x | 0 <= x < start
      ensures !InRange(ks[x], lo, hi)
    {
      NotLessEq(lo, ks[x]);
    }
    forall x | start <= x < stop
      ensures InRange(ks[x], lo, hi)
    {
      if x > start {
        CompareTransitive(lo, ks[start], ks[x]);
      }
    }
    forall x | stop <= x < |ks|
      ensures !InRange(ks[x], lo, hi)
    {
      if x > stop {
        CompareTransitive(hi, ks[stop], ks[x]);
      }
      NotLessEq(ks[x], hi);
    }
    KeysInRangeOfRuns(ks, lo, hi, start, stop);
  }

  /**
   * When a walk falls into three runs, keys outside [lo, hi], keys
   * inside, keys outside again, the selection is the middle run.
   */
  lemma {:induction false} KeysInRangeOfRuns(ks: seq<Bytes>, lo: Bytes, hi: Bytes, s: nat, e: nat)
    requires s <= e <= |ks|
    requires forall j :: 0 <= j < s ==> !InRange(ks[j], lo, hi)
    requires forall j :: s <= j < e ==> InRange(ks[j], lo, hi)
    requires forall j :: e <= j < |ks| ==> !InRange(ks[j], lo, hi)
    ensures KeysInRange(ks, lo, hi) == ks[s..e]
  {
    if ks != [] {
      var t := ks[1..];
      assert forall j :: 0 <= j < |t| ==> t[j] == ks[j + 1];
      if s > 0 {
        assert !InRange(ks[0], lo, hi);
        KeysInRangeOfRuns(t, lo, hi, s - 1, e - 1);
        assert ks[s..e] == t[s - 1..e - 1];
      } else if e > 0 {
        assert InRange(ks[0], lo, hi);
        KeysInRangeOfRuns(t, lo, hi, 0, e - 1);
        assert ks[s..e] == [ks[0]] + t[..e - 1];
      } else {
        assert !InRange(ks[0], lo, hi);
        KeysInRangeOfRuns(t, lo, hi, 0, 0);
      }
    }
  }
}
