/**
 * The TTL registry and the expiry sweep's selection, as functions of the
 * buckets. The registry is the ordinary bucket named "_TTL_SERIES"; it
 * maps a series name to the TTL text given with the series' first write.
 * A sweep tick picks, for every other series with a positive effective
 * TTL, the keys k with "1" <= k <= FormatInt(now - ttl) in byte order.
 */
module Expiry {
  import opened ByteOrder
  import opened Decimal
  import opened Ordered
  import opened Wrappers

  /** TTL_SERIES_META, "_TTL_SERIES". Nothing keeps user series from using this name. */
  const TtlSeriesMeta: Bytes := [95, 84, 84, 76, 95, 83, 69, 82, 73, 69, 83]

  /** The sweep's fixed lower bound, "1". */
  const SweepFloor: Bytes := [OneDigit]

  /** The whole store: bucket name to bucket. */
  type Buckets = map<Bytes, Bucket>

  /**
   * time.ParseDuration, called but not modelled: the duration in
   * nanoseconds, or None when the text is not a Go duration.
   */
  type DurationParser = Bytes -> Option<int>

  /** What a sweep tick works from: the clock, the parser and the -expire default. */
  datatype SweepContext = SweepContext(now: int, parse: DurationParser, defaultExpire: int)

  /** One call of expireKeys: a series and the keys to delete from it. */
  datatype Batch = Batch(series: Bytes, keys: seq<Bytes>)

  /**
   * `ttl, _ := time.ParseDuration(string(bttl.Get(series)))`: the parsed
   * registry entry, 0 when the entry is missing (Go parses "" and fails)
   * or does not parse.
   */
  function StoredTtl(bs: Buckets, series: Bytes, parse: DurationParser): (d: int)
    requires TtlSeriesMeta in bs
    ensures series !in bs[TtlSeriesMeta] ==> d == 0
    ensures series in bs[TtlSeriesMeta] && parse(bs[TtlSeriesMeta][series]).None? ==> d == 0
    ensures forall v :: series in bs[TtlSeriesMeta] && parse(bs[TtlSeriesMeta][series]) == Some(v) ==> d == v
    ensures d != 0 ==> series in bs[TtlSeriesMeta] && parse(bs[TtlSeriesMeta][series]) == Some(d)
  {
    var registry := bs[TtlSeriesMeta];
    if series !in registry then 0
    else match parse(registry[series])
      case Some(d) => d
      case None => 0
  }

  /** A positive stored TTL, else a positive default, else no expiry at all. */
  function EffectiveTtl(stored: int, defaultExpire: int): (t: Option<int>)
    ensures t.Some? ==> t.value > 0
  {
    if stored > 0 then Some(stored)
    else if defaultExpire > 0 then Some(defaultExpire)
    else None
  }

  /** The upper bound of the sweep for one series, expiretime; None when the series is skipped. */
  function Cutoff(bs: Buckets, series: Bytes, cx: SweepContext): (r: Option<Bytes>)
    requires TtlSeriesMeta in bs
    ensures r.Some? <==> series != TtlSeriesMeta && (StoredTtl(bs, series, cx.parse) > 0 || cx.defaultExpire > 0)
  {
    if series == TtlSeriesMeta then None
    else match EffectiveTtl(StoredTtl(bs, series, cx.parse), cx.defaultExpire)
      case Some(ttl) => Some(FormatInt(cx.now - ttl))
      case None => None
  }

  /** The keys of a bucket the sweep walk collects: ascending, from "1" up to `max`. */
  function SweepKeys(b: Bucket, max: Bytes): (r: seq<Bytes>)
    ensures forall k :: k in r ==> k in b && InRange(k, SweepFloor, max)
  {
    var ks := SortedKeys(b.Keys);
    forall k | k in KeysInRange(ks, SweepFloor, max)
      ensures k in b && InRange(k, SweepFloor, max)
    {
      KeysInRangeMembers(ks, SweepFloor, max, k);
    }
    KeysInRange(ks, SweepFloor, max)
  }

  /** The batch a tick hands to expireKeys for one series: none when nothing is selected. */
  function BatchFor(bs: Buckets, series: Bytes, cx: SweepContext): (r: seq<Batch>)
    requires TtlSeriesMeta in bs && series in bs
    ensures |r| <= 1
    ensures forall j :: 0 <= j < |r| ==> r[j].series == series && r[j].keys != []
    ensures series == TtlSeriesMeta ==> r == []
  {
    match Cutoff(bs, series, cx)
    case None => []
    case Some(max) =>
      var keys := SweepKeys(bs[series], max);
      if keys == [] then [] else [Batch(series, keys)]
  }

  /** The batches for a run of bucket names, in that order. */
  function PlanOver(bs: Buckets, names: seq<Bytes>, cx: SweepContext): (r: seq<Batch>)
    requires TtlSeriesMeta in bs
    requires forall n :: n in names ==> n in bs
    ensures |r| <= |names|
    ensures forall j :: 0 <= j < |r| ==> r[j].series in names && r[j].series != TtlSeriesMeta && r[j].keys != []
  {
    if names == [] then []
    else PlanOver(bs, names[..|names| - 1], cx) + BatchFor(bs, names[|names| - 1], cx)
  }

  /**
   * One tick's selection over every bucket in tx.ForEach order. Without
   * a registry bucket the first series reaches `bttl.Get` on a nil
   * bucket, which panics; only an empty store gets through.
   */
  function Selection(bs: Buckets, cx: SweepContext): (r: Result<seq<Batch>, Error>)
    ensures r.Err? <==> TtlSeriesMeta !in bs && bs != map[]
    ensures r.Err? ==> r.error == TtlRegistryGone
    ensures r.Ok? ==> forall j :: 0 <= j < |r.value| ==> r.value[j].series in bs && r.value[j].series != TtlSeriesMeta
  {
    if TtlSeriesMeta !in bs then (if bs == map[] then Ok([]) else Err(TtlRegistryGone))
    else
      var names := SortedKeys(bs.Keys);
      var plan := PlanOver(bs, names, cx);
      assert forall j :: 0 <= j < |plan| ==> plan[j].series in names;
      Ok(plan)
  }

  /** expirecounter: the number of keys selected. */
  function KeyCount(plan: seq<Batch>): (n: nat)
    ensures n == 0 <==> forall j :: 0 <= j < |plan| ==> plan[j].keys == []
    ensures forall j :: 0 <= j < |plan| ==> |plan[j].keys| <= n
  {
    if plan == [] then 0 else |plan[0].keys| + KeyCount(plan[1..])
  }

  /** A series with no positive TTL of its own and no positive default keeps every key. */
  lemma NoTtlNoExpiry(bs: Buckets, series: Bytes, cx: SweepContext)
    requires TtlSeriesMeta in bs && series in bs
    requires StoredTtl(bs, series, cx.parse) <= 0 && cx.defaultExpire <= 0
    ensures Swept(bs, cx)[series] == bs[series]
  {
    assert ExpiredKeys(bs, series, cx) == {};
  }

  /** The sweep never deletes from the registry bucket itself. */
  lemma SweepSparesRegistry(bs: Buckets, cx: SweepContext)
    requires TtlSeriesMeta in bs
    ensures Swept(bs, cx)[TtlSeriesMeta] == bs[TtlSeriesMeta]
  {
    assert ExpiredKeys(bs, TtlSeriesMeta, cx) == {};
  }

  /** A sweep only deletes: every surviving key keeps its value, and no key appears. */
  lemma SweepOnlyDeletes(bs: Buckets, cx: SweepContext, series: Bytes, k: Bytes)
    requires TtlSeriesMeta in bs && series in bs
    ensures k in Swept(bs, cx)[series] <==> k in bs[series] && k !in ExpiredKeys(bs, series, cx)
    ensures k in Swept(bs, cx)[series] ==> Swept(bs, cx)[series][k] == bs[series][k]
  {
  }

  /** Extending the run of names by one adds that name's batch at the end. */
  lemma PlanOverStep(bs: Buckets, names: seq<Bytes>, i: nat, cx: SweepContext)
    requires TtlSeriesMeta in bs
    requires forall n :: n in names ==> n in bs
    requires i < |names|
    ensures PlanOver(bs, names[..i + 1], cx) == PlanOver(bs, names[..i], cx) + BatchFor(bs, names[i], cx)
  {
    assert names[..i + 1][..i] == names[..i];
  }

  /** Counting one more batch adds its keys. */
  lemma {:induction false} KeyCountStep(plan: seq<Batch>, b: Batch)
    ensures KeyCount(plan + [b]) == KeyCount(plan) + |b.keys|
  {
    if plan != [] {
      assert (plan + [b])[1..] == plan[1..] + [b];
      KeyCountStep(plan[1..], b);
    }
  }

  /** The keys of `series` a tick deletes, as a set: the reference for the walk. */
  ghost function ExpiredKeys(bs: Buckets, series: Bytes, cx: SweepContext): set<Bytes>
    requires TtlSeriesMeta in bs
  {
    if series !in bs then {}
    else match Cutoff(bs, series, cx)
      case None => {}
      case Some(max) => set k | k in bs[series] && InRange(k, SweepFloor, max)
  }

  /** The store after a tick: every bucket minus its expired keys. */
  ghost function Swept(bs: Buckets, cx: SweepContext): (r: Buckets)
    requires TtlSeriesMeta in bs
    ensures r.Keys == bs.Keys
  {
    map s | s in bs :: bs[s] - ExpiredKeys(bs, s, cx)
  }

  /** A batch that deletes exactly the expired keys of its series, in ascending order. */
  ghost predicate BatchExact(bs: Buckets, b: Batch, cx: SweepContext)
    requires TtlSeriesMeta in bs
  {
    && b.series in bs
    && b.series != TtlSeriesMeta
    && b.keys != []
    && Ascending(b.keys)
    && forall k :: k in b.keys <==> k in ExpiredKeys(bs, b.series, cx)
  }

  // ---------------------------------------------------------------------
  // What the selection picks
  // ---------------------------------------------------------------------

  /** The walk collects exactly the expired keys, in ascending order. */
  lemma SweepKeysExact(bs: Buckets, series: Bytes, cx: SweepContext, max: Bytes)
    requires TtlSeriesMeta in bs && series in bs
    requires Cutoff(bs, series, cx) == Some(max)
    ensures Ascending(SweepKeys(bs[series], max))
    ensures forall k :: k in SweepKeys(bs[series], max) <==> k in ExpiredKeys(bs, series, cx)
  {
    var b := bs[series];
    SortedKeysAscending(b.Keys);
    KeysInRangeAscending(SortedKeys(b.Keys), SweepFloor, max);
    forall k
      ensures k in SweepKeys(b, max) <==> k in ExpiredKeys(bs, series, cx)
    {
      KeysInRangeMembers(SortedKeys(b.Keys), SweepFloor, max, k);
    }
  }

  /**
   * How a series' TTL is chosen: the registry bucket itself is never
   * swept; a positive stored TTL sets the cutoff; otherwise a positive
   * default does; otherwise nothing of the series is selected.
   */
  lemma EffectiveTtlChoice(bs: Buckets, series: Bytes, cx: SweepContext)
    requires TtlSeriesMeta in bs
    ensures series == TtlSeriesMeta ==> ExpiredKeys(bs, series, cx) == {}
    ensures series != TtlSeriesMeta && StoredTtl(bs, series, cx.parse) > 0 ==>
      Cutoff(bs, series, cx) == Some(FormatInt(cx.now - StoredTtl(bs, series, cx.parse)))
    ensures series != TtlSeriesMeta && StoredTtl(bs, series, cx.parse) <= 0 && cx.defaultExpire > 0 ==>
      Cutoff(bs, series, cx) == Some(FormatInt(cx.now - cx.defaultExpire))
    ensures StoredTtl(bs, series, cx.parse) <= 0 && cx.defaultExpire <= 0 ==>
      ExpiredKeys(bs, series, cx) == {}
  {
  }

  /**
   * For keys written by FormatInt: a key is swept exactly when its
   * timestamp is positive and at most the cutoff, provided the cutoff is
   * non-negative and has as many digits as every positive timestamp.
   * Keys "0" and "-..." never go, whatever the TTL.
   */
  lemma SweepByAge(bs: Buckets, series: Bytes, cx: SweepContext, ttl: int, t: int)
    requires TtlSeriesMeta in bs && series in bs && FormatInt(t) in bs[series]
    requires Cutoff(bs, series, cx) == Some(FormatInt(cx.now - ttl))
    requires cx.now - ttl >= 0
    requires t > 0 ==> |FormatInt(t)| == |FormatInt(cx.now - ttl)|
    ensures FormatInt(t) in ExpiredKeys(bs, series, cx) <==> 0 < t <= cx.now - ttl
  {
    AtLeastOneIffPositive(t);
    if t > 0 {
      DecimalOrderAgrees(t, cx.now - ttl);
    }
  }

  /**
   * The equal-width premise of SweepByAge holds whenever the point and
   * the cutoff lie in the same decade. Nanosecond timestamps from
   * September 2001 lie in [10^18, 10^19), and an int64 UnixNano stays
   * there until it runs out in April 2262.
   */
  lemma SweepByAgeSameDecade(bs: Buckets, series: Bytes, cx: SweepContext, ttl: int, t: int, w: nat)
    requires TtlSeriesMeta in bs && series in bs && FormatInt(t) in bs[series]
    requires Cutoff(bs, series, cx) == Some(FormatInt(cx.now - ttl))
    requires w >= 1
    requires Pow10(w - 1) <= t < Pow10(w) && Pow10(w - 1) <= cx.now - ttl < Pow10(w)
    ensures FormatInt(t) in ExpiredKeys(bs, series, cx) <==> t <= cx.now - ttl
  {
    SameDecadeSameWidth(t, cx.now - ttl, w);
    SweepByAge(bs, series, cx, ttl, t);
  }

  /** Across a change of digit count the sweep misjudges age: with cutoff "10", the older point "9" survives. */
  lemma MixedWidthsSpareOlderPoint(bs: Buckets, series: Bytes, cx: SweepContext)
    requires TtlSeriesMeta in bs && series in bs && FormatInt(9) in bs[series]
    requires Cutoff(bs, series, cx) == Some(FormatInt(10))
    ensures FormatInt(9) !in ExpiredKeys(bs, series, cx)
  {
    MixedWidthsDisagree();
    NotLessEq(FormatInt(9), FormatInt(10));
  }

  /** And the other way: with cutoff "99", the newer point "100" is swept. */
  lemma MixedWidthsSweepNewerPoint(bs: Buckets, series: Bytes, cx: SweepContext)
    requires TtlSeriesMeta in bs && series in bs && FormatInt(100) in bs[series]
    requires Cutoff(bs, series, cx) == Some(FormatInt(99))
    ensures FormatInt(100) in ExpiredKeys(bs, series, cx)
  {
    var hundred, ninetyNine := FormatInt(100), FormatInt(99);
    assert hundred == Digits(10) + [ZeroDigit] && Digits(10) == Digits(1) + [ZeroDigit];
    assert hundred == [OneDigit, ZeroDigit, ZeroDigit];
    assert ninetyNine == Digits(9) + [ZeroDigit + 9] && ninetyNine == [ZeroDigit + 9, ZeroDigit + 9];
    assert Compare(SweepFloor, hundred) == Compare([], hundred[1..]);
    assert InRange(hundred, SweepFloor, ninetyNine);
  }

  ghost predicate AllExact(bs: Buckets, plan: seq<Batch>, names: seq<Bytes>, cx: SweepContext)
    requires TtlSeriesMeta in bs
  {
    forall j :: 0 <= j < |plan| ==> BatchExact(bs, plan[j], cx) && plan[j].series in names
  }

  ghost predicate SeriesAscending(plan: seq<Batch>) {
    forall i, j :: 0 <= i < j < |plan| ==> Less(plan[i].series, plan[j].series)
  }

  ghost predicate Covers(bs: Buckets, plan: seq<Batch>, names: seq<Bytes>, cx: SweepContext)
    requires TtlSeriesMeta in bs
  {
    forall n :: n in names && ExpiredKeys(bs, n, cx) != {} ==>
      exists j :: 0 <= j < |plan| && plan[j].series == n
  }

  /** The batch for one series is empty exactly when it has no expired keys, and exact otherwise. */
  lemma BatchForExact(bs: Buckets, series: Bytes, cx: SweepContext)
    requires TtlSeriesMeta in bs && series in bs
    ensures BatchFor(bs, series, cx) == [] <==> ExpiredKeys(bs, series, cx) == {}
    ensures |BatchFor(bs, series, cx)| <= 1
    ensures forall b :: b in BatchFor(bs, series, cx) ==> b.series == series && BatchExact(bs, b, cx)
  {
    var cut := Cutoff(bs, series, cx);
    if cut.Some? {
      BatchForCut(bs, series, cx, cut.value);
    }
  }

  /** BatchForExact for a series that has a cutoff. */
  lemma BatchForCut(bs: Buckets, series: Bytes, cx: SweepContext, max: Bytes)
    requires TtlSeriesMeta in bs && series in bs
    requires Cutoff(bs, series, cx) == Some(max)
    ensures BatchFor(bs, series, cx) == [] <==> ExpiredKeys(bs, series, cx) == {}
    ensures forall b :: b in BatchFor(bs, series, cx) ==> b.series == series && BatchExact(bs, b, cx)
  {
    SweepKeysExact(bs, series, cx, max);
    var keys := SweepKeys(bs[series], max);
    assert BatchFor(bs, series, cx) == if keys == [] then [] else [Batch(series, keys)];
    if keys == [] {
      assert forall k :: k !in ExpiredKeys(bs, series, cx);
    } else {
      assert keys[0] in ExpiredKeys(bs, series, cx);
    }
  }

  lemma PrefixNames(bs: Buckets, names: seq<Bytes>)
    requires names != []
    requires forall n :: n in names ==> n in bs
    requires Ascending(names)
    ensures forall n :: n in names[..|names| - 1] ==> n in bs && Less(n, names[|names| - 1])
    ensures Ascending(names[..|names| - 1])
  {
    var init := names[..|names| - 1];
    forall n | n in init
      ensures n in bs && Less(n, names[|names| - 1])
    {
      var i :| 0 <= i < |init| && init[i] == n;
      assert names[i] == n;
    }
  }

  /** Each batch of a run deletes exactly the expired keys of a series of the run. */
  lemma {:induction false} PlanOverAllExact(bs: Buckets, names: seq<Bytes>, cx: SweepContext)
    requires TtlSeriesMeta in bs
    requires forall n :: n in names ==> n in bs
    requires Ascending(names)
    ensures AllExact(bs, PlanOver(bs, names, cx), names, cx)
  {
    if names != [] {
      var init, last := names[..|names| - 1], names[|names| - 1];
      PrefixNames(bs, names);
      PlanOverAllExact(bs, init, cx);
      BatchForExact(bs, last, cx);
      var prev, tail := PlanOver(bs, init, cx), BatchFor(bs, last, cx);
      var plan := prev + tail;
      forall j | 0 <= j < |plan|
        ensures BatchExact(bs, plan[j], cx) && plan[j].series in names
      {
        if j >= |prev| {
          assert plan[j] in tail;
        } else {
          assert plan[j] == prev[j];
          assert prev[j].series in init;
        }
      }
    }
  }

  /** The batches of an ascending run of names come in that order, each series once. */
  lemma {:induction false} PlanOverAscending(bs: Buckets, names: seq<Bytes>, cx: SweepContext)
    requires TtlSeriesMeta in bs
    requires forall n :: n in names ==> n in bs
    requires Ascending(names)
    ensures SeriesAscending(PlanOver(bs, names, cx))
  {
    if names != [] {
      var init, last := names[..|names| - 1], names[|names| - 1];
      PrefixNames(bs, names);
      PlanOverAscending(bs, init, cx);
      PlanOverAllExact(bs, init, cx);
      BatchForExact(bs, last, cx);
      var prev, tail := PlanOver(bs, init, cx), BatchFor(bs, last, cx);
      var plan := prev + tail;
      forall i, j | 0 <= i < j < |plan|
        ensures Less(plan[i].series, plan[j].series)
      {
        assert plan[i] == prev[i];
        if j >= |prev| {
          assert plan[j] in tail;
          assert prev[i].series in init;
        } else {
          assert plan[j] == prev[j];
        }
      }
    }
  }

  /** Every series of a run with expired keys gets a batch. */
  lemma {:induction false} PlanOverCovers(bs: Buckets, names: seq<Bytes>, cx: SweepContext)
    requires TtlSeriesMeta in bs
    requires forall n :: n in names ==> n in bs
    requires Ascending(names)
    ensures Covers(bs, PlanOver(bs, names, cx), names, cx)
  {
    if names != [] {
      var init, last := names[..|names| - 1], names[|names| - 1];
      PrefixNames(bs, names);
      PlanOverCovers(bs, init, cx);
      BatchForExact(bs, last, cx);
      CoversExtend(bs, PlanOver(bs, init, cx), BatchFor(bs, last, cx), names, cx);
    }
  }

  /** Covering all names but the last, then adding the last name's batch when it needs one, covers every name. */
  lemma CoversExtend(bs: Buckets, prev: seq<Batch>, tail: seq<Batch>, names: seq<Bytes>, cx: SweepContext)
    requires TtlSeriesMeta in bs && names != []
    requires Covers(bs, prev, names[..|names| - 1], cx)
    requires ExpiredKeys(bs, names[|names| - 1], cx) != {} ==> tail != [] && tail[0].series == names[|names| - 1]
    ensures Covers(bs, prev + tail, names, cx)
  {
    var plan, init := prev + tail, names[..|names| - 1];
    forall n | n in names && ExpiredKeys(bs, n, cx) != {}
      ensures exists j :: 0 <= j < |plan| && plan[j].series == n
    {
      var i :| 0 <= i < |names| && names[i] == n;
      if i == |names| - 1 {
        assert plan[|prev|] == tail[0];
      } else {
        assert init[i] == n;
        var j :| 0 <= j < |prev| && prev[j].series == n;
        assert plan[j] == prev[j];
      }
    }
  }

  /**
   * Sweep exactness: with the registry present, the selection holds one
   * batch per series that has expired keys, each deleting exactly those
   * keys, the series in ascending (tx.ForEach) order.
   */
  lemma SelectionExact(bs: Buckets, cx: SweepContext)
    requires TtlSeriesMeta in bs
    ensures Selection(bs, cx).Ok?
    ensures forall j :: 0 <= j < |Selection(bs, cx).value| ==> BatchExact(bs, Selection(bs, cx).value[j], cx)
    ensures SeriesAscending(Selection(bs, cx).value)
    ensures forall s :: s in bs && ExpiredKeys(bs, s, cx) != {} ==>
      exists j :: 0 <= j < |Selection(bs, cx).value| && Selection(bs, cx).value[j].series == s
  {
    var names := SortedKeys(bs.Keys);
    SortedKeysAscending(bs.Keys);
    PlanOverAllExact(bs, names, cx);
    PlanOverAscending(bs, names, cx);
    PlanOverCovers(bs, names, cx);
  }

  /** expireKeys on one batch: its keys leave its bucket, if the bucket still exists. */
  function Expire(bs: Buckets, b: Batch): (r: Buckets)
    ensures r.Keys == bs.Keys
    ensures forall n :: n in bs && n != b.series ==> r[n] == bs[n]
    ensures b.series in bs ==> r[b.series].Keys == bs[b.series].Keys - KeySet(b.keys)
    ensures b.series in bs ==> forall k :: k in r[b.series] <==> k in bs[b.series] && k !in b.keys
    ensures b.series in bs ==> forall k :: k in r[b.series] ==> r[b.series][k] == bs[b.series][k]
  {
    if b.series in bs then bs[b.series := bs[b.series] - KeySet(b.keys)] else bs
  }

  /** The keys of a batch, as a set. */
  function KeySet(keys: seq<Bytes>): set<Bytes> {
    set k | k in keys
  }

  /** The batches of a tick handed to expireKeys one after the other. */
  function ExpireAll(bs: Buckets, plan: seq<Batch>): (r: Buckets)
    ensures r.Keys == bs.Keys
  {
    if plan == [] then bs else Expire(ExpireAll(bs, plan[..|plan| - 1]), plan[|plan| - 1])
  }

  /** The series a run of batches touches. */
  ghost function SeriesOf(plan: seq<Batch>): set<Bytes> {
    set j | 0 <= j < |plan| :: plan[j].series
  }

  lemma SeriesOfSnoc(plan: seq<Batch>, b: Batch)
    ensures SeriesOf(plan + [b]) == SeriesOf(plan) + {b.series}
  {
    var ext := plan + [b];
    assert ext[|plan|] == b;
    assert forall j :: 0 <= j < |plan| ==> ext[j] == plan[j];
  }

  /**
   * Applying batches, each holding the keys `gone` assigns to its series,
   * removes exactly those keys from the series touched and nothing else.
   */
  lemma {:induction false} ExpireAllRemoves(bs: Buckets, plan: seq<Batch>, gone: map<Bytes, set<Bytes>>)
    requires forall j :: 0 <= j < |plan| ==> plan[j].series in gone && KeySet(plan[j].keys) == gone[plan[j].series]
    ensures forall s :: s in bs ==>
      ExpireAll(bs, plan)[s] == bs[s] - (if s in SeriesOf(plan) && s in gone then gone[s] else {})
  {
    if plan != [] {
      var front, b := plan[..|plan| - 1], plan[|plan| - 1];
      ExpireAllRemoves(bs, front, gone);
      assert plan == front + [b];
      SeriesOfSnoc(front, b);
      forall s | s in bs
        ensures ExpireAll(bs, plan)[s] == bs[s] - (if s in SeriesOf(plan) && s in gone then gone[s] else {})
      {
        if s == b.series && s in SeriesOf(front) {
          assert (bs[s] - gone[s]) - gone[s] == bs[s] - gone[s];
        }
      }
    }
  }

  /** A plan exact and covering for every bucket name sweeps the whole store. */
  lemma SweptByExactPlan(bs: Buckets, plan: seq<Batch>, names: seq<Bytes>, cx: SweepContext)
    requires TtlSeriesMeta in bs
    requires AllExact(bs, plan, names, cx) && Covers(bs, plan, names, cx)
    requires forall n :: n in bs ==> n in names
    ensures ExpireAll(bs, plan) == Swept(bs, cx)
  {
    var gone := map s | s in bs :: ExpiredKeys(bs, s, cx);
    forall j | 0 <= j < |plan|
      ensures plan[j].series in gone && KeySet(plan[j].keys) == gone[plan[j].series]
    {
      assert BatchExact(bs, plan[j], cx);
    }
    ExpireAllRemoves(bs, plan, gone);
    forall s | s in bs
      ensures ExpireAll(bs, plan)[s] == Swept(bs, cx)[s]
    {
      if ExpiredKeys(bs, s, cx) != {} {
        var j :| 0 <= j < |plan| && plan[j].series == s;
        assert s in SeriesOf(plan);
      }
    }
  }

  /**
   * One whole tick: handing the selected batches to expireKeys leaves
   * every bucket without its expired keys, and changes nothing else.
   */
  lemma TickSweeps(bs: Buckets, cx: SweepContext)
    requires TtlSeriesMeta in bs
    ensures Selection(bs, cx).Ok?
    ensures ExpireAll(bs, Selection(bs, cx).value) == Swept(bs, cx)
  {
    var names := SortedKeys(bs.Keys);
    SortedKeysAscending(bs.Keys);
    PlanOverAllExact(bs, names, cx);
    PlanOverCovers(bs, names, cx);
    SweptByExactPlan(bs, PlanOver(bs, names, cx), names, cx);
  }
}
