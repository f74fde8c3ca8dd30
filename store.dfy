/**
 * The storage layer beneath the HTTP handlers: one bolt database holding
 * a bucket per series plus the "_TTL_SERIES" registry bucket. Each
 * handler's transaction is one sequential step on `Db.buckets`; a
 * transaction that fails or panics leaves the buckets as they were,
 * since bolt rolls it back.
 */
module Tsdb {
  import opened ByteOrder
  import opened Decimal
  import opened Ordered
  import opened Wrappers
  import opened Expiry

  /** The order parameter that selects an ascending walk, "asc"; anything else walks descending. */
  const AscOrder: Bytes := [97, 115, 99]

  /** The TTL text recorded when a first write gives none, "0". */
  const NoTtl: Bytes := [ZeroDigit]

  /** A write that passed the handler's checks: the series, the key, the value and the TTL text. */
  datatype WriteRequest = WriteRequest(series: Bytes, key: Bytes, value: Bytes, ttl: Bytes)

  /**
   * The checks write and asyncwrite make before any transaction: a
   * series and a value are required, a missing time becomes
   * FormatInt(now), and a ttl must parse as a duration ("0" when absent).
   */
  function CheckWrite(series: Bytes, time: Bytes, value: Bytes, ttl: Bytes, now: int,
                      parse: DurationParser): (r: Result<WriteRequest, Error>)
    ensures r.Ok? <==> series != [] && value != [] && (ttl == [] || parse(ttl).Some?)
    ensures series == [] ==> r == Err(SeriesNeeded)
    ensures series != [] && value == [] ==> r == Err(ValueNeeded)
    ensures series != [] && value != [] && r.Err? ==> r == Err(InvalidDuration)
    ensures r.Ok? ==> r.value.series == series && r.value.value == value
    ensures r.Ok? ==> r.value.key != [] && r.value.key == (if time == [] then FormatInt(now) else time)
    ensures r.Ok? ==> r.value.ttl == (if ttl == [] then NoTtl else ttl)
  {
    if series == [] then Err(SeriesNeeded)
    else
      var key := if time == [] then FormatInt(now) else time;
      if value == [] then Err(ValueNeeded)
      else if ttl != [] && parse(ttl).None? then Err(InvalidDuration)
      else Ok(WriteRequest(series, key, value, if ttl == [] then NoTtl else ttl))
  }

  /**
   * The write transaction. A first write creates the bucket and records
   * the TTL text under the series name in the registry; the key is then
   * upserted. The registry is looked up after the bucket is created, so a
   * first write to the series "_TTL_SERIES" records its TTL in the bucket
   * it just created, and a first write with the registry missing fails.
   */
  function WriteTx(bs: Buckets, req: WriteRequest): (r: Result<Buckets, Error>)
    ensures r.Err? <==> req.series !in bs && req.series != TtlSeriesMeta && TtlSeriesMeta !in bs
    ensures r.Err? ==> r.error == TtlRegistryGone
    ensures r.Ok? ==> r.value.Keys == bs.Keys + {req.series}
    ensures r.Ok? ==> req.key in r.value[req.series] && r.value[req.series][req.key] == req.value
    ensures r.Ok? && req.series in bs ==>
      r.value == bs[req.series := bs[req.series][req.key := req.value]]
    ensures r.Ok? && req.series !in bs && req.series != TtlSeriesMeta ==>
      && r.value[req.series] == map[req.key := req.value]
      && r.value[TtlSeriesMeta] == bs[TtlSeriesMeta][req.series := req.ttl]
      && forall n :: n in bs && n != TtlSeriesMeta ==> r.value[n] == bs[n]
    ensures r.Ok? && req.series !in bs && req.series == TtlSeriesMeta ==>
      r.value == bs[req.series := map[req.series := req.ttl][req.key := req.value]]
  {
    var created := if req.series in bs then bs else bs[req.series := map[]];
    if req.series !in bs && TtlSeriesMeta !in created then Err(TtlRegistryGone)
    else
      var registered := if req.series in bs then created
                        else created[TtlSeriesMeta := created[TtlSeriesMeta][req.series := req.ttl]];
      Ok(registered[req.series := registered[req.series][req.key := req.value]])
  }

  /** The deletebytime transaction: remove one key from an existing series. */
  function DeletePointTx(bs: Buckets, series: Bytes, key: Bytes): (r: Result<Buckets, Error>)
    ensures r.Err? <==> series !in bs
    ensures r.Err? ==> r.error == SeriesNotFound
    ensures r.Ok? ==> r.value.Keys == bs.Keys
    ensures r.Ok? ==> r.value[series].Keys == bs[series].Keys - {key}
    ensures r.Ok? ==> forall k :: k in r.value[series] ==> r.value[series][k] == bs[series][k]
    ensures r.Ok? ==> forall n :: n in bs && n != series ==> r.value[n] == bs[n]
  {
    if series !in bs then Err(SeriesNotFound)
    else Ok(bs[series := bs[series] - {key}])
  }

  // ---------------------------------------------------------------------
  // What the transactions promise together
  // ---------------------------------------------------------------------

  /**
   * Writing one key twice: the second value replaces the first, and the
   * registry keeps the TTL of the write that created the series.
   */
  lemma WriteLastWins(bs: Buckets, first: WriteRequest, second: WriteRequest)
    requires first.series == second.series && first.key == second.key
    requires WriteTx(bs, first).Ok?
    ensures WriteTx(WriteTx(bs, first).value, second) == WriteTx(bs, second.(ttl := first.ttl))
  {
    var s, k := first.series, first.key;
    if s !in bs && s == TtlSeriesMeta {
      var created: Bucket := map[s := first.ttl];
      var after := bs[s := created[k := first.value]];
      assert WriteTx(bs, first).value == after;
      assert created[k := first.value][k := second.value] == created[k := second.value];
      assert after[s := created[k := second.value]] == bs[s := created[k := second.value]];
    } else if s !in bs {
      var created := bs[s := map[]];
      var registered := created[TtlSeriesMeta := created[TtlSeriesMeta][s := first.ttl]];
      var after := registered[s := map[k := first.value]];
      assert WriteTx(bs, first).value == after;
      assert map[k := first.value][k := second.value] == map[k := second.value];
      assert after[s := map[k := second.value]] == registered[s := map[k := second.value]];
      assert registered[s][k := second.value] == map[k := second.value];
    } else {
      var after := bs[s := bs[s][k := first.value]];
      assert bs[s][k := first.value][k := second.value] == bs[s][k := second.value];
      assert after[s := bs[s][k := second.value]] == bs[s := bs[s][k := second.value]];
    }
  }

  /** A committed write can be read back: its row is in the series' listing, and no other row has its key. */
  lemma WriteReadBack(bs: Buckets, req: WriteRequest, asc: bool)
    requires WriteTx(bs, req).Ok?
    ensures Entry(req.key, req.value) in Listing(WriteTx(bs, req).value[req.series], asc)
    ensures forall e :: e in Listing(WriteTx(bs, req).value[req.series], asc) && e.key == req.key ==>
      e.value == req.value
  {
    var b := WriteTx(bs, req).value[req.series];
    ListingHoldsBucket(b, asc, req.key, req.value);
    forall e | e in Listing(b, asc) && e.key == req.key
      ensures e.value == req.value
    {
      ListingHoldsBucket(b, asc, e.key, e.value);
    }
  }

  /** deletebytime on a key just written to an existing series, where the key was new, undoes the write. */
  lemma DeleteUndoesWrite(bs: Buckets, req: WriteRequest)
    requires req.series in bs && req.key !in bs[req.series]
    ensures WriteTx(bs, req).Ok?
    ensures DeletePointTx(WriteTx(bs, req).value, req.series, req.key) == Ok(bs)
  {
    var b := bs[req.series];
    var after := bs[req.series := b[req.key := req.value]];
    assert b[req.key := req.value] - {req.key} == b;
    assert after[req.series := b] == bs;
  }

  /**
   * The TTL given with a series' first write governs its expiry: the
   * point written at time t has gone after a tick at `now` exactly when
   * 0 < t <= now - ttl (for timestamps as wide as the cutoff).
   */
  lemma FirstWriteTtlExpires(bs: Buckets, req: WriteRequest, cx: SweepContext, ttl: int, t: int)
    requires TtlSeriesMeta in bs && req.series !in bs && req.series != TtlSeriesMeta
    requires req.key == FormatInt(t)
    requires cx.parse(req.ttl) == Some(ttl) && ttl > 0
    requires cx.now - ttl >= 0
    requires t > 0 ==> |FormatInt(t)| == |FormatInt(cx.now - ttl)|
    ensures WriteTx(bs, req).Ok?
    ensures req.key in Swept(WriteTx(bs, req).value, cx)[req.series] <==> !(0 < t <= cx.now - ttl)
  {
    var after := WriteTx(bs, req).value;
    assert StoredTtl(after, req.series, cx.parse) == ttl;
    SweepByAge(after, req.series, cx, ttl, t);
  }

  /**
   * A first write without a ttl records "0", which parses as no TTL;
   * with no positive -expire default either, the sweep keeps the series whole.
   */
  lemma FirstWriteNoTtlSurvives(bs: Buckets, series: Bytes, time: Bytes, value: Bytes, cx: SweepContext)
    requires TtlSeriesMeta in bs && series !in bs && series != TtlSeriesMeta
    requires series != [] && value != []
    requires cx.parse(NoTtl) == Some(0) && cx.defaultExpire <= 0
    ensures CheckWrite(series, time, value, [], cx.now, cx.parse).Ok?
    ensures WriteTx(bs, CheckWrite(series, time, value, [], cx.now, cx.parse).value).Ok?
    ensures var after := WriteTx(bs, CheckWrite(series, time, value, [], cx.now, cx.parse).value).value;
            Swept(after, cx)[series] == after[series]
  {
    var req := CheckWrite(series, time, value, [], cx.now, cx.parse).value;
    var after := WriteTx(bs, req).value;
    assert after[TtlSeriesMeta][series] == NoTtl;
    assert StoredTtl(after, series, cx.parse) == 0;
    NoTtlNoExpiry(after, series, cx);
  }

  /** The keys the sweep walk collects from one bucket: Seek("1"), then Next while the key is at most `max`. */
  method CollectExpired(b: Bucket, max: Bytes) returns (keys: seq<Bytes>)
    ensures keys == SweepKeys(b, max)
  {
    var ks := SortedKeys(b.Keys);
    var start := Seek(ks, SweepFloor);
    var stop;
    keys, stop := WalkWhileAtMost(ks, start, max);
    SortedKeysAscending(b.Keys);
    SeekWindow(ks, SweepFloor, max, start, stop);
  }

  /** The cursor loop of the sweep: from `start`, take keys while they are at most `max`. */
  method WalkWhileAtMost(ks: seq<Bytes>, start: nat, max: Bytes) returns (keys: seq<Bytes>, stop: nat)
    requires start <= |ks|
    ensures start <= stop <= |ks| && keys == ks[start..stop]
    ensures forall x :: start <= x < stop ==> LessEq(ks[x], max)
    ensures stop < |ks| ==> Less(max, ks[stop])
  {
    stop := start;
    keys := [];
    while stop < |ks| && LessEq(ks[stop], max)
      invariant start <= stop <= |ks|
      invariant keys == ks[start..stop]
      invariant forall x :: start <= x < stop ==> LessEq(ks[x], max)
    {
      assert ks[start..stop + 1] == ks[start..stop] + [ks[stop]];
      keys := keys + [ks[stop]];
      stop := stop + 1;
    }
    if stop < |ks| {
      NotLessEq(ks[stop], max);
    }
  }

  /**
   * The query's cursor loop over the rows of a walk: `o` counts the rows
   * still to skip and `l` the rows still to take; the walk stops as soon
   * as `l` reaches 0.
   */
  method CursorPage(rows: seq<Entry>, limit: int, offset: int) returns (m: seq<Entry>)
    ensures m == Page(rows, limit, offset)
  {
    ghost var skip := if offset <= 0 then 0 else offset;
    var l, o := limit, offset;
    m := [];
    var i := 0;
    while i < |rows|
      invariant 0 <= i <= |rows|
      invariant o == if offset <= 0 then offset else if i < offset then offset - i else 0
      invariant m == if i <= skip then [] else rows[skip..i]
      invariant limit > 0 ==> l == limit - |m| && |m| < limit
      invariant limit <= 0 ==> l == limit
    {
      var row := rows[i];
      i := i + 1;
      if o > 0 {
        o := o - 1;
        continue;
      }
      assert rows[skip..i] == rows[skip..i - 1] + [row];
      m := m + [row];
      if l > 0 {
        l := l - 1;
        if l == 0 {
          PageIsWindow(rows, limit, offset);
          return;
        }
      }
    }
    PageIsWindow(rows, limit, offset);
  }

  /** The bolt database: every bucket by name, and the default TTL from the -expire flag. */
  class Db {
    var buckets: Buckets
    const defaultExpire: int

    /** Opening the file and creating the TTL registry bucket if it does not exist. */
    constructor Open(file: Buckets, defaultExpire: int)
      ensures buckets == if TtlSeriesMeta in file then file else file[TtlSeriesMeta := map[]]
      ensures this.defaultExpire == defaultExpire
    {
      buckets := if TtlSeriesMeta in file then file else file[TtlSeriesMeta := map[]];
      this.defaultExpire := defaultExpire;
    }

    /**
     * query: walk the series' keys in the chosen direction, skip the first
     * `offset` entries, then collect until `limit` entries are taken (no
     * limit when `limit <= 0`).
     */
    method Query(series: Bytes, limit: int, offset: int, order: Bytes)
      returns (r: Result<seq<Entry>, Error>)
      ensures series == [] ==> r == Err(SeriesNeeded)
      ensures series != [] && series !in buckets ==> r == Err(SeriesNotFound)
      ensures series != [] && series in buckets ==>
        r == Ok(Page(Listing(buckets[series], order == AscOrder), limit, offset))
    {
      if series == [] {
        return Err(SeriesNeeded);
      }
      if series !in buckets {
        return Err(SeriesNotFound);
      }
      var rows := Listing(buckets[series], order == AscOrder);
      var page := CursorPage(rows, limit, offset);
      return Ok(page);
    }

    /** write: check the request, then run the write transaction. */
    method Write(series: Bytes, time: Bytes, value: Bytes, ttl: Bytes, now: int,
                 parse: DurationParser) returns (r: Outcome<Error>)
      modifies this
      ensures CheckWrite(series, time, value, ttl, now, parse).Err? ==>
        r == Fail(CheckWrite(series, time, value, ttl, now, parse).error) && buckets == old(buckets)
      ensures CheckWrite(series, time, value, ttl, now, parse).Ok? ==>
        var tx := WriteTx(old(buckets), CheckWrite(series, time, value, ttl, now, parse).value);
        if tx.Ok? then r == Pass && buckets == tx.value
        else r == Fail(tx.error) && buckets == old(buckets)
    {
      var checked := CheckWrite(series, time, value, ttl, now, parse);
      if checked.Err? {
        return Fail(checked.error);
      }
      r := WriteTransaction(checked.value);
    }

    /**
     * asyncwrite: the same checks and transaction, but the transaction
     * runs detached and its error is only logged, so the reply is ok
     * whenever the checks pass.
     */
    method AsyncWrite(series: Bytes, time: Bytes, value: Bytes, ttl: Bytes, now: int,
                      parse: DurationParser) returns (r: Outcome<Error>)
      modifies this
      ensures CheckWrite(series, time, value, ttl, now, parse).Err? ==>
        r == Fail(CheckWrite(series, time, value, ttl, now, parse).error) && buckets == old(buckets)
      ensures CheckWrite(series, time, value, ttl, now, parse).Ok? ==>
        var tx := WriteTx(old(buckets), CheckWrite(series, time, value, ttl, now, parse).value);
        r == Pass && buckets == if tx.Ok? then tx.value else old(buckets)
    {
      var checked := CheckWrite(series, time, value, ttl, now, parse);
      if checked.Err? {
        return Fail(checked.error);
      }
      var _ := WriteTransaction(checked.value);
      r := Pass;
    }

    /** The body of the write transaction, run on a private copy that is committed at the end. */
    method WriteTransaction(req: WriteRequest) returns (r: Outcome<Error>)
      modifies this
      ensures WriteTx(old(buckets), req).Ok? ==> r == Pass && buckets == WriteTx(old(buckets), req).value
      ensures WriteTx(old(buckets), req).Err? ==>
        r == Fail(WriteTx(old(buckets), req).error) && buckets == old(buckets)
    {
      var tx := buckets;
      if req.series !in tx {
        tx := tx[req.series := map[]];
        if TtlSeriesMeta !in tx {
          // bttl.Put on a nil bucket panics; bolt rolls the transaction back
          return Fail(TtlRegistryGone);
        }
        tx := tx[TtlSeriesMeta := tx[TtlSeriesMeta][req.series := req.ttl]];
      }
      tx := tx[req.series := tx[req.series][req.key := req.value]];
      buckets := tx;
      r := Pass;
    }

    /**
     * delete: drop the series' bucket with all its keys. The registry
     * entry of the series stays. For an absent bucket nothing changes.
     */
    method DeleteSeries(series: Bytes) returns (r: Outcome<Error>)
      modifies this
      ensures series == [] ==> r == Fail(SeriesNeeded) && buckets == old(buckets)
      ensures series != [] && series in old(buckets) ==> r == Pass && buckets == old(buckets) - {series}
      ensures series !in old(buckets) ==> buckets == old(buckets)
    {
      if series == [] {
        return Fail(SeriesNeeded);
      }
      if series !in buckets {
        return Fail(BucketNotFound);
      }
      buckets := buckets - {series};
      r := Pass;
    }

    /** count: the number of keys of the series, and 0 with no error when it has no bucket. */
    method Count(series: Bytes) returns (r: Result<nat, Error>)
      ensures series == [] ==> r == Err(SeriesNeeded)
      ensures series != [] && series !in buckets ==> r == Ok(0)
      ensures series != [] && series in buckets ==> r == Ok(|buckets[series]|)
    {
      if series == [] {
        return Err(SeriesNeeded);
      }
      if series !in buckets {
        return Ok(0);
      }
      r := Ok(|buckets[series]|);
    }

    /** deletebytime: remove one key of an existing series; a missing key is no error. */
    method DeleteByTime(series: Bytes, time: Bytes) returns (r: Outcome<Error>)
      modifies this
      ensures series == [] ==> r == Fail(SeriesNeeded) && buckets == old(buckets)
      ensures series != [] && time == [] ==> r == Fail(TimeNeeded) && buckets == old(buckets)
      ensures series != [] && time != [] ==>
        var tx := DeletePointTx(old(buckets), series, time);
        if tx.Ok? then r == Pass && buckets == tx.value
        else r == Fail(tx.error) && buckets == old(buckets)
    {
      if series == [] {
        return Fail(SeriesNeeded);
      }
      if time == [] {
        return Fail(TimeNeeded);
      }
      if series !in buckets {
        return Fail(SeriesNotFound);
      }
      buckets := buckets[series := buckets[series] - {time}];
      r := Pass;
    }

    /**
     * The selection part of one expire tick: for each bucket in name order
     * other than the registry, choose the TTL and collect the keys from "1"
     * up to the cutoff; `expired` is expirecounter.
     */
    method SelectExpired(now: int, parse: DurationParser) returns (r: Result<seq<Batch>, Error>, expired: nat)
      ensures r == Selection(buckets, SweepContext(now, parse, defaultExpire))
      ensures r.Ok? ==> expired == KeyCount(r.value)
    {
      ghost var cx := SweepContext(now, parse, defaultExpire);
      var names := SortedKeys(buckets.Keys);
      var plan: seq<Batch> := [];
      expired := 0;
      var i := 0;
      while i < |names|
        invariant 0 <= i <= |names|
        invariant TtlSeriesMeta !in buckets ==> i == 0 && plan == [] && expired == 0
        invariant TtlSeriesMeta in buckets ==> plan == PlanOver(buckets, names[..i], cx)
        invariant expired == KeyCount(plan)
      {
        if names[i] != TtlSeriesMeta && TtlSeriesMeta !in buckets {
          // bttl.Get on a nil bucket panics
          return Err(TtlRegistryGone), expired;
        }
        plan, expired := SelectSeries(names, i, plan, expired, now, parse);
        i := i + 1;
      }
      assert names[..i] == names;
      r := Ok(plan);
    }

    /**
     * expiretime for one series: now minus its registered TTL when that is
     * positive, else now minus the default, else none (the series is skipped).
     */
    method ExpireTime(series: Bytes, now: int, parse: DurationParser) returns (max: Option<Bytes>)
      requires TtlSeriesMeta in buckets && series != TtlSeriesMeta
      ensures max == Cutoff(buckets, series, SweepContext(now, parse, defaultExpire))
    {
      var stored := StoredTtl(buckets, series, parse);
      if stored > 0 {
        max := Some(FormatInt(now - stored));
      } else if defaultExpire > 0 {
        max := Some(FormatInt(now - defaultExpire));
      } else {
        max := None;
      }
    }

    /** One call of the ForEach callback: the registry is skipped, any other series adds its batch and its count. */
    method SelectSeries(names: seq<Bytes>, i: nat, plan: seq<Batch>, expired: nat, now: int, parse: DurationParser)
      returns (next: seq<Batch>, counted: nat)
      requires TtlSeriesMeta in buckets && i < |names|
      requires forall n :: n in names ==> n in buckets
      requires plan == PlanOver(buckets, names[..i], SweepContext(now, parse, defaultExpire))
      requires expired == KeyCount(plan)
      ensures next == PlanOver(buckets, names[..i + 1], SweepContext(now, parse, defaultExpire))
      ensures counted == KeyCount(next)
    {
      PlanOverStep(buckets, names, i, SweepContext(now, parse, defaultExpire));
      next, counted := plan, expired;
      var series := names[i];
      if series == TtlSeriesMeta {
        return;
      }
      var keys := SeriesExpired(series, now, parse);
      counted := expired + |keys|;
      if |keys| > 0 {
        KeyCountStep(plan, Batch(series, keys));
        next := plan + [Batch(series, keys)];
      }
    }

    /** The keys one tick selects from one series: those from "1" up to its expiretime. */
    method SeriesExpired(series: Bytes, now: int, parse: DurationParser) returns (keys: seq<Bytes>)
      requires TtlSeriesMeta in buckets && series in buckets && series != TtlSeriesMeta
      ensures BatchFor(buckets, series, SweepContext(now, parse, defaultExpire)) ==
        if keys == [] then [] else [Batch(series, keys)]
    {
      var cutoff := ExpireTime(series, now, parse);
      if cutoff.None? {
        return [];
      }
      keys := CollectExpired(buckets[series], cutoff.value);
    }

    /** expireKeys: delete the given keys from the series, or nothing if its bucket is gone. */
    method ExpireKeys(series: Bytes, keys: seq<Bytes>)
      modifies this
      ensures buckets == Expire(old(buckets), Batch(series, keys))
    {
      if series !in buckets {
        return;
      }
      var b := buckets[series];
      for i := 0 to |keys|
        invariant b == old(buckets)[series] - KeySet(keys[..i])
      {
        b := b - {keys[i]};
      }
      assert keys[..|keys|] == keys;
      buckets := buckets[series := b];
    }

    /** The tick's deletions: every batch handed to expireKeys in turn. */
    method ExpireBatches(plan: seq<Batch>)
      modifies this
      ensures buckets == ExpireAll(old(buckets), plan)
    {
      var i := 0;
      while i < |plan|
        invariant 0 <= i <= |plan|
        invariant buckets == ExpireAll(old(buckets), plan[..i])
      {
        assert plan[..i + 1][..i] == plan[..i];
        ExpireKeys(plan[i].series, plan[i].keys);
        i := i + 1;
      }
      assert plan[..i] == plan;
    }

    /**
     * One expire tick run sequentially: select, then hand every batch to
     * expireKeys. Every series loses exactly its expired keys; without a
     * registry bucket a non-empty store makes the tick panic.
     */
    method ExpireTick(now: int, parse: DurationParser) returns (r: Result<nat, Error>)
      modifies this
      ensures TtlSeriesMeta !in old(buckets) ==> buckets == old(buckets)
      ensures TtlSeriesMeta !in old(buckets) && old(buckets) != map[] ==> r == Err(TtlRegistryGone)
      ensures TtlSeriesMeta in old(buckets) ==>
        var cx := SweepContext(now, parse, defaultExpire);
        r == Ok(KeyCount(Selection(old(buckets), cx).value)) && buckets == Swept(old(buckets), cx)
    {
      ghost var cx := SweepContext(now, parse, defaultExpire);
      var selected, expired := SelectExpired(now, parse);
      if selected.Err? {
        return Err(selected.error);
      }
      if TtlSeriesMeta !in buckets {
        return Ok(expired);
      }
      ghost var before := buckets;
      ExpireBatches(selected.value);
      TickSweeps(before, cx);
      r := Ok(expired);
    }
  }
}
