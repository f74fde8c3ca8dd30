# tsdb storage layer, modelled in Dafny

tsdb is a small time-series server. Each series is a bolt bucket holding
`time -> value` pairs. A time key is a byte string, normally the decimal
text of a nanosecond timestamp. The bucket `_TTL_SERIES` maps each series
name to the TTL text given with that series' first write. Every 60 seconds
an expiry sweep deletes keys from "1" up to `FormatInt(now - ttl)` in byte
order. It skips the registry bucket itself, and every series that has
neither a positive stored TTL nor a positive `-expire` default.

The model keeps the whole bolt file as one value, `Db.buckets`. It maps a
bucket name to a map from key to value. Each HTTP handler's transaction is
one sequential step on that value:

- `byte_order.dfy`: byte strings, and `bytes.Compare` with its order laws.
- `wrappers.dfy`: the `Option`/`Result`/`Outcome` wrappers and the store's
  errors.
- `decimal.dfy`: `strconv.FormatInt(x, 10)`, and how decimal strings sort.
  Byte order agrees with numeric order for non-negative numbers of equal
  width, and disagrees otherwise.
- `ordered.dfy`: a bucket's cursor order (First/Next, and Last/Prev as its
  reverse), the query's paging, Seek, and the sweep's key range.
- `expiry.dfy`: the TTL registry, the choice of an effective TTL, one
  tick's selection as a function (`Selection`), its effect on the store as
  a reference (`Swept`), and proofs that the two agree.
- `store.dfy`: the class `Tsdb.Db` with one method per handler. Each
  method is proved against the transaction functions and the selection
  above.

The model follows the code in these easily missed points:

- Deleting a series leaves its TTL entry in the registry.
- A later first write of that series overwrites the entry.
- The name `_TTL_SERIES` is not reserved.
- Writing to `_TTL_SERIES` while that bucket is missing creates it and
  records the TTL inside it. This is because the registry is looked up
  only after the bucket is created.
- Deleting `_TTL_SERIES` leaves the store in a state where creating a
  series other than `_TTL_SERIES` dereferences a nil bucket, and so does a
  sweep when any other bucket exists. Creating `_TTL_SERIES` itself
  recreates the registry.
  `TtlRegistryGone` stands for that panic, and the transaction leaves the
  store unchanged.

Time and duration parsing are inputs:

- `now` is a parameter.
- `time.ParseDuration` is a parameter `parse: Bytes -> Option<int>`.
- the `-expire` default is the constant `Db.defaultExpire`, fixed when the
  store is opened.

## Model

| member | source | states |
|---|---|---|
| ByteOrder.Compare | main.go:465 | bytes.Compare yields -1, 0 or 1, and 0 exactly for equal strings |
| ByteOrder.CompareTransitive | main.go:465 | the key order is transitive, strictly so when either step is strict |
| ByteOrder.LessTrichotomy | main.go:465 | every two keys are ordered one way or the other, never both |
| ByteOrder.NotLessEq | main.go:465 | a key not at most `max` lies strictly above it, which is where the sweep walk stops |
| Decimal.FormatInt | main.go:210 | a formatted timestamp is never empty and starts with '-' exactly when negative |
| Decimal.DigitsRoundTrip | main.go:210 | reading back the decimal digits of n gives n |
| Decimal.FormatIntInjective | main.go:210 | distinct timestamps give distinct keys |
| Decimal.SameDecadeSameWidth | main.go:210 | numbers in the same decade [10^(w-1), 10^w) format to strings of the same length w |
| Decimal.DecimalOrderAgrees | main.go:452-465 | for non-negative timestamps of equal digit count, byte order of keys is numeric order, strict and non-strict |
| Decimal.MixedWidthsDisagree | main.go:452-465 | with different digit counts the orders disagree: "10" sorts before "9" |
| Decimal.AtLeastOneIffPositive | main.go:461-465 | a formatted timestamp is at least "1" exactly when it is positive, so "0" and negative keys are never swept |
| Ordered.SortedKeys | main.go:82-86 | the First/Next walk visits each key of the bucket exactly once |
| Ordered.SortedKeysAscending | main.go:82-86 | the First/Next walk is strictly ascending |
| Ordered.WalkKeys | main.go:79-86 | either direction visits exactly the bucket's keys, each once |
| Ordered.WalkKeysOrdered | main.go:79-86 | "asc" walks strictly ascending and anything else strictly descending |
| Ordered.Listing | main.go:87-93 | each row is a key of the bucket in walk order together with its stored value |
| Ordered.ListingHoldsBucket | main.go:87-93 | a (key, value) row is listed exactly when the bucket maps the key to that value |
| Ordered.ListingOrdered | main.go:79-93 | listed keys are strictly ascending for "asc" and strictly descending otherwise |
| Ordered.DescendingIsReversed | main.go:79-84 | the Last/Prev walk is the First/Next walk reversed |
| Ordered.RowsReversed | main.go:87-93 | pairing keys with their values commutes with reversing the walk |
| Ordered.Page | main.go:87-102 | the page is no longer than the listing or a positive limit; with limit and offset both at most 0 it is the whole listing, and an offset past the end gives nothing |
| Ordered.PageIsWindow | main.go:76-102 | the result skips `offset` rows (none when offset <= 0) and then takes `limit` rows (all when limit <= 0), clipped at the end |
| Ordered.PagePreservesOrder | main.go:87-102 | a page holds only listed rows and keeps their direction |
| Ordered.FullPageHasEveryKey | main.go:51-58 | with the default limit and offset of "0", a query returns one row per key |
| Ordered.Seek | main.go:465 | Seek lands on the first key at or above the target; every earlier key is below it |
| Ordered.KeysInRangeMembers | main.go:465 | the range selection holds exactly the walk's keys in [lo, hi] |
| Ordered.KeysInRangeAscending | main.go:465 | the range selection keeps ascending order |
| Ordered.SeekWindow | main.go:465 | Seek(lo) followed by Next while at most hi collects exactly the keys in [lo, hi] |
| Ordered.KeysInRangeOfRuns | main.go:465 | a walk that is outside, then inside, then outside the range selects its middle run |
| Expiry.StoredTtl | main.go:449 | a registry entry that parses to d reads as d; a missing or unparseable entry reads as 0 |
| Expiry.EffectiveTtl | main.go:451-457 | only a positive TTL is ever chosen |
| Expiry.EffectiveTtlChoice | main.go:445-457 | the registry bucket is skipped; a positive stored TTL wins; otherwise a positive default applies; otherwise the series is skipped |
| Expiry.Cutoff | main.go:445-457 | a series has an expiretime exactly when it is not the registry and its stored TTL or the default is positive |
| Expiry.SweepKeys | main.go:459-468 | every collected key is a key of the bucket between "1" and the cutoff |
| Expiry.SweepKeysExact | main.go:459-468 | the collected keys are ascending and are exactly the bucket's keys between "1" and the cutoff |
| Expiry.SweepByAge | main.go:449-468 | a point at time t is swept exactly when 0 < t <= now - ttl, for timestamps as wide as the cutoff |
| Expiry.SweepByAgeSameDecade | main.go:449-468 | for a point and a cutoff in the same decade, such as nanosecond timestamps in [10^18, 10^19), the point is swept exactly when t <= now - ttl |
| Expiry.MixedWidthsSpareOlderPoint | main.go:461-465 | with cutoff "10", the point "9" is not swept although 9 <= 10 |
| Expiry.MixedWidthsSweepNewerPoint | main.go:461-465 | with cutoff "99", the point "100" is swept although 100 > 99 |
| Expiry.NoTtlNoExpiry | main.go:451-457 | a series with no positive TTL and no positive default keeps every key |
| Expiry.SweepSparesRegistry | main.go:445-447 | the sweep never deletes from the registry bucket |
| Expiry.SweepOnlyDeletes | main.go:415-427 | after a tick a key survives exactly when it was there and was not expired, with its value unchanged |
| Expiry.BatchFor | main.go:444-471 | a series yields at most one batch, for itself, never for the registry, and never an empty one |
| Expiry.PlanOver | main.go:444-475 | a run of names yields no more batches than names, each non-empty and for a visited series other than the registry |
| Expiry.Selection | main.go:439-478 | the tick fails with the registry panic exactly when the registry is missing and the store is not empty; otherwise its batches name existing series other than the registry |
| Expiry.KeyCount | main.go:466-467 | expirecounter is 0 exactly when no batch holds a key, and is at least each batch's size |
| Expiry.BatchForExact | main.go:459-471 | a series gets a batch exactly when it has expired keys, and the batch holds exactly them |
| Expiry.BatchForCut | main.go:459-471 | given its cutoff, a series gets a batch exactly when some key lies in ["1", cutoff], and the batch holds exactly those keys |
| Expiry.PlanOverAllExact | main.go:444-475 | every batch of a tick is exact for its series |
| Expiry.PlanOverAscending | main.go:444-475 | the batches come in strictly ascending series order, so each series at most once |
| Expiry.PlanOverCovers | main.go:444-475 | every series with expired keys gets a batch |
| Expiry.CoversExtend | main.go:444-475 | visiting one more series keeps every visited series with expired keys covered |
| Expiry.SelectionExact | main.go:439-478 | with a registry bucket, the selection succeeds, is exact, is ordered and covers every expired key |
| Expiry.KeyCountStep | main.go:466-467 | the counter grows by the size of each batch |
| Expiry.Expire | main.go:415-427 | expireKeys removes exactly the batch's keys from its bucket, every surviving key keeps its value, no other bucket changes, and a missing bucket is left alone |
| Expiry.ExpireAll | main.go:470-471 | handing batches to expireKeys never adds or removes a bucket |
| Expiry.ExpireAllRemoves | main.go:415-427 | applying batches whose keys are a fixed set per series removes that set from each touched series and changes no other series |
| Expiry.SweptByExactPlan | main.go:444-475 | an exact, covering run of batches turns the store into its swept reference |
| Expiry.TickSweeps | main.go:430-482 | one tick leaves every series without exactly its expired keys |
| Tsdb.CheckWrite | main.go:198-234 | the request is accepted exactly when series and value are given and the ttl is empty or parses; a missing time becomes FormatInt(now) and a missing ttl "0"; otherwise the first failing check's error |
| Tsdb.WriteTx | main.go:236-261 | the transaction fails exactly for a first write of a series other than `_TTL_SERIES` while the registry is missing; otherwise the key is upserted, a first write also creates the bucket and records the TTL, the registry of an existing series is untouched, and no other bucket changes |
| Tsdb.DeletePointTx | main.go:368-374 | a missing series fails; otherwise only the one key is removed from that series |
| Tsdb.WriteLastWins | main.go:236-261 | writing one key twice leaves the second value, and keeps the TTL of the first write |
| Tsdb.WriteReadBack | main.go:255 | after a write its row is listed, and no other row has its key |
| Tsdb.DeleteUndoesWrite | main.go:368-374 | deletebytime on a key that was just added to an existing series restores the store |
| Tsdb.FirstWriteTtlExpires | main.go:449-468 | a first write's TTL governs its point: a tick removes it exactly when 0 < t <= now - ttl, for a positive parsed TTL, a non-negative cutoff and a point as wide as the cutoff |
| Tsdb.FirstWriteNoTtlSurvives | main.go:232-261 | a first write with no ttl records "0"; since that parses to 0, without a positive default the sweep keeps the whole series |
| Tsdb.CollectExpired | main.go:461-468 | the cursor walk from Seek("1") collects exactly the sweep's key range |
| Tsdb.WalkWhileAtMost | main.go:465-468 | Next while at most the cutoff collects a contiguous run of keys, all at most the cutoff, and stops at the end or at the first key above it |
| Tsdb.CursorPage | main.go:76-102 | the counter loop with skip, take and break yields exactly the page |
| Tsdb.Db.Open | main.go:500-503 | opening creates the registry bucket if it is missing and keeps everything else |
| Tsdb.Db.Query | main.go:41-120 | an empty series is refused; a missing series is "Series not found!"; otherwise the result is the page of the series' rows in the chosen direction |
| Tsdb.Db.Write | main.go:198-275 | a failed check changes nothing; otherwise the store becomes the transaction's result, or stays unchanged and reports the error |
| Tsdb.Db.AsyncWrite | main.go:122-196 | the same checks and transaction, but the reply is ok whenever the checks pass |
| Tsdb.Db.WriteTransaction | main.go:236-261 | the transaction body updates the store exactly as WriteTx says, or leaves it unchanged |
| Tsdb.Db.DeleteSeries | main.go:277-308 | an empty series is refused; an existing bucket goes with all its keys and nothing else changes; a missing bucket changes nothing |
| Tsdb.Db.Count | main.go:310-347 | an empty series is refused; a missing series counts 0 without error; otherwise the bucket's key count |
| Tsdb.Db.DeleteByTime | main.go:349-388 | an empty series or time is refused and changes nothing; otherwise as DeletePointTx |
| Tsdb.Db.ExpireTime | main.go:449-457 | the cutoff is now minus the chosen effective TTL, or none |
| Tsdb.Db.SeriesExpired | main.go:449-471 | the keys one series yields form exactly its batch |
| Tsdb.Db.SelectExpired | main.go:439-478 | the ForEach walk yields exactly the selection, and expirecounter is its key count |
| Tsdb.Db.SelectSeries | main.go:444-475 | one ForEach step skips the registry, otherwise appends the series' batch, and grows expirecounter by its size |
| Tsdb.Db.ExpireKeys | main.go:415-428 | the listed keys leave the series' bucket; a missing bucket is left alone |
| Tsdb.Db.ExpireBatches | main.go:470-472 | the batches are applied in order |
| Tsdb.Db.ExpireTick | main.go:430-482 | with a registry bucket, a tick deletes exactly the expired keys and counts them; without one, a non-empty store panics and nothing changes |

## Left out

- HTTP routing, JSON replies, status codes, the HTTP server, signal handling and `PProf`: these are I/O plumbing.
- Flag parsing and `GOMAXPROCS`: configuration, which enters only as `Db.defaultExpire`.
- The goroutines, the 60-second ticker, the sync loop and `db.Batch` coalescing: each transaction is one atomic sequential step.
- The stats sampler, `dbstats` and `backup`: these are bolt statistics and file I/O.
- `time.Now` and `time.ParseDuration` are inputs and are not modelled.
- `strconv.Atoi` on limit and offset: the numbers arrive already parsed. A syntax error becomes 0, and an out-of-range number becomes the nearest int64 bound.
- Timestamps are unbounded integers. The int64 overflow of `now - ttl` and of `UnixNano` is not modelled.
- bolt's rejection of over-long keys and values: `Put` errors other than the registry panic are not modelled.
- bolt's pages, cursor objects, nested buckets and `Stats().KeyN`: a bucket is a finite ordered map, and its key count is the map's size.
- `Tsdb.Db.DeleteSeries`: for a missing bucket it states only that nothing changes, not which error bolt's `DeleteBucket` reports.
- `Tsdb.Db.AsyncWrite`: a registry panic inside the detached goroutine is modelled as a rolled-back transaction with an ok reply. In Go an unrecovered panic in a goroutine ends the process.
- `Tsdb.Db.ExpireTick`: a registry panic is modelled as an error with the store unchanged. In Go it ends the process.
- For an empty store with no registry bucket, `Tsdb.Db.ExpireTick` does not state its reply.
- `tsdb_test.go` targets a different version of the server, and `phpclient/tsdb.php` is a network client. Neither is part of this model.
