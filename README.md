# presplit, modelled in Dafny

presplit divides the chunks of a MongoDB sharded collection among the
shards before the data arrives. Each day, the key range that the day's
ObjectIds will fall into is cut into chunks, and the chunks are handed to
the shards in turn. A marker collection remembers which days are done.
This project models the core of the tool and proves properties of it:

- `objectid.dfy`, module `ObjectIds`. The ObjectId key type: 12 bytes read
  as a big-endian number. It covers the client/server byte shuffles,
  `int`, `from_int`, `+` and `-`, and the min/max rounding of
  `from_datetime`.
- `chunks.dfy`, module `Chunks`. The chunk catalog: chunk documents listed
  in key order, each covering `[min, max)`. It covers `chunk_for_key`,
  `chunks_for_range`, and what a split and a move do to the catalog, as
  pure functions with their lemmas.
- `fake_balancer.dfy`, module `FakeBalancer`. The fake balancer, whose
  `split_chunk` and `move_chunk` update a copy of the catalog in place.
  Here it is the class `Catalog`, whose `chunks` field the two methods
  reassign.
- `balancer.dfy`, module `Balancer`. `divide_chunk` and `balance_range`:
  - `divide_chunk` is specified by the function `Divide` and modelled by
    the loop of `DivideChunk`.
  - `balance_range` is `BalanceRange` with its two trimming cuts
    (`TrimStart`, `TrimEnd`) and its loop (`DivideRange` and
    `DivideAndMove`).
- `presplitter.dfy`, module `PreSplitters`. `PreSplitter.presplit`: which
  markers of a day are still pending, the single `balance_range` call, and
  the logging of the markers.
- `wrappers.dfy`, module `Wrappers`. `Option` and `Result`.

Keys in the catalog are integers: the number an ObjectId stands for. Order
on ObjectIds is order on these numbers (`ObjectIds.Less`). The split point
of `divide_chunk` (`min + (max - min) / divisions`) is computed on these
numbers. When both bounds are ids of 24 hex digits, the ObjectId
expression gives exactly that number (`ObjectIds.SplitPointAgrees`). For
smaller bounds it does not; see Findings and Left out.

Some facts come from code outside the model:
- The `bson` ObjectId holds 12 bytes.
- Its constructor accepts a 12-character string as raw bytes and a
  24-character hex string as hex.
- Its `from_datetime` writes the 4-byte big-endian UTC timestamp and then
  8 zero bytes.
- mongo_logger.py's `check_id` finds a marker once `log_id` has saved it.

`bson` and pymongo are not part of this model.

## Model

| member | source | states |
|---|---|---|
| ObjectIds.ToClientId | objectid.py:13-18 | gives a client id whose bytes are o's with bytes 2-3 moved behind bytes 4-8; bytes 0-1 and 9-11 stay in place |
| ObjectIds.ToServerId | objectid.py:21-26 | gives a server id whose bytes are o's with bytes 7-8 moved in front of bytes 2-6; bytes 0-1 and 9-11 stay in place |
| ObjectIds.ServerOfClient | objectid.py:13-26 | `to_server_id(to_client_id(o))` gives back o's bytes, as a server id |
| ObjectIds.ClientOfServer | objectid.py:13-26 | `to_client_id(to_server_id(o))` gives back o's bytes, as a client id |
| ObjectIds.RemapsMoveOnlyMiddleBytes | objectid.py:13-26 | both shuffles keep bytes 0, 1 and 9-11 in place, and both remap tables send positions 2-8 to positions 2-8, so bytes 2-8 are only permuted among themselves |
| ObjectIds.RemapTablesInverse | objectid.py:13-26 | the two remap tables are permutations of 0..11 and inverse to each other |
| ObjectIds.Int | objectid.py:34-35 | `int(o)` is a number below 256^12 |
| ObjectIds.BigEndianInjective | objectid.py:34-35 | two byte strings of equal length with the same number are equal, so `int` is one-to-one on ids |
| ObjectIds.FromInt | objectid.py:37-39 | whatever `from_int` returns is a server id; which numbers it accepts, and what it makes of them, is stated by the next four rows |
| ObjectIds.FromIntExact | objectid.py:37-39 | `from_int(x)` succeeds, with `int(from_int(x)) == x` and a server id, for every x of exactly 24 hex digits |
| ObjectIds.FromIntUnpaddedRefused | objectid.py:37-39 | every x below 16^23 that does not have exactly 12 hex digits is refused |
| ObjectIds.FromIntTwelveDigitsWrong | objectid.py:37-39 | an x of exactly 12 hex digits is accepted, but comes back as a different number |
| ObjectIds.FromIntLosesSmallIds | objectid.py:34-39 | `from_int(int(o))` does not give back o for any id below 16^23 |
| ObjectIds.FromIntPaddedExact | objectid.py:37-39 | the zero-padded conversion accepts exactly the numbers below 256^12 and gives each back |
| ObjectIds.HexNumberLeadingZeros | objectid.py:37-39 | leading zeros do not change the number a hex text stands for |
| ObjectIds.Add | objectid.py:41-42 | `a + other` is a server id whenever it succeeds; it succeeds, and its number is `int(a) + other`, whenever that sum has 24 hex digits |
| ObjectIds.SplitPointAgrees | objectid.py:41-45 | for ids a < b of 24 hex digits and d >= 2, `a + (b - a) / d` succeeds and its number is int(a) + (int(b) - int(a)) div d: the split point the balancer model computes on numbers |
| ObjectIds.AddSubRoundTrip | objectid.py:41-45 | `a + (b - a)` is b, as a server id, whenever b has 24 hex digits |
| ObjectIds.AddSubPaddedRoundTrip | objectid.py:41-45 | with the padded conversion, `a + (b - a)` is b, as a server id, for all ids |
| ObjectIds.Sub | objectid.py:44-45 | `a - b` is 0 for equal ids and lies strictly between -256^12 and 256^12 |
| ObjectIds.FromDatetime | objectid.py:55-65 | asking for both min and max is refused (the assertion at line 60), and every other request gives a server id; the rounded values are stated by KeyMinValue and KeyMaxValue |
| ObjectIds.TimestampBytes | objectid.py:62 | the id `from_datetime` starts from holds the seconds in its first four bytes, read big-endian, and zero in the other eight |
| ObjectIds.KeyMinValue | objectid.py:55-65 | `from_datetime(t, min=True)` (KeyMin) is the id numbered (t div 2^16) * 256^10 |
| ObjectIds.KeyMaxValue | objectid.py:55-65 | `from_datetime(t, max=True)` (KeyMax) is the id numbered (t div 2^16) * 256^10 + 256^10 - 1 |
| ObjectIds.KeysAligned | objectid.py:63-64 | a min-rounded id is the first id of its 2-byte prefix and a max-rounded id the last |
| ObjectIds.KeyMinBelowKeyMax | objectid.py:63-64 | the min-rounded id of an instant is below its max-rounded id |
| ObjectIds.KeyMinMonotone | objectid.py:63-64 | min rounding keeps the order of instants |
| ObjectIds.KeyMinBelowLaterKeyMax | objectid.py:63-64 | the min-rounded id of an instant is below the max-rounded id of any instant not earlier |
| Chunks.IndexForKey | balancer.py:16-22 | the position found holds the key and is the first that does; no position is found exactly when no chunk holds the key |
| Chunks.ChunkForKey | balancer.py:16-22 | the chunk found is in the catalog and holds the key; none is found exactly when no chunk holds it |
| Chunks.OwnerOfHolder | balancer.py:16-22 | a key has an owner exactly when a chunk of the catalog holds it, and the owner is the shard of such a chunk |
| Chunks.IndexForKeyUnique | balancer.py:16-22 | in a well-formed catalog, the chunk holding a key is the only one, so the lookup finds it and its shard owns the key |
| Chunks.Ordered | balancer.py:16-22 | in a well-formed catalog, chunks in list order do not overlap and rise |
| Chunks.Disjoint | balancer.py:16-22 | no key lies in two chunks of a well-formed catalog |
| Chunks.ChunksForRange | balancer.py:67-89 | empty exactly when start or end lies in no chunk; otherwise it begins with the chunk of start; it is just that chunk when both keys lie in the same chunk; otherwise it ends with the chunk of end; every chunk yielded is in the catalog |
| Chunks.Between | balancer.py:81-84 | the chunks yielded between the two are catalog chunks whose min lies strictly between the two mins |
| Chunks.BetweenRun | balancer.py:81-84 | in a well-formed catalog, the chunks between positions i and j are exactly the chunks at positions i+1 to j-1, in key order |
| Chunks.ChunksForRangeRun | balancer.py:67-89 | the chunks from the one holding start to the one holding end are the consecutive run of the catalog between them |
| Chunks.StartChunkFirst | balancer.py:67-89 | with start <= end, the chunk of start comes no later than the chunk of end |
| Chunks.SplitPieces | fake_balancer.py:30-40 | a split returns pieces exactly when a chunk holds the key. The left piece keeps the chunk's `_id` and min and ends at the key; the right piece starts at the key, runs to the chunk's max and gets the `_id` of a chunk starting at the key; both keep the shard |
| Chunks.AfterSplit | fake_balancer.py:30-40 | with no chunk holding the key the catalog is unchanged; otherwise the split adds at most one chunk |
| Chunks.SplitRun | fake_balancer.py:30-40 | a split replaces the chunk holding the key by its two pieces, or leaves it alone when the key is its min (both saves hit the same `_id`) |
| Chunks.SplitKeepsPartitionAndOwners | fake_balancer.py:30-40 | a split keeps the catalog well-formed, and every key keeps its owner |
| Chunks.SplitMakesBoundary | fake_balancer.py:30-40 | after a split at k, the chunk holding k is the right piece, which begins at k |
| Chunks.SplitAtBoundaryNoChange | fake_balancer.py:30-40 | a split at the min of a chunk changes nothing |
| Chunks.SplitIdempotent | fake_balancer.py:30-40 | splitting twice at the same key is splitting once |
| Chunks.SplitKeepsOthers | fake_balancer.py:30-40 | the chunks that do not hold the key stay, and so do the pieces |
| Chunks.AfterMove | fake_balancer.py:42-49 | a move keeps every chunk's bounds, gives the chunk holding the key the destination shard, and leaves every other chunk as it was |
| Chunks.MoveOwners | fake_balancer.py:42-49 | after a move, exactly the keys of the moved chunk are owned by the destination; every other key keeps its owner |
| Chunks.MoveIdempotent | fake_balancer.py:42-49 | moving the same chunk to the same shard twice is moving it once |
| Chunks.MoveKeepsPartition | fake_balancer.py:42-49 | a move keeps the catalog well-formed and covering the same keys |
| FakeBalancer.Catalog.SplitChunk | fake_balancer.py:30-40 | the method returns the pieces of `SplitPieces` and leaves the catalog `AfterSplit`, which stays well-formed |
| FakeBalancer.Catalog.MoveChunk | fake_balancer.py:42-49 | the method leaves the catalog `AfterMove`. It returns nothing exactly when no chunk holds the key; otherwise it returns the destination's document count over the chunk's bounds |
| Balancer.SplitPoint | balancer.py:57-59 | the split point lies in [min, max), and strictly above min, leaving room for the remaining parts, when the range is at least as wide as the number of divisions |
| Balancer.Divide | balancer.py:53-63 | dividing gives one part for fewer than 2 divisions, and otherwise exactly `divisions` parts |
| Balancer.DivideShape | balancer.py:53-63 | the parts run from the chunk's min to its max without gaps. The first keeps the chunk's `_id`; each other part gets the `_id` of its min; all keep ns and shard |
| Balancer.DivideNonEmpty | balancer.py:53-63 | when the chunk is at least as wide as the number of divisions, no part is empty |
| Balancer.DivideRun | balancer.py:53-63 | the parts of a well-formed chunk form a gap-free run of well-formed chunks |
| Balancer.KeptMembers | balancer.py:53-63 | the parts that remain as chunks are exactly the non-empty parts |
| Balancer.DivideWithin | balancer.py:53-63 | every part of a non-empty chunk lies within the chunk's bounds |
| Balancer.KeptRun | balancer.py:53-63 | the non-empty parts of a run form a well-formed catalog spanning the same keys |
| Balancer.DividedPartition | balancer.py:53-63 | putting the non-empty parts in the chunk's place keeps the catalog well-formed |
| Balancer.DivideChunk | balancer.py:46-65 | returns nothing, changing nothing, exactly when no chunk holds the key. Otherwise it returns `Divide` of that chunk, and the catalog holds the chunk's non-empty parts in its place |
| Balancer.DivideAndMove | balancer.py:106-110 | the catalog ends up with the chunk's bounds replaced by those of its non-empty parts. Each non-empty part j is a chunk on shards[j], and every key of part j is owned by shards[j]. The count returned is `Moves`: the sum, over the moves, of the documents the destination holds in the bounds of the chunk moved. Other keys keep their owner, other chunks stay, and with no shard nothing changes |
| Balancer.MoveParts | balancer.py:108-110 | after the moves of one divided chunk the bounds are still those of the division, part j is owned by shards[j], keys outside the chunk keep their owner, and the count is `Moves` over all shards |
| Balancer.MoveOne | balancer.py:109-110 | move i puts the keys of the chunk holding part i's min on shards[i] and adds move_chunk's count for that chunk to the sum |
| Balancer.MovesDoneStep | balancer.py:109-110 | the chunk move i finds has the bounds of part `Holder(i)`, and after the move parts 0..i are on their shards |
| Balancer.HolderUnique | balancer.py:109-110 | in a run of parts the one part holding part i's min is `Holder(i)`: part i when it is non-empty (or the last), else the holder of part i + 1, the empty part having been overwritten |
| Balancer.PartsPlaced | balancer.py:108-110 | once part j's keys are on shards[j] for every j, each non-empty part is a chunk of the catalog with shards[j] as its shard |
| Balancer.RangeWindow | balancer.py:95 | with start <= end, the chunks found are consecutive catalog chunks, from the chunk of start to the chunk of end |
| Balancer.TrimStart | balancer.py:100-101 | when the first chunk found begins before start and does not end at start, the catalog becomes the old one split at start and the list gets that split's right part in first place; otherwise neither changes. Owners and coverage are as before. With start <= end, the list is a run of the catalog beginning exactly at start, whose last chunk still holds end and has the max of the chunk that held end |
| Balancer.TrimEnd | balancer.py:102-103 | when the last chunk of the list ends after end and does not begin at end, the catalog becomes the old one split at end and the list gets that split's left part in last place; otherwise neither changes. Owners are as before. With start <= end, the list is a gap-free run from start to `RangeEnd`, each chunk of it in the catalog and with the min it had |
| Balancer.DivideRange | balancer.py:105-111 | after the loop, every key of a divided chunk is owned by a shard of the list, every other key keeps its owner, and coverage is unchanged. The sum is `RangeMoves`, the move counts of every divided chunk added up. When the list is a run of the catalog, the chunks divided are exactly the list, and each has its part j on shards[j]. Every chunk of the catalog that was not divided is still in it, and with no shard the catalog is unchanged |
| Balancer.DivideLoop | balancer.py:105-111 | the loop runs over the whole list and ends with its invariant `RangeLoop` for every chunk of the list |
| Balancer.RangeLoopDone | balancer.py:105-111 | the loop invariant for the whole list gives what DivideRange promises: coverage and owners, the sum, the chunks divided (the list itself when it is a run of the catalog), and every chunk not divided kept |
| Balancer.DivideOne | balancer.py:106-110 | one pass of the loop divides and moves the chunk holding the list chunk's min and keeps the loop invariant `RangeLoop` |
| Balancer.RangeLoopStep | balancer.py:106-110 | dividing and moving one more chunk keeps coverage, ownership, the running sum and the placement of the chunks divided before |
| Balancer.PlacedKept | balancer.py:106-110 | dividing and moving a chunk that lies after chunk y leaves y's parts where they were |
| Balancer.PositionedStep | balancer.py:106-110 | over consecutive chunks, every chunk divided so far keeps its part j on shards[j] |
| Balancer.RangeMovesNext | balancer.py:105-110 | the total grows by the count of each chunk's moves |
| Balancer.BalanceStep | balancer.py:106-110 | one more chunk divided and moved keeps the loop's ownership invariant |
| Balancer.BalanceRange | balancer.py:91-111 | returns None, changing nothing, exactly when no chunks are found. The catalog stays well-formed and covers the same keys. Otherwise the total is `RangeMoves`, the sum of the counts of all the moves. With start <= end, the chunks divided form a run from start to `RangeEnd`, each has its part j on shards[j], every key of that span ends up on a shard of the list (when there is one), and every key outside keeps its owner. Also (`RangeKept`): one chunk is divided per chunk found, after the first at the same mins; every chunk outside the span is still in the catalog, and so are the left part of the chunk holding start and the right part of the chunk holding end when the cuts make them; with no shard the divided chunks stay as they are |
| Balancer.BalanceResult | balancer.py:91-111 | the two cuts, the loop and `RangeKept` together give `RangeBalanced` |
| Balancer.NothingFound | balancer.py:95-98 | when start or end lies in no chunk, balance_range changes nothing and returns None, as `RangeBalanced` states |
| Balancer.CutsKept | balancer.py:95-111 | after the cuts and the loop, with start <= end, `RangeKept` holds of the list divided |
| Balancer.KeptOutside | balancer.py:100-111 | every chunk lying wholly before start or wholly after `RangeEnd` is neither cut nor divided, so it is still in the catalog |
| Balancer.KeptFirst | balancer.py:100-101 | when the chunk holding start begins before start, its left part up to start stays in the catalog |
| Balancer.KeptLast | balancer.py:102-103 | when the span stops short of the max of the chunk holding end, that chunk's right part from end, with the `_id` of a chunk starting at end, stays in the catalog |
| Balancer.RangeEnd | balancer.py:100-103 | the span balanced ends at end or above it, but never past the max of the chunk holding end |
| Balancer.SplitKeepsCoverage | balancer.py:100-103 | a cut keeps the catalog well-formed, covering the same keys with the same owners |
| PreSplitters.Pending | presplitter.py:17-30 | `_check_id` with no logger says every id is done, so nothing is pending; with a logger a marker is pending exactly when the logger does not hold it |
| PreSplitters.MinIdLeast | presplitter.py:36 | `min(mins)` is one of the markers and no marker is less |
| PreSplitters.Markers | presplitter.py:24-29 | three markers, midnight ≤ noon ≤ next midnight in key order, each the first id of its 2-byte prefix |
| PreSplitters.EndKey | presplitter.py:26-37 | the end key is the last id of its 2-byte prefix and lies above the next-midnight marker |
| PreSplitters.MarkersBelowEnd | presplitter.py:24-37 | midnight ≤ noon ≤ next midnight in key order, and every marker is below the max-rounded key of the next midnight |
| PreSplitters.StartBelowEnd | presplitter.py:36-37 | the start balance_range gets is below its end |
| PreSplitters.RecordedSpec | presplitter.py:40-44 | logging the pending markers adds exactly them, start with the count of balance_range and the others with 0, and keeps every entry already there |
| PreSplitters.PresplitOutcome | presplitter.py:30-44 | the balance_range run and the logging loop together give what `Presplit` promises |
| PreSplitters.SecondPresplitIdle | presplitter.py:30-44 | once the pending markers are logged, no marker of the day is pending: a second presplit of the day does nothing |
| PreSplitters.PreSplitter.LogId | presplitter.py:20-21 | with a logger, the marker is stored with its count and is checked from then on; without one nothing changes |
| PreSplitters.PreSplitter.LogMarkers | presplitter.py:40-44 | the loop logs every pending marker in turn, giving `Recorded` |
| PreSplitters.PreSplitter.Presplit | presplitter.py:23-44 | with nothing pending (always, with no logger) neither the catalog nor the logger changes. Otherwise there is one balance_range run from the least pending marker, below the max-rounded next midnight: it takes effect as `RangeBalanced` states, `RangeKept` included (which chunks the catalog then holds), and the logger becomes `Recorded` with that run's count for the start marker. Either way every marker of the day ends up checked |

## Left out

- pymongo, the network and the shards' data. The document count of
  `_count_for_chunk` (fake_balancer.py:23-28) is an uninterpreted function
  `docCount` of shard and bounds. `_collection_for_chunk` and its
  connection cache are not part of this model.
- The real `Balancer.split_chunk` and `move_chunk` (balancer.py:24-44) and
  their admin commands. The model runs the balancing services against the
  fake balancer's catalog, as the fake balancer does. The `OperationFailure`
  warning path is therefore absent.
- A missing chunk. In fake_balancer.py, `split_chunk` and `move_chunk` fail
  with a Python error when no chunk holds the key. `divide_chunk` then
  fails only with two or more divisions, when it reads the missing chunk's
  min (balancer.py:57). With fewer it returns `[None]` without an error
  (balancer.py:54-56). The model returns `None` in all these cases,
  `DivideChunk` included, and leaves the catalog alone.
- Other namespaces. The `find` in `chunks_for_range` (balancer.py:81-83)
  does not filter on `ns`, unlike `chunk_for_key` (balancer.py:19-21). If
  the config collection held chunks of other namespaces whose min lay
  between the two end chunks' mins, the code would yield those chunks and
  divide them too. The model's catalog holds the chunks of one namespace
  only, so `ChunksForRange` never returns such chunks.
- Chunk bounds are plain integers. MongoDB's `MinKey`/`MaxKey` bounds of
  the first and last chunk are not modelled; any integer bound stands in
  for them.
- The catalog is kept well-formed: chunks in key order, without gaps
  between them, each with the `_id` mongo derives from its min. Catalogs
  that are not are outside the model.
- Dates and time zones. A date is its number of days since 1970-01-01, and
  its midnight is `day * 86400` UTC seconds, as `bson` reads naive
  datetimes. Days whose next midnight does not fit the 4-byte timestamp
  are excluded by `DayCount`. `generation_time` (objectid.py:28-32) and
  the rest of the calendar arithmetic are not part of this model.
- The `d` field (`time.time()`) saved by `log_id` is not modelled. Only
  the marker and its count are.
- Logging calls (`logging.info`/`warning`) are not modelled.
- Balancer.BalanceRange: the total is stated as a sum of `docCount`
  values (`RangeMoves`), and `docCount` is uninterpreted. The numbers
  themselves depend on the shards' data, which the model does not hold.
  The `or 0` for a move that returns None (the real balancer's
  `move_chunk`) does not arise with the fake balancer.
- Balancer.SplitPoint: split points are exact integer arithmetic on the
  bounds' numbers, which is what the corrected, zero-padded conversion of
  Findings gives (`ObjectIds.AddSubPaddedRoundTrip`). With the code as
  written, a bound below 16^23 makes `from_int` raise InvalidId or build a
  different id (`ObjectIds.FromIntLosesSmallIds`); the balancer model does
  not capture that failure. Bounds of 24 hex digits agree with the code
  (`ObjectIds.SplitPointAgrees`); the ids the tool produces have a first
  byte of at least 0x10 for every timestamp after mid-1978.
- Balancer.BalanceRange: with start > end, only the general guarantees
  hold: coverage is unchanged, and every divided chunk's keys end up on the
  shards. What was divided is not described further.
- Balancer.BalanceResult: like BalanceRange, it says nothing more for
  start > end than the general guarantees above.
- Balancer.RangeEnd: when end is the min of its chunk, or start == end,
  balance_range keeps that whole chunk in the list. The span balanced then
  runs to that chunk's max rather than to end. The model states the code's
  behaviour.
- A marker is meant to be written once, but mongo_logger.py:10 saves it
  with `save`, which overwrites. The model follows the code: `log_id` is a
  map update. presplit logs only pending markers, so an existing entry is
  never rewritten (`RecordedSpec`).

## Findings

| source | as written | input that shows it | evidently intended | confidence | as-written member | corrected member |
|---|---|---|---|---|---|---|
| objectid.py:37-39 | `from_int` builds the id from `hex(x)[2:]` without padding. A text of 12 characters is taken as 12 raw bytes, and one of any other length but 24 is refused | the id `0f0000000000000000000000`, whose number has 23 hex digits: `from_int(int(o))` raises InvalidId instead of giving back o; likewise `o + 0` for that id | zero-pad to 24 digits (`'%024x' % x`), so that every 12-byte number round-trips | not executed; high (follows from the text of the code and the `bson` constructor) | ObjectIds.FromIntLosesSmallIds | ObjectIds.FromIntPaddedExact |
