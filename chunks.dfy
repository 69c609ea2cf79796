/**
 * The chunk catalog of one sharded namespace, the two catalog queries of
 * balancer.py (the chunk holding a key, the chunks between two keys) and the
 * effect on the catalog of the two administrative commands, split and move,
 * as fake_balancer.py performs them on its in-memory copy of the catalog.
 *
 * Keys are the numbers of the shard-key values (for ObjectId keys, the 96-bit
 * number of the id; see module ObjectIds). A catalog is the sequence of the
 * namespace's chunk documents listed by ascending `min`.
 */
module Chunks {
  import opened Wrappers

  type Key = int
  type ShardId = string

  /** The `_id` of a chunk document, '<ns>-<field>_<repr(key)>', kept as its
      three parts. */
  datatype ChunkId = ChunkId(ns: string, field: string, at: Key)

  /** A chunk document: the half-open key range [min, max) and its owner. */
  datatype Chunk = Chunk(id: ChunkId, ns: string, min: Key, max: Key, shard: ShardId)

  /** The half-open test of chunk_for_key: `min <= key < max`. */
  predicate Contains(c: Chunk, k: Key)
  {
    c.min <= k < c.max
  }

  /** A chunk of namespace ns with shard-key field `field`: non-empty, and with
      the `_id` the catalog gives a chunk starting at its min. */
  predicate WellFormed(c: Chunk, ns: string, field: string)
  {
    c.min < c.max && c.ns == ns && c.id == ChunkId(ns, field, c.min)
  }

  /** The catalog invariant: every chunk well formed, each ending where the
      next begins, so that the chunks partition [cs[0].min, cs[|cs|-1].max)
      with no gap and no overlap. */
  predicate Partition(cs: seq<Chunk>, ns: string, field: string)
  {
    && (forall i :: 0 <= i < |cs| ==> WellFormed(cs[i], ns, field))
    && (forall i :: 0 < i < |cs| ==> cs[i - 1].max == cs[i].min)
  }

  /** Chunk i ends at or before chunk j begins whenever i < j. */
  lemma {:induction false} Ordered(cs: seq<Chunk>, ns: string, field: string, i: nat, j: nat)
    requires Partition(cs, ns, field) && i < j < |cs|
    ensures cs[i].max <= cs[j].min
  {
    if i + 1 < j {
      Ordered(cs, ns, field, i, j - 1);
    }
  }

  /** Two different chunks of a partition never hold the same key. */
  lemma Disjoint(cs: seq<Chunk>, ns: string, field: string, i: nat, j: nat, k: Key)
    requires Partition(cs, ns, field) && i < |cs| && j < |cs| && i != j
    requires Contains(cs[i], k)
    ensures !Contains(cs[j], k)
  {
    if i < j {
      Ordered(cs, ns, field, i, j);
    } else {
      Ordered(cs, ns, field, j, i);
    }
  }

  // ---------------------------------------------------------------------------
  // chunk_for_key

  /** The position of the first chunk holding k, as `find_one` returns it. */
  function IndexForKey(cs: seq<Chunk>, k: Key): (r: Option<nat>)
    ensures r.Some? ==> r.value < |cs| && Contains(cs[r.value], k)
    ensures r.Some? ==> forall j :: 0 <= j < r.value ==> !Contains(cs[j], k)
    ensures r.None? ==> forall j :: 0 <= j < |cs| ==> !Contains(cs[j], k)
  {
    if cs == [] then None
    else if Contains(cs[0], k) then Some(0)
    else match IndexForKey(cs[1..], k)
      case None => None
      case Some(j) => Some(j + 1)
  }

  /** chunk_for_key: the chunk whose [min, max) holds k, or nothing when no
      chunk does. */
  function ChunkForKey(cs: seq<Chunk>, k: Key): (r: Option<Chunk>)
    ensures r.Some? ==> r.value in cs && Contains(r.value, k)
    ensures r.None? <==> forall c :: c in cs ==> !Contains(c, k)
  {
    match IndexForKey(cs, k)
    case None => None
    case Some(i) => Some(cs[i])
  }

  predicate Covered(cs: seq<Chunk>, k: Key)
  {
    IndexForKey(cs, k).Some?
  }

  /** The shard that owns key k, if a chunk holds k. */
  function OwnerOf(cs: seq<Chunk>, k: Key): Option<ShardId>
  {
    match ChunkForKey(cs, k)
    case None => None
    case Some(c) => Some(c.shard)
  }

  /** A key has an owner exactly when a chunk of the catalog holds it, and the
      owner is the shard of such a chunk. */
  lemma OwnerOfHolder(cs: seq<Chunk>, k: Key)
    ensures OwnerOf(cs, k).None? <==> forall c :: c in cs ==> !Contains(c, k)
    ensures OwnerOf(cs, k).Some? ==> exists c :: c in cs && Contains(c, k) && c.shard == OwnerOf(cs, k).value
  {
    if OwnerOf(cs, k).Some? {
      var c := ChunkForKey(cs, k).value;
      assert c in cs && Contains(c, k) && c.shard == OwnerOf(cs, k).value;
    }
  }

  /** Key k is held by a chunk owned by one of the shards. */
  predicate OwnedBy(cs: seq<Chunk>, k: Key, shards: seq<ShardId>)
  {
    OwnerOf(cs, k).Some? && OwnerOf(cs, k).value in shards
  }

  /** In a partition the chunk holding a key is unique: the lookup finds
      exactly the chunk that holds it. */
  lemma IndexForKeyUnique(cs: seq<Chunk>, ns: string, field: string, i: nat, k: Key)
    requires Partition(cs, ns, field) && i < |cs| && Contains(cs[i], k)
    ensures IndexForKey(cs, k) == Some(i)
    ensures ChunkForKey(cs, k) == Some(cs[i])
    ensures OwnerOf(cs, k) == Some(cs[i].shard)
  {
    var j := IndexForKey(cs, k).value;
    if j != i {
      Disjoint(cs, ns, field, i, j, k);
    }
  }

  // ---------------------------------------------------------------------------
  // Catalogs with the same chunk boundaries

  /** a and b list the same chunks, owners aside. */
  predicate SameBounds(a: seq<Chunk>, b: seq<Chunk>)
  {
    |a| == |b| &&
    forall i :: 0 <= i < |a| ==> a[i].(shard := b[i].shard) == b[i]
  }

  lemma {:induction false} SameBoundsIndex(a: seq<Chunk>, b: seq<Chunk>, k: Key)
    requires SameBounds(a, b)
    ensures IndexForKey(a, k) == IndexForKey(b, k)
  {
    if a != [] {
      assert a[0].min == b[0].min && a[0].max == b[0].max;
      SameBoundsIndex(a[1..], b[1..], k);
    }
  }

  lemma SameBoundsPartition(a: seq<Chunk>, b: seq<Chunk>, ns: string, field: string)
    requires SameBounds(a, b) && Partition(b, ns, field)
    ensures Partition(a, ns, field)
  {
    forall i | 0 <= i < |a|
      ensures WellFormed(a[i], ns, field)
    {
      assert a[i].(shard := b[i].shard) == b[i];
    }
    forall i | 0 < i < |a|
      ensures a[i - 1].max == a[i].min
    {
      assert a[i - 1].(shard := b[i - 1].shard) == b[i - 1];
      assert a[i].(shard := b[i].shard) == b[i];
    }
  }

  // ---------------------------------------------------------------------------
  // chunks_for_range

  /** The chunks whose min lies strictly between lo and hi, in catalog order
      (the query of chunks_for_range, sorted by min). */
  function Between(cs: seq<Chunk>, lo: Key, hi: Key): (r: seq<Chunk>)
    ensures forall c :: c in r ==> c in cs && lo < c.min < hi
  {
    if cs == [] then []
    else (if lo < cs[0].min < hi then [cs[0]] else []) + Between(cs[1..], lo, hi)
  }

  /** chunks_for_range(start, end): nothing when either end has no chunk; the
      one chunk when both ends fall in the same chunk; otherwise the start
      chunk, the chunks whose min lies strictly between the two chunks' mins,
      and the end chunk. */
  function ChunksForRange(cs: seq<Chunk>, start: Key, end: Key): (r: seq<Chunk>)
    ensures r == [] <==> !Covered(cs, start) || !Covered(cs, end)
    ensures r != [] ==> r[0] == ChunkForKey(cs, start).value
    ensures r != [] && ChunkForKey(cs, start).value.id == ChunkForKey(cs, end).value.id ==> |r| == 1
    ensures r != [] && ChunkForKey(cs, start).value.id != ChunkForKey(cs, end).value.id ==>
      |r| >= 2 && r[|r| - 1] == ChunkForKey(cs, end).value
    ensures forall c :: c in r ==> c in cs
  {
    match (ChunkForKey(cs, start), ChunkForKey(cs, end))
    case (Some(first), Some(last)) =>
      if first.id == last.id then [first]
      else [first] + Between(cs, first.min, last.min) + [last]
    case _ => []
  }

  lemma {:induction false} BetweenAppend(a: seq<Chunk>, b: seq<Chunk>, lo: Key, hi: Key)
    ensures Between(a + b, lo, hi) == Between(a, lo, hi) + Between(b, lo, hi)
  {
    if a == [] {
      assert a + b == b;
    } else {
      assert (a + b)[1..] == a[1..] + b;
      BetweenAppend(a[1..], b, lo, hi);
    }
  }

  lemma {:induction false} BetweenAll(s: seq<Chunk>, lo: Key, hi: Key)
    requires forall i :: 0 <= i < |s| ==> lo < s[i].min < hi
    ensures Between(s, lo, hi) == s
  {
    if s != [] {
      BetweenAll(s[1..], lo, hi);
    }
  }

  lemma {:induction false} BetweenNone(s: seq<Chunk>, lo: Key, hi: Key)
    requires forall i :: 0 <= i < |s| ==> !(lo < s[i].min < hi)
    ensures Between(s, lo, hi) == []
  {
    if s != [] {
      BetweenNone(s[1..], lo, hi);
    }
  }

  lemma RunHead(cs: seq<Chunk>, ns: string, field: string, i: nat, j: nat, a: seq<Chunk>)
    requires Partition(cs, ns, field) && i < j < |cs| && a == cs[..i + 1]
    ensures forall m :: 0 <= m < |a| ==> !(cs[i].min < a[m].min < cs[j].min)
  {
    forall m | 0 <= m < |a|
      ensures a[m].min <= cs[i].min
    {
      assert a[m] == cs[m];
      if m < i {
        Ordered(cs, ns, field, m, i);
      }
    }
  }

  lemma RunMiddle(cs: seq<Chunk>, ns: string, field: string, i: nat, j: nat, b: seq<Chunk>)
    requires Partition(cs, ns, field) && i < j < |cs| && b == cs[i + 1..j]
    ensures forall m :: 0 <= m < |b| ==> cs[i].min < b[m].min < cs[j].min
  {
    forall m | 0 <= m < |b|
      ensures cs[i].min < b[m].min < cs[j].min
    {
      assert b[m] == cs[i + 1 + m];
      Ordered(cs, ns, field, i, i + 1 + m);
      Ordered(cs, ns, field, i + 1 + m, j);
    }
  }

  lemma RunTailAbove(cs: seq<Chunk>, ns: string, field: string, i: nat, j: nat, c: seq<Chunk>)
    requires Partition(cs, ns, field) && i < j < |cs| && c == cs[j..]
    ensures forall m :: 0 <= m < |c| ==> !(cs[i].min < c[m].min < cs[j].min)
  {
    forall m | 0 <= m < |c|
      ensures cs[j].min <= c[m].min
    {
      assert c[m] == cs[j + m];
      if m > 0 {
        Ordered(cs, ns, field, j, j + m);
      }
    }
  }

  /** On a partition, the chunks whose min lies strictly between the mins of
      chunks i < j are the chunks between them. */
  lemma BetweenRun(cs: seq<Chunk>, ns: string, field: string, i: nat, j: nat)
    requires Partition(cs, ns, field) && i < j < |cs|
    ensures Between(cs, cs[i].min, cs[j].min) == cs[i + 1..j]
  {
    RunHead(cs, ns, field, i, j, cs[..i + 1]);
    RunMiddle(cs, ns, field, i, j, cs[i + 1..j]);
    RunTailAbove(cs, ns, field, i, j, cs[j..]);
    BetweenParts(cs[..i + 1], cs[i + 1..j], cs[j..], cs[i].min, cs[j].min);
    SplitThree(cs, i + 1, j);
  }

  lemma BetweenParts(a: seq<Chunk>, b: seq<Chunk>, c: seq<Chunk>, lo: Key, hi: Key)
    requires forall m :: 0 <= m < |a| ==> !(lo < a[m].min < hi)
    requires forall m :: 0 <= m < |b| ==> lo < b[m].min < hi
    requires forall m :: 0 <= m < |c| ==> !(lo < c[m].min < hi)
    ensures Between(a + b + c, lo, hi) == b
  {
    BetweenNone(a, lo, hi);
    BetweenAll(b, lo, hi);
    BetweenNone(c, lo, hi);
    BetweenAppend(a + b, c, lo, hi);
    BetweenAppend(a, b, lo, hi);
    assert [] + b + [] == b;
  }

  lemma RunShape<T>(s: seq<T>, i: nat, j: nat)
    requires i < j < |s|
    ensures s[i..j + 1] == [s[i]] + s[i + 1..j] + [s[j]]
  {
  }

  lemma SplitThree<T>(s: seq<T>, p: nat, q: nat)
    requires p <= q <= |s|
    ensures s == s[..p] + s[p..q] + s[q..]
  {
  }

  /** On a partition, with the start key in chunk i and the end key in chunk
      j >= i, chunks_for_range yields exactly the run of chunks i to j. */
  lemma ChunksForRangeRun(cs: seq<Chunk>, ns: string, field: string, start: Key, end: Key, i: nat, j: nat)
    requires Partition(cs, ns, field) && i <= j < |cs|
    requires Contains(cs[i], start) && Contains(cs[j], end)
    ensures ChunksForRange(cs, start, end) == cs[i..j + 1]
  {
    IndexForKeyUnique(cs, ns, field, i, start);
    IndexForKeyUnique(cs, ns, field, j, end);
    if i < j {
      assert cs[i].id != cs[j].id by {
        Ordered(cs, ns, field, i, j);
      }
      BetweenRun(cs, ns, field, i, j);
      RunShape(cs, i, j);
    }
  }

  /** With start <= end on a partition, the chunk holding start comes no later
      than the chunk holding end. */
  lemma StartChunkFirst(cs: seq<Chunk>, ns: string, field: string, start: Key, end: Key, i: nat, j: nat)
    requires Partition(cs, ns, field) && i < |cs| && j < |cs| && start <= end
    requires Contains(cs[i], start) && Contains(cs[j], end)
    ensures i <= j
  {
    if j < i {
      Ordered(cs, ns, field, j, i);
    }
  }

  // ---------------------------------------------------------------------------
  // Replacing one chunk by a run of chunks with the same span

  /** Overwriting s[i] with x and then either overwriting it again with y,
      or inserting y right after it. */
  lemma SaveTwice<T>(s: seq<T>, i: nat, x: T, y: T)
    requires i < |s|
    ensures s[i := x][i := y] == s[..i] + [y] + s[i + 1..]
    ensures s[i := x][..i + 1] + [y] + s[i := x][i + 1..] == s[..i] + [x, y] + s[i + 1..]
  {
    var t := s[i := x];
    assert t[..i + 1] == s[..i] + [x];
    assert t[i + 1..] == s[i + 1..];
  }

  lemma SpliceAt<T>(s: seq<T>, i: nat, mid: seq<T>)
    requires i < |s|
    ensures |s[..i] + mid + s[i + 1..]| == |s| - 1 + |mid|
    ensures forall t :: 0 <= t < i ==> (s[..i] + mid + s[i + 1..])[t] == s[t]
    ensures forall m :: 0 <= m < |mid| ==> (s[..i] + mid + s[i + 1..])[i + m] == mid[m]
    ensures forall u :: i < u < |s| ==> (s[..i] + mid + s[i + 1..])[u - 1 + |mid|] == s[u]
  {
  }

  /** The chunks of a non-empty partition lie within its first min and last max. */
  lemma WithinSpan(cs: seq<Chunk>, ns: string, field: string, m: nat)
    requires Partition(cs, ns, field) && m < |cs|
    ensures cs[0].min <= cs[m].min && cs[m].max <= cs[|cs| - 1].max
  {
    if m > 0 {
      Ordered(cs, ns, field, 0, m);
    }
    if m < |cs| - 1 {
      Ordered(cs, ns, field, m, |cs| - 1);
    }
  }

  /** A non-empty partition holds every key from its first min to its last max. */
  lemma {:induction false} CoverIndex(cs: seq<Chunk>, ns: string, field: string, q: Key) returns (m: nat)
    requires Partition(cs, ns, field) && cs != [] && cs[0].min <= q < cs[|cs| - 1].max
    ensures m < |cs| && Contains(cs[m], q)
  {
    if cs[|cs| - 1].min <= q {
      m := |cs| - 1;
    } else {
      var p := cs[..|cs| - 1];
      assert Partition(p, ns, field);
      m := CoverIndex(p, ns, field, q);
    }
  }

  /** Replacing chunk i of a partition by a partition of the same span gives a
      partition. */
  lemma SplicePartition(cs: seq<Chunk>, ns: string, field: string, i: nat, mid: seq<Chunk>)
    requires Partition(cs, ns, field) && i < |cs|
    requires Partition(mid, ns, field) && mid != []
    requires mid[0].min == cs[i].min && mid[|mid| - 1].max == cs[i].max
    ensures Partition(cs[..i] + mid + cs[i + 1..], ns, field)
  {
    var r := cs[..i] + mid + cs[i + 1..];
    SpliceAt(cs, i, mid);
    forall t | 0 <= t < |r|
      ensures WellFormed(r[t], ns, field)
    {
      if t < i {
      } else if t < i + |mid| {
        assert r[i + (t - i)] == mid[t - i];
      } else {
        assert r[(t - |mid| + 1) - 1 + |mid|] == cs[t - |mid| + 1];
      }
    }
    forall t | 0 < t < |r|
      ensures r[t - 1].max == r[t].min
    {
      if t < i {
      } else if t == i {
        assert r[i + 0] == mid[0];
      } else if t < i + |mid| {
        assert r[i + (t - 1 - i)] == mid[t - 1 - i];
        assert r[i + (t - i)] == mid[t - i];
      } else if t == i + |mid| {
        assert r[i + (|mid| - 1)] == mid[|mid| - 1];
        assert r[(i + 1) - 1 + |mid|] == cs[i + 1];
      } else {
        assert r[(t - |mid|) - 1 + |mid|] == cs[t - |mid|];
        assert r[(t - |mid| + 1) - 1 + |mid|] == cs[t - |mid| + 1];
      }
    }
  }

  /** After such a replacement a key inside the replaced chunk is owned as the
      run says, and every other key keeps its owner. */
  lemma SpliceOwners(cs: seq<Chunk>, ns: string, field: string, i: nat, mid: seq<Chunk>, q: Key)
    requires Partition(cs, ns, field) && i < |cs|
    requires Partition(mid, ns, field) && mid != []
    requires mid[0].min == cs[i].min && mid[|mid| - 1].max == cs[i].max
    ensures OwnerOf(cs[..i] + mid + cs[i + 1..], q) ==
      if Contains(cs[i], q) then OwnerOf(mid, q) else OwnerOf(cs, q)
  {
    SpliceAt(cs, i, mid);
    SplicePartition(cs, ns, field, i, mid);
    if Contains(cs[i], q) {
      SpliceOwnersInside(cs, ns, field, i, mid, q);
    } else if Covered(cs, q) {
      SpliceOwnersOutside(cs, ns, field, i, mid, q);
    } else {
      SpliceOwnersUncovered(cs, ns, field, i, mid, q);
    }
  }

  lemma SpliceOwnersInside(cs: seq<Chunk>, ns: string, field: string, i: nat, mid: seq<Chunk>, q: Key)
    requires Partition(cs, ns, field) && i < |cs| && Contains(cs[i], q)
    requires Partition(mid, ns, field) && mid != []
    requires mid[0].min == cs[i].min && mid[|mid| - 1].max == cs[i].max
    requires Partition(cs[..i] + mid + cs[i + 1..], ns, field)
    ensures OwnerOf(cs[..i] + mid + cs[i + 1..], q) == OwnerOf(mid, q)
  {
    var r := cs[..i] + mid + cs[i + 1..];
    SpliceAt(cs, i, mid);
    var m := CoverIndex(mid, ns, field, q);
    IndexForKeyUnique(mid, ns, field, m, q);
    assert r[i + m] == mid[m];
    IndexForKeyUnique(r, ns, field, i + m, q);
  }

  lemma SpliceOwnersOutside(cs: seq<Chunk>, ns: string, field: string, i: nat, mid: seq<Chunk>, q: Key)
    requires Partition(cs, ns, field) && i < |cs| && !Contains(cs[i], q) && Covered(cs, q)
    requires Partition(cs[..i] + mid + cs[i + 1..], ns, field)
    ensures OwnerOf(cs[..i] + mid + cs[i + 1..], q) == OwnerOf(cs, q)
  {
    var t := IndexForKey(cs, q).value;
    IndexForKeyUnique(cs, ns, field, t, q);
    SpliceKeeps(cs, ns, field, i, mid, t, q);
  }

  lemma SpliceKeeps(cs: seq<Chunk>, ns: string, field: string, i: nat, mid: seq<Chunk>, t: nat, q: Key)
    requires i < |cs| && t < |cs| && t != i && Contains(cs[t], q)
    requires Partition(cs[..i] + mid + cs[i + 1..], ns, field)
    ensures OwnerOf(cs[..i] + mid + cs[i + 1..], q) == Some(cs[t].shard)
  {
    var r := cs[..i] + mid + cs[i + 1..];
    SpliceAt(cs, i, mid);
    var u := if t < i then t else t - 1 + |mid|;
    assert r[u] == cs[t];
    IndexForKeyUnique(r, ns, field, u, q);
  }

  lemma SpliceOwnersUncovered(cs: seq<Chunk>, ns: string, field: string, i: nat, mid: seq<Chunk>, q: Key)
    requires Partition(cs, ns, field) && i < |cs| && !Covered(cs, q)
    requires Partition(mid, ns, field) && mid != []
    requires mid[0].min == cs[i].min && mid[|mid| - 1].max == cs[i].max
    ensures OwnerOf(cs[..i] + mid + cs[i + 1..], q) == None
  {
    var r := cs[..i] + mid + cs[i + 1..];
    SpliceAt(cs, i, mid);
    forall t | 0 <= t < |r|
      ensures !Contains(r[t], q)
    {
      if t < i {
        assert !Contains(cs[t], q);
      } else if t < i + |mid| {
        assert r[i + (t - i)] == mid[t - i];
        WithinSpan(mid, ns, field, t - i);
        assert !Contains(cs[i], q);
      } else {
        assert r[(t - |mid| + 1) - 1 + |mid|] == cs[t - |mid| + 1];
        assert !Contains(cs[t - |mid| + 1], q);
      }
    }
    assert forall c :: c in r ==> !Contains(c, q);
  }

  // ---------------------------------------------------------------------------
  // split_chunk and move_chunk on the in-memory catalog

  /** The two chunks split_chunk(k) returns: the chunk holding k with its max
      set to k (same `_id`, same min), and a copy of it with its min set to k and
      the `_id` built from the namespace, the key field and k. Nothing when no
      chunk holds k, where the source fails on the missing chunk. */
  function SplitPieces(cs: seq<Chunk>, ns: string, field: string, k: Key): (r: Option<(Chunk, Chunk)>)
    ensures r.Some? <==> Covered(cs, k)
    ensures r.Some? ==> var c := ChunkForKey(cs, k).value;
      && r.value.0.id == c.id && r.value.0.min == c.min && r.value.0.max == k
      && r.value.1.id == ChunkId(ns, field, k) && r.value.1.min == k && r.value.1.max == c.max
      && r.value.0.shard == c.shard == r.value.1.shard && r.value.0.ns == c.ns == r.value.1.ns
  {
    match ChunkForKey(cs, k)
    case None => None
    case Some(c) => Some((c.(max := k), c.(min := k, id := ChunkId(ns, field, k))))
  }

  /** The catalog after split_chunk(k). Both pieces are saved by `_id`: the left
      one replaces the chunk; the right one is a new document, unless its `_id`
      is the chunk's own (a split at the chunk's own min), in which case the
      second save overwrites the first and the chunk is left as it was. */
  function AfterSplit(cs: seq<Chunk>, ns: string, field: string, k: Key): (r: seq<Chunk>)
    ensures !Covered(cs, k) ==> r == cs
    ensures Covered(cs, k) ==> |r| == |cs| || |r| == |cs| + 1
  {
    match IndexForKey(cs, k)
    case None => cs
    case Some(i) =>
      var c := cs[i];
      var right := c.(min := k, id := ChunkId(ns, field, k));
      if right.id == c.id then cs[..i] + [right] + cs[i + 1..]
      else cs[..i] + [c.(max := k), right] + cs[i + 1..]
  }

  /** The run that replaces the chunk at index i in AfterSplit. */
  lemma SplitRun(cs: seq<Chunk>, ns: string, field: string, k: Key) returns (i: nat, mid: seq<Chunk>)
    requires Partition(cs, ns, field) && Covered(cs, k)
    ensures i < |cs| && Contains(cs[i], k) && IndexForKey(cs, k) == Some(i)
    ensures AfterSplit(cs, ns, field, k) == cs[..i] + mid + cs[i + 1..]
    ensures Partition(mid, ns, field) && mid != []
    ensures mid[0].min == cs[i].min && mid[|mid| - 1].max == cs[i].max
    ensures forall x :: x in mid ==> x.shard == cs[i].shard
    ensures mid[|mid| - 1] == SplitPieces(cs, ns, field, k).value.1
    ensures cs[i].min < k ==> mid == [SplitPieces(cs, ns, field, k).value.0, SplitPieces(cs, ns, field, k).value.1]
    ensures cs[i].min == k ==> mid == [cs[i]]
  {
    i := IndexForKey(cs, k).value;
    var c := cs[i];
    var right := c.(min := k, id := ChunkId(ns, field, k));
    if right.id == c.id {
      mid := [right];
    } else {
      mid := [c.(max := k), right];
    }
  }

  /** A split keeps the catalog a partition and never changes which shard owns
      a key. */
  lemma SplitKeepsPartitionAndOwners(cs: seq<Chunk>, ns: string, field: string, k: Key)
    requires Partition(cs, ns, field)
    ensures Partition(AfterSplit(cs, ns, field, k), ns, field)
    ensures forall q :: OwnerOf(AfterSplit(cs, ns, field, k), q) == OwnerOf(cs, q)
  {
    if Covered(cs, k) {
      var i, mid := SplitRun(cs, ns, field, k);
      SplicePartition(cs, ns, field, i, mid);
      forall q
        ensures OwnerOf(AfterSplit(cs, ns, field, k), q) == OwnerOf(cs, q)
      {
        SpliceOwners(cs, ns, field, i, mid, q);
        if Contains(cs[i], q) {
          IndexForKeyUnique(cs, ns, field, i, q);
          var m := CoverIndex(mid, ns, field, q);
          IndexForKeyUnique(mid, ns, field, m, q);
          assert mid[m] in mid;
        }
      }
    }
  }

  /** After a split at k, k begins the chunk that holds it, and that chunk is
      the right piece split_chunk returned. */
  lemma SplitMakesBoundary(cs: seq<Chunk>, ns: string, field: string, k: Key)
    requires Partition(cs, ns, field) && Covered(cs, k)
    ensures ChunkForKey(AfterSplit(cs, ns, field, k), k) == Some(SplitPieces(cs, ns, field, k).value.1)
  {
    var i, mid := SplitRun(cs, ns, field, k);
    SplicePartition(cs, ns, field, i, mid);
    var r := AfterSplit(cs, ns, field, k);
    SpliceAt(cs, i, mid);
    assert r[i + (|mid| - 1)] == mid[|mid| - 1];
    IndexForKeyUnique(r, ns, field, i + |mid| - 1, k);
  }

  /** A split at the min of the chunk holding k changes nothing. */
  lemma SplitAtBoundaryNoChange(cs: seq<Chunk>, ns: string, field: string, k: Key)
    requires Partition(cs, ns, field) && Covered(cs, k) && ChunkForKey(cs, k).value.min == k
    ensures AfterSplit(cs, ns, field, k) == cs
  {
    var i, mid := SplitRun(cs, ns, field, k);
    SplitThree(cs, i, i + 1);
    assert cs[i..i + 1] == [cs[i]];
  }

  /** Splitting twice at the same key leaves the catalog as splitting once. */
  lemma SplitIdempotent(cs: seq<Chunk>, ns: string, field: string, k: Key)
    requires Partition(cs, ns, field)
    ensures AfterSplit(AfterSplit(cs, ns, field, k), ns, field, k) == AfterSplit(cs, ns, field, k)
  {
    if Covered(cs, k) {
      SplitKeepsPartitionAndOwners(cs, ns, field, k);
      SplitMakesBoundary(cs, ns, field, k);
      SplitAtBoundaryNoChange(AfterSplit(cs, ns, field, k), ns, field, k);
    }
  }

  /** A split leaves every chunk that does not hold k where it is, and puts the
      right piece (and, unless k is the chunk's min, the left piece) in the
      catalog. */
  lemma SplitKeepsOthers(cs: seq<Chunk>, ns: string, field: string, k: Key)
    requires Partition(cs, ns, field) && Covered(cs, k)
    ensures forall x :: x in cs && !Contains(x, k) ==> x in AfterSplit(cs, ns, field, k)
    ensures SplitPieces(cs, ns, field, k).value.1 in AfterSplit(cs, ns, field, k)
    ensures ChunkForKey(cs, k).value.min < k ==> SplitPieces(cs, ns, field, k).value.0 in AfterSplit(cs, ns, field, k)
  {
    var i, mid := SplitRun(cs, ns, field, k);
    var r := AfterSplit(cs, ns, field, k);
    SpliceAt(cs, i, mid);
    forall x | x in cs && !Contains(x, k)
      ensures x in r
    {
      var t :| 0 <= t < |cs| && cs[t] == x;
      if t < i {
        assert r[t] == x;
      } else {
        assert t != i;
        assert r[t - 1 + |mid|] == x;
      }
    }
    assert r[i + (|mid| - 1)] == mid[|mid| - 1];
    if cs[i].min < k {
      assert r[i + 0] == mid[0];
    }
  }

  /** The catalog after move_chunk(k, dest): the chunk holding k gets shard
      dest; its boundaries and every other chunk stay as they were. */
  function AfterMove(cs: seq<Chunk>, k: Key, dest: ShardId): (r: seq<Chunk>)
    ensures SameBounds(r, cs)
    ensures Covered(cs, k) ==> r[IndexForKey(cs, k).value].shard == dest
    ensures forall t :: 0 <= t < |cs| && !Contains(cs[t], k) ==> r[t] == cs[t]
  {
    match IndexForKey(cs, k)
    case None => cs
    case Some(i) => cs[i := cs[i].(shard := dest)]
  }

  /** After a move every key of the moved chunk is owned by dest and every
      other key keeps its owner. */
  lemma MoveOwners(cs: seq<Chunk>, ns: string, field: string, k: Key, dest: ShardId, q: Key)
    requires Partition(cs, ns, field)
    ensures OwnerOf(AfterMove(cs, k, dest), q) ==
      if Covered(cs, k) && Contains(ChunkForKey(cs, k).value, q) then Some(dest) else OwnerOf(cs, q)
  {
    var r := AfterMove(cs, k, dest);
    SameBoundsPartition(r, cs, ns, field);
    SameBoundsIndex(r, cs, q);
    if Covered(cs, k) {
      var i := IndexForKey(cs, k).value;
      if Contains(cs[i], q) {
        IndexForKeyUnique(cs, ns, field, i, q);
      } else if Covered(cs, q) {
        var t := IndexForKey(cs, q).value;
        assert r[t] == cs[t];
      }
    }
  }

  /** Moving the same chunk to the same shard twice leaves the catalog as
      moving it once. */
  lemma MoveIdempotent(cs: seq<Chunk>, k: Key, dest: ShardId)
    ensures AfterMove(AfterMove(cs, k, dest), k, dest) == AfterMove(cs, k, dest)
  {
    SameBoundsIndex(AfterMove(cs, k, dest), cs, k);
  }

  lemma MoveKeepsPartition(cs: seq<Chunk>, ns: string, field: string, k: Key, dest: ShardId)
    requires Partition(cs, ns, field)
    ensures Partition(AfterMove(cs, k, dest), ns, field)
    ensures forall q :: Covered(AfterMove(cs, k, dest), q) == Covered(cs, q)
  {
    SameBoundsPartition(AfterMove(cs, k, dest), cs, ns, field);
    forall q
      ensures Covered(AfterMove(cs, k, dest), q) == Covered(cs, q)
    {
      SameBoundsIndex(AfterMove(cs, k, dest), cs, q);
    }
  }

  // ---------------------------------------------------------------------------
  // Small facts used by the balancer

  lemma OwnerCovered(cs: seq<Chunk>, k: Key)
    ensures OwnerOf(cs, k).Some? <==> Covered(cs, k)
  {
  }

  /** The index of a chunk in a partition is found by looking up its min. */
  lemma MemberIndex(cs: seq<Chunk>, ns: string, field: string, x: Chunk) returns (t: nat)
    requires Partition(cs, ns, field) && x in cs
    ensures t < |cs| && cs[t] == x && ChunkForKey(cs, x.min) == Some(x)
  {
    t :| 0 <= t < |cs| && cs[t] == x;
    IndexForKeyUnique(cs, ns, field, t, x.min);
  }

  /** Two different chunks of a partition never hold the same key. */
  lemma DisjointMembers(cs: seq<Chunk>, ns: string, field: string, x: Chunk, y: Chunk, k: Key)
    requires Partition(cs, ns, field) && x in cs && y in cs && x != y && Contains(x, k)
    ensures !Contains(y, k)
  {
    var a :| 0 <= a < |cs| && cs[a] == x;
    var b :| 0 <= b < |cs| && cs[b] == y;
    Disjoint(cs, ns, field, a, b, k);
  }

  lemma SlicePartition(cs: seq<Chunk>, ns: string, field: string, i: nat, j: nat)
    requires Partition(cs, ns, field) && i <= j <= |cs|
    ensures Partition(cs[i..j], ns, field)
  {
    var r := cs[i..j];
    forall t | 0 < t < |r|
      ensures r[t - 1].max == r[t].min
    {
      assert r[t - 1] == cs[i + t - 1] && r[t] == cs[i + t];
    }
  }

  lemma SameBoundsTrans(a: seq<Chunk>, b: seq<Chunk>, c: seq<Chunk>)
    requires SameBounds(a, b) && SameBounds(b, c)
    ensures SameBounds(a, c)
  {
    forall i | 0 <= i < |a|
      ensures a[i].(shard := c[i].shard) == c[i]
    {
      assert a[i].(shard := b[i].shard) == b[i];
      assert b[i].(shard := c[i].shard) == c[i];
    }
  }

  /** Replacing chunk i by a run keeps every other chunk of the catalog. */
  lemma SpliceKeepsMembers(cs: seq<Chunk>, i: nat, mid: seq<Chunk>, y: Chunk)
    requires i < |cs| && y in cs && y != cs[i]
    ensures y in cs[..i] + mid + cs[i + 1..]
  {
    var t :| 0 <= t < |cs| && cs[t] == y;
    SpliceAt(cs, i, mid);
    if t < i {
      assert (cs[..i] + mid + cs[i + 1..])[t] == y;
    } else {
      assert (cs[..i] + mid + cs[i + 1..])[t - 1 + |mid|] == y;
    }
  }
}
