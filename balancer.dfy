/**
 * The balancing services of balancer.py, run against the in-memory catalog of
 * FakeBalancer: divide_chunk (cut one chunk into equal key ranges) and
 * balance_range (divide every chunk of a key range and hand the parts to the
 * shards in turn).
 */
module Balancer {
  import opened Wrappers
  import opened Chunks
  import opened FakeBalancer

  // ---------------------------------------------------------------------------
  // divide_chunk, as a specification

  lemma MulLe(a: int, b: int, c: int)
    requires a <= b && 0 <= c
    ensures a * c <= b * c
  {
    assert b * c - a * c == (b - a) * c;
  }

  lemma Distrib(a: int, b: int, c: int)
    ensures (a - b) * c == a * c - b * c
  {
  }

  /** a * d >= b * d with d > 0 gives a >= b. */
  lemma MulCancel(a: int, b: int, d: int)
    requires d > 0 && a * d >= b * d
    ensures a >= b
  {
    if a < b {
      Distrib(b, 1, d);
      MulLe(a, b - 1, d);
    }
  }

  lemma QuotientBelow(w: int, d: int)
    requires w > 0 && d >= 2
    ensures 0 <= w / d < w
  {
    var q, r := w / d, w % d;
    assert w == q * d + r && 0 <= r < d;
    if q < 0 {
      MulLe(q, -1, d);
    }
    MulLe(2, d, w);
    assert w * d == d * w;
    if q >= w {
      MulLe(w, q, d);
    }
  }

  lemma QuotientPositive(w: int, d: int)
    requires w >= d >= 2
    ensures w / d >= 1
  {
    var q, r := w / d, w % d;
    assert w == q * d + r && 0 <= r < d;
    if q <= 0 {
      MulLe(q, 0, d);
    }
  }

  lemma RemainderShare(w: int, d: int)
    requires w >= d >= 2
    ensures w - w / d >= d - 1
  {
    var q, r := w / d, w % d;
    assert w == q * d + r && 0 <= r < d;
    MulLe(d, w, d - 1);
    Distrib(w, q, d);
    Distrib(d, 1, w);
    Distrib(d, 1, d);
    assert w * (d - 1) == (d - 1) * w;
    assert d * (d - 1) == (d - 1) * d;
    MulCancel(w - q, d - 1, d);
  }

  lemma QuotientBounds(w: int, d: int)
    requires w > 0 && d >= 2
    ensures 0 <= w / d < w
    ensures w >= d ==> w / d >= 1
    ensures w >= d ==> w - w / d >= d - 1
  {
    QuotientBelow(w, d);
    if w >= d {
      QuotientPositive(w, d);
      RemainderShare(w, d);
    }
  }

  /** Where divide_chunk's helper cuts a chunk [lo, hi) that must become
      `divisions` parts: lo + (hi - lo) / divisions, rounded down. The cut
      lies in the chunk, strictly above lo once the chunk spans at least
      `divisions` keys, and leaves at least one key per remaining part. */
  function SplitPoint(lo: Key, hi: Key, divisions: int): (s: Key)
    requires lo < hi && divisions >= 2
    ensures lo <= s < hi
    ensures hi - lo >= divisions ==> lo < s && hi - s >= divisions - 1
  {
    QuotientBounds(hi - lo, divisions);
    lo + (hi - lo) / divisions
  }

  /** The chunks divide_chunk returns for chunk c and `divisions`: c itself
      when divisions < 2; otherwise the left part of c cut at the split
      point, then what dividing the right part into divisions - 1 gives. The
      parts are contiguous, start at c's min, end at c's max, and only the
      last is sure to be non-empty. */
  function Divide(c: Chunk, ns: string, field: string, divisions: int): (r: seq<Chunk>)
    requires c.min < c.max
    decreases divisions
    ensures |r| == if divisions < 2 then 1 else divisions
  {
    if divisions < 2 then [c]
    else
      var s := SplitPoint(c.min, c.max, divisions);
      [c.(max := s)] + Divide(c.(min := s, id := ChunkId(ns, field, s)), ns, field, divisions - 1)
  }

  /** A chunk spanning at least `divisions` keys is divided into parts that
      are all non-empty. */
  lemma {:induction false} DivideNonEmpty(c: Chunk, ns: string, field: string, divisions: int)
    requires c.min < c.max && c.max - c.min >= divisions
    ensures forall j :: 0 <= j < |Divide(c, ns, field, divisions)| ==>
      Divide(c, ns, field, divisions)[j].min < Divide(c, ns, field, divisions)[j].max
    decreases divisions
  {
    if divisions >= 2 {
      var s := SplitPoint(c.min, c.max, divisions);
      var rest := c.(min := s, id := ChunkId(ns, field, s));
      DivideNonEmpty(rest, ns, field, divisions - 1);
      var r := Divide(c, ns, field, divisions);
      assert r == [c.(max := s)] + Divide(rest, ns, field, divisions - 1);
      forall j | 0 < j < |r|
        ensures r[j].min < r[j].max
      {
        assert r[j] == Divide(rest, ns, field, divisions - 1)[j - 1];
      }
    }
  }

  /** A sequence of contiguous parts of a chunk, of which only the last needs
      to be non-empty: what Divide yields. */
  predicate Run(ps: seq<Chunk>, ns: string, field: string)
  {
    && ps != []
    && (forall j :: 0 <= j < |ps| ==> ps[j].min <= ps[j].max && ps[j].ns == ns && ps[j].id == ChunkId(ns, field, ps[j].min))
    && (forall j :: 0 < j < |ps| ==> ps[j - 1].max == ps[j].min)
    && ps[|ps| - 1].min < ps[|ps| - 1].max
  }

  /** The parts Divide yields are contiguous, start at c's min with c's
      `_id`, end at c's max with a non-empty last part, carry the `_id` of a
      chunk starting at their min, and keep c's namespace and shard. */
  lemma {:induction false} DivideShape(c: Chunk, ns: string, field: string, divisions: int)
    requires c.min < c.max
    decreases divisions
    ensures var r := Divide(c, ns, field, divisions);
      && r[0].min == c.min && r[0].id == c.id
      && r[|r| - 1].max == c.max && r[|r| - 1].min < c.max
      && (forall j :: 0 < j < |r| ==> r[j - 1].max == r[j].min)
      && (forall j :: 0 <= j < |r| ==> r[j].min <= r[j].max)
      && (forall j :: 0 < j < |r| ==> r[j].id == ChunkId(ns, field, r[j].min))
      && (forall j :: 0 <= j < |r| ==> r[j].ns == c.ns && r[j].shard == c.shard)
  {
    if divisions >= 2 {
      var s := SplitPoint(c.min, c.max, divisions);
      var rest := c.(min := s, id := ChunkId(ns, field, s));
      DivideShape(rest, ns, field, divisions - 1);
      var t := Divide(rest, ns, field, divisions - 1);
      var r := Divide(c, ns, field, divisions);
      assert r == [c.(max := s)] + t;
      forall j | 0 < j < |r|
        ensures r[j] == t[j - 1]
      {
      }
    }
  }

  lemma DivideRun(c: Chunk, ns: string, field: string, divisions: int)
    requires WellFormed(c, ns, field)
    ensures Run(Divide(c, ns, field, divisions), ns, field)
  {
    DivideShape(c, ns, field, divisions);
  }

  lemma {:induction false} RunOrdered(ps: seq<Chunk>, ns: string, field: string, a: nat, b: nat)
    requires Run(ps, ns, field) && a < b < |ps|
    ensures ps[a].max <= ps[b].min
  {
    if a + 1 < b {
      RunOrdered(ps, ns, field, a, b - 1);
    }
  }

  /** The parts that remain documents of the catalog: a part with min == max
      is saved and then overwritten by the next save with the same `_id`. */
  function Kept(ps: seq<Chunk>): seq<Chunk>
  {
    if ps == [] then []
    else (if ps[0].min < ps[0].max then [ps[0]] else []) + Kept(ps[1..])
  }

  /** Kept keeps exactly the non-empty parts. */
  lemma {:induction false} KeptMembers(ps: seq<Chunk>)
    ensures forall x :: x in Kept(ps) <==> x in ps && x.min < x.max
  {
    if ps != [] {
      KeptMembers(ps[1..]);
      assert ps == [ps[0]] + ps[1..];
    }
  }

  lemma {:induction false} KeptAppend(a: seq<Chunk>, b: seq<Chunk>)
    ensures Kept(a + b) == Kept(a) + Kept(b)
  {
    if a == [] {
      assert a + b == b;
    } else {
      assert (a + b)[1..] == a[1..] + b;
      KeptAppend(a[1..], b);
    }
  }

  lemma ConsPartition(x: Chunk, cs: seq<Chunk>, ns: string, field: string)
    requires WellFormed(x, ns, field) && Partition(cs, ns, field) && cs != [] && x.max == cs[0].min
    ensures Partition([x] + cs, ns, field)
  {
    var r := [x] + cs;
    forall t | 0 < t < |r|
      ensures r[t - 1].max == r[t].min
    {
      if t > 1 {
        assert r[t - 1] == cs[t - 2] && r[t] == cs[t - 1];
      }
    }
  }

  lemma RunTail(ps: seq<Chunk>, ns: string, field: string)
    requires Run(ps, ns, field) && |ps| > 1
    ensures Run(ps[1..], ns, field) && ps[1..][0].min == ps[0].max
  {
    var rest := ps[1..];
    forall j | 0 < j < |rest|
      ensures rest[j - 1].max == rest[j].min
    {
      assert rest[j - 1] == ps[j] && rest[j] == ps[j + 1];
    }
  }

  lemma KeptCons(ps: seq<Chunk>, k: seq<Chunk>, ns: string, field: string)
    requires ps != [] && WellFormed(ps[0], ns, field) && k == Kept(ps[1..])
    requires Partition(k, ns, field) && k != [] && ps[0].max == k[0].min
    ensures Partition(Kept(ps), ns, field) && Kept(ps) != []
    ensures Kept(ps)[0] == ps[0] && Kept(ps)[|Kept(ps)| - 1] == k[|k| - 1]
  {
    assert Kept(ps) == [ps[0]] + k;
    ConsPartition(ps[0], k, ns, field);
  }

  /** The kept parts of a run partition the run's whole span. */
  lemma {:induction false} KeptRun(ps: seq<Chunk>, ns: string, field: string)
    requires Run(ps, ns, field)
    ensures Partition(Kept(ps), ns, field) && Kept(ps) != []
    ensures Kept(ps)[0].min == ps[0].min && Kept(ps)[|Kept(ps)| - 1].max == ps[|ps| - 1].max
  {
    if |ps| == 1 {
      assert Kept(ps[1..]) == [];
      assert Kept(ps) == [ps[0]];
    } else {
      var rest := ps[1..];
      RunTail(ps, ns, field);
      KeptRun(rest, ns, field);
      var k := Kept(rest);
      assert k[|k| - 1].max == ps[|ps| - 1].max by {
        assert rest[|rest| - 1] == ps[|ps| - 1];
      }
      if ps[0].min < ps[0].max {
        KeptCons(ps, k, ns, field);
      } else {
        assert Kept(ps) == k;
      }
    }
  }

  /** The catalog after a chunk is divided: the chunk's place is taken by
      the kept parts, which partition its span. */
  lemma DividedPartition(cs: seq<Chunk>, ns: string, field: string, i: nat, divisions: int)
    requires Partition(cs, ns, field) && i < |cs|
    ensures var ps := Divide(cs[i], ns, field, divisions);
      Partition(cs[..i] + Kept(ps) + cs[i + 1..], ns, field)
  {
    var ps := Divide(cs[i], ns, field, divisions);
    DivideShape(cs[i], ns, field, divisions);
    DivideRun(cs[i], ns, field, divisions);
    KeptRun(ps, ns, field);
    SplicePartition(cs, ns, field, i, Kept(ps));
  }

  lemma SliceParts<T>(pre: seq<T>, x: T, post: seq<T>)
    ensures |pre + [x] + post| == |pre| + 1 + |post|
    ensures (pre + [x] + post)[|pre|] == x
    ensures (pre + [x] + post)[..|pre|] == pre && (pre + [x] + post)[|pre| + 1..] == post
  {
  }

  /** One round of divide_chunk's helper: splitting the chunk that sits
      between pre and post at a key inside it puts its kept left part and its
      right part in its place. */
  lemma DivideStep(cs: seq<Chunk>, ns: string, field: string, pre: seq<Chunk>, chunk: Chunk, post: seq<Chunk>, s: Key)
    requires Partition(cs, ns, field) && cs == pre + [chunk] + post
    requires chunk.min <= s < chunk.max
    ensures SplitPieces(cs, ns, field, s) == Some((chunk.(max := s), chunk.(min := s, id := ChunkId(ns, field, s))))
    ensures AfterSplit(cs, ns, field, s) ==
      pre + Kept([chunk.(max := s)]) + [chunk.(min := s, id := ChunkId(ns, field, s))] + post
  {
    var i := |pre|;
    SliceParts(pre, chunk, post);
    IndexForKeyUnique(cs, ns, field, i, s);
    var j, mid := SplitRun(cs, ns, field, s);
    var left, right := chunk.(max := s), chunk.(min := s, id := ChunkId(ns, field, s));
    if chunk.min == s {
      assert right == chunk;
      assert Kept([left]) == [];
      assert mid == Kept([left]) + [right];
    } else {
      assert Kept([left]) == [left];
      assert mid == Kept([left]) + [right];
    }
    Concat4(pre, Kept([left]), right, post);
  }

  lemma Concat4<T>(pre: seq<T>, a: seq<T>, x: T, post: seq<T>)
    ensures pre + (a + [x]) + post == pre + a + [x] + post
  {
  }

  lemma DivideUnfold(c: Chunk, ns: string, field: string, d: int)
    requires c.min < c.max && d >= 2
    ensures var s := SplitPoint(c.min, c.max, d);
      Divide(c, ns, field, d) == [c.(max := s)] + Divide(c.(min := s, id := ChunkId(ns, field, s)), ns, field, d - 1)
  {
  }

  lemma Regroup<T>(a: seq<T>, x: T, b: seq<T>)
    ensures a + ([x] + b) == (a + [x]) + b
  {
  }

  lemma Regroup4<T>(p: seq<T>, a: seq<T>, b: seq<T>, x: T, q: seq<T>)
    ensures p + (a + b) + [x] + q == p + a + b + [x] + q
  {
  }

  /** One round of the loop of DivideChunk, on the catalog. */
  lemma DivideLoopStep(cs: seq<Chunk>, ns: string, field: string, pre: seq<Chunk>, pieces: seq<Chunk>,
                       chunk: Chunk, post: seq<Chunk>, d: int)
    requires Partition(cs, ns, field) && cs == pre + Kept(pieces) + [chunk] + post
    requires chunk.min < chunk.max && d >= 2
    ensures var s := SplitPoint(chunk.min, chunk.max, d);
      var left, right := chunk.(max := s), chunk.(min := s, id := ChunkId(ns, field, s));
      && SplitPieces(cs, ns, field, s) == Some((left, right))
      && AfterSplit(cs, ns, field, s) == pre + Kept(pieces + [left]) + [right] + post
  {
    var s := SplitPoint(chunk.min, chunk.max, d);
    var left, right := chunk.(max := s), chunk.(min := s, id := ChunkId(ns, field, s));
    DivideStep(cs, ns, field, pre + Kept(pieces), chunk, post, s);
    KeptAppend(pieces, [left]);
    Regroup4(pre, Kept(pieces), Kept([left]), right, post);
  }

  /** One round of the loop of DivideChunk, on the parts collected. */
  lemma DividePiecesStep(pieces: seq<Chunk>, chunk: Chunk, ns: string, field: string, d: int, c0: Chunk, divisions: int)
    requires chunk.min < chunk.max && d >= 2 && c0.min < c0.max
    requires pieces + Divide(chunk, ns, field, d) == Divide(c0, ns, field, divisions)
    ensures var s := SplitPoint(chunk.min, chunk.max, d);
      var left, right := chunk.(max := s), chunk.(min := s, id := ChunkId(ns, field, s));
      (pieces + [left]) + Divide(right, ns, field, d - 1) == Divide(c0, ns, field, divisions)
  {
    var s := SplitPoint(chunk.min, chunk.max, d);
    var left, right := chunk.(max := s), chunk.(min := s, id := ChunkId(ns, field, s));
    DivideUnfold(chunk, ns, field, d);
    Regroup(pieces, left, Divide(right, ns, field, d - 1));
  }

  lemma DivideLoopEnd(pre: seq<Chunk>, pieces: seq<Chunk>, chunk: Chunk, post: seq<Chunk>)
    requires chunk.min < chunk.max
    ensures pre + Kept(pieces) + [chunk] + post == pre + Kept(pieces + [chunk]) + post
  {
    KeptAppend(pieces, [chunk]);
    assert Kept([chunk]) == [chunk];
  }

  /** divide_chunk(key, divisions) on the fake catalog: the chunk holding key
      is split at the split point, and its right part again, divisions - 1
      times; the left parts and the last right part are returned in key
      order. The catalog then holds the non-empty parts in the chunk's place.
      Nothing happens when no chunk holds key. */
  method DivideChunk(cat: Catalog, key: Key, divisions: int) returns (r: Option<seq<Chunk>>)
    requires cat.Valid()
    modifies cat
    ensures cat.Valid()
    ensures r.None? <==> !Covered(old(cat.chunks), key)
    ensures r.None? ==> cat.chunks == old(cat.chunks)
    ensures r.Some? ==>
      var i := IndexForKey(old(cat.chunks), key).value;
      && r.value == Divide(old(cat.chunks)[i], cat.ns, cat.field, divisions)
      && cat.chunks == old(cat.chunks)[..i] + Kept(r.value) + old(cat.chunks)[i + 1..]
  {
    var found := IndexForKey(cat.chunks, key);
    if found.None? {
      return None;
    }
    var i := found.value;
    ghost var c0 := cat.chunks[i];
    ghost var pre, post := cat.chunks[..i], cat.chunks[i + 1..];
    assert cat.chunks == pre + [c0] + post;
    var chunk := cat.chunks[i];
    var pieces: seq<Chunk> := [];
    var d := divisions;
    while d >= 2
      invariant cat.Valid()
      invariant chunk.min < chunk.max
      invariant cat.chunks == pre + Kept(pieces) + [chunk] + post
      invariant pieces + Divide(chunk, cat.ns, cat.field, d) == Divide(c0, cat.ns, cat.field, divisions)
      decreases d
    {
      var split := SplitPoint(chunk.min, chunk.max, d);
      DivideLoopStep(cat.chunks, cat.ns, cat.field, pre, pieces, chunk, post, d);
      DividePiecesStep(pieces, chunk, cat.ns, cat.field, d, c0, divisions);
      ghost var left, right := chunk.(max := split), chunk.(min := split, id := ChunkId(cat.ns, cat.field, split));
      var halves := cat.SplitChunk(split);
      assert halves == Some((left, right));
      assert cat.chunks == pre + Kept(pieces + [left]) + [right] + post;
      pieces := pieces + [halves.value.0];
      chunk := halves.value.1;
      d := d - 1;
    }
    assert Divide(chunk, cat.ns, cat.field, d) == [chunk];
    DivideLoopEnd(pre, pieces, chunk, post);
    r := Some(pieces + [chunk]);
    assert r.value == Divide(c0, cat.ns, cat.field, divisions);
    assert cat.chunks == pre + Kept(r.value) + post;
  }

  // ---------------------------------------------------------------------------
  // balance_range

  /** Facts about the catalog right after a chunk x = before[p] is divided
      into the parts ps. */
  predicate DividedAt(D: seq<Chunk>, before: seq<Chunk>, ns: string, field: string, p: nat, ps: seq<Chunk>)
  {
    && Partition(before, ns, field) && p < |before|
    && Run(ps, ns, field) && ps[0].min == before[p].min && ps[|ps| - 1].max == before[p].max
    && D == before[..p] + Kept(ps) + before[p + 1..]
  }

  lemma DividedByDivide(D: seq<Chunk>, before: seq<Chunk>, ns: string, field: string, p: nat, divisions: int)
    requires Partition(before, ns, field) && p < |before|
    requires D == before[..p] + Kept(Divide(before[p], ns, field, divisions)) + before[p + 1..]
    ensures DividedAt(D, before, ns, field, p, Divide(before[p], ns, field, divisions))
  {
    DivideShape(before[p], ns, field, divisions);
    DivideRun(before[p], ns, field, divisions);
  }

  lemma DividedFacts(D: seq<Chunk>, before: seq<Chunk>, ns: string, field: string, p: nat, ps: seq<Chunk>)
    requires DividedAt(D, before, ns, field, p, ps)
    ensures Partition(Kept(ps), ns, field) && Kept(ps) != []
    ensures Kept(ps)[0].min == before[p].min && Kept(ps)[|Kept(ps)| - 1].max == before[p].max
    ensures Partition(D, ns, field)
    ensures forall q :: Covered(D, q) == Covered(before, q)
    ensures forall q :: !Contains(before[p], q) ==> OwnerOf(D, q) == OwnerOf(before, q)
    ensures forall y :: y in before && y != before[p] ==> y in D
  {
    KeptRun(ps, ns, field);
    SplicePartition(before, ns, field, p, Kept(ps));
    forall q
      ensures Covered(D, q) == Covered(before, q)
      ensures !Contains(before[p], q) ==> OwnerOf(D, q) == OwnerOf(before, q)
    {
      DividedOwner(D, before, ns, field, p, ps, q);
    }
    forall y | y in before && y != before[p]
      ensures y in D
    {
      SpliceKeepsMembers(before, p, Kept(ps), y);
    }
  }

  lemma DividedOwner(D: seq<Chunk>, before: seq<Chunk>, ns: string, field: string, p: nat, ps: seq<Chunk>, q: Key)
    requires DividedAt(D, before, ns, field, p, ps)
    requires Partition(Kept(ps), ns, field) && Kept(ps) != []
    requires Kept(ps)[0].min == before[p].min && Kept(ps)[|Kept(ps)| - 1].max == before[p].max
    ensures Covered(D, q) == Covered(before, q)
    ensures !Contains(before[p], q) ==> OwnerOf(D, q) == OwnerOf(before, q)
  {
    SpliceOwners(before, ns, field, p, Kept(ps), q);
    OwnerCovered(D, q);
    OwnerCovered(before, q);
    if Contains(before[p], q) {
      var u := CoverIndex(Kept(ps), ns, field, q);
      IndexForKeyUnique(Kept(ps), ns, field, u, q);
      IndexForKeyUnique(before, ns, field, p, q);
    }
  }

  /** Every key of a divided chunk lies in one of its parts. */
  lemma PieceOf(ps: seq<Chunk>, ns: string, field: string, q: Key) returns (j: nat)
    requires Run(ps, ns, field) && ps[0].min <= q < ps[|ps| - 1].max
    ensures j < |ps| && Contains(ps[j], q)
  {
    KeptRun(ps, ns, field);
    var u := CoverIndex(Kept(ps), ns, field, q);
    KeptMembers(ps);
    assert Kept(ps)[u] in ps;
    j :| 0 <= j < |ps| && ps[j] == Kept(ps)[u];
  }

  /** Where move_chunk(ps[i].min) lands in a catalog whose chunks have the
      bounds of the divided catalog: at the chunk with the bounds of a
      non-empty part ps[jj] holding ps[i].min, where jj is i itself when
      ps[i] is non-empty, and never an earlier part. */
  lemma PieceHolder(cur: seq<Chunk>, D: seq<Chunk>, before: seq<Chunk>, ns: string, field: string,
                    p: nat, ps: seq<Chunk>, i: nat) returns (t: nat, jj: nat)
    requires DividedAt(D, before, ns, field, p, ps) && SameBounds(cur, D) && i < |ps|
    ensures t < |cur| && jj < |ps| && IndexForKey(cur, ps[i].min) == Some(t)
    ensures cur[t].min == ps[jj].min && cur[t].max == ps[jj].max && cur[t].(shard := ps[jj].shard) == ps[jj]
    ensures Contains(ps[jj], ps[i].min) && i <= jj
    ensures ps[i].min < ps[i].max ==> jj == i
    ensures before[p].min <= ps[jj].min && ps[jj].max <= before[p].max
  {
    var K := Kept(ps);
    var u;
    u, jj := KeptHolder(ps, ns, field, i);
    KeptRun(ps, ns, field);
    WithinSpan(K, ns, field, u);
    SplicePartition(before, ns, field, p, K);
    SpliceAt(before, p, K);
    t := p + u;
    assert D[t] == ps[jj];
    IndexForKeyUnique(D, ns, field, t, ps[i].min);
    SameBoundsIndex(cur, D, ps[i].min);
    assert cur[t].(shard := D[t].shard) == D[t];
  }

  /** The kept part holding the min of part i: part i itself when it is
      non-empty, and otherwise a later part. */
  lemma KeptHolder(ps: seq<Chunk>, ns: string, field: string, i: nat) returns (u: nat, jj: nat)
    requires Run(ps, ns, field) && i < |ps|
    ensures u < |Kept(ps)| && jj < |ps| && Kept(ps)[u] == ps[jj]
    ensures Contains(ps[jj], ps[i].min) && i <= jj
    ensures ps[i].min < ps[i].max ==> jj == i
  {
    var m := ps[i].min;
    var last := |ps| - 1;
    assert ps[0].min <= m by {
      if i > 0 {
        RunOrdered(ps, ns, field, 0, i);
      }
    }
    assert m < ps[last].max by {
      if i < last {
        RunOrdered(ps, ns, field, i, last);
      }
    }
    var K := Kept(ps);
    KeptRun(ps, ns, field);
    u := CoverIndex(K, ns, field, m);
    KeptMembers(ps);
    assert K[u] in ps;
    jj :| 0 <= jj < |ps| && ps[jj] == K[u];
    if jj < i {
      RunOrdered(ps, ns, field, jj, i);
    }
    if i < jj && ps[i].min < ps[i].max {
      RunOrdered(ps, ns, field, i, jj);
    }
  }

  /** One move of balance_range's inner loop, on values: moving the chunk
      holding ps[i].min to dest gives dest every key of ps[i], and leaves
      the keys of earlier parts and the keys outside the divided chunk
      with their owners. */
  lemma MovePiece(cur: seq<Chunk>, D: seq<Chunk>, before: seq<Chunk>, ns: string, field: string,
                  p: nat, ps: seq<Chunk>, i: nat, dest: ShardId)
    requires DividedAt(D, before, ns, field, p, ps) && SameBounds(cur, D) && i < |ps|
    ensures Covered(cur, ps[i].min)
    ensures SameBounds(AfterMove(cur, ps[i].min, dest), D)
    ensures forall q :: Contains(ps[i], q) ==> OwnerOf(AfterMove(cur, ps[i].min, dest), q) == Some(dest)
    ensures forall j, q :: 0 <= j < i && Contains(ps[j], q) ==>
      OwnerOf(AfterMove(cur, ps[i].min, dest), q) == OwnerOf(cur, q)
    ensures forall q :: !Contains(before[p], q) ==> OwnerOf(AfterMove(cur, ps[i].min, dest), q) == OwnerOf(cur, q)
  {
    var jj := MoveAt(cur, D, before, ns, field, p, ps, i, dest);
    forall j, q | 0 <= j < i && Contains(ps[j], q)
      ensures !Contains(ps[jj], q)
    {
      RunOrdered(ps, ns, field, j, jj);
    }
  }

  /** move_chunk(ps[i].min, dest) moves the chunk with the bounds of the
      part ps[jj] that holds ps[i].min: its keys go to dest, all others keep
      their owner. */
  lemma MoveAt(cur: seq<Chunk>, D: seq<Chunk>, before: seq<Chunk>, ns: string, field: string,
               p: nat, ps: seq<Chunk>, i: nat, dest: ShardId) returns (jj: nat)
    requires DividedAt(D, before, ns, field, p, ps) && SameBounds(cur, D) && i < |ps|
    ensures Covered(cur, ps[i].min)
    ensures SameBounds(AfterMove(cur, ps[i].min, dest), D)
    ensures jj < |ps| && Contains(ps[jj], ps[i].min) && i <= jj
    ensures ps[i].min < ps[i].max ==> jj == i
    ensures before[p].min <= ps[jj].min && ps[jj].max <= before[p].max
    ensures forall q :: OwnerOf(AfterMove(cur, ps[i].min, dest), q) == (if Contains(ps[jj], q) then Some(dest) else OwnerOf(cur, q))
  {
    KeptRun(ps, ns, field);
    SplicePartition(before, ns, field, p, Kept(ps));
    var m := ps[i].min;
    var t;
    t, jj := PieceHolder(cur, D, before, ns, field, p, ps, i);
    var after := AfterMove(cur, m, dest);
    SameBoundsTrans(after, cur, D);
    SameBoundsPartition(cur, D, ns, field);
    assert ChunkForKey(cur, m) == Some(cur[t]);
    forall q
      ensures OwnerOf(after, q) == if Contains(ps[jj], q) then Some(dest) else OwnerOf(cur, q)
    {
      MoveOwners(cur, ns, field, m, dest, q);
    }
  }

  /** The body of balance_range's loop for one chunk: divide_chunk(key,
      len(shards)), then move_chunk(part i's min, shards[i]) for each shard
      in turn. The catalog then has the chunk replaced by its non-empty
      parts, part i on shards[i]; with no shard nothing changes; keys
      outside the chunk keep their owner; every other chunk stays in the
      catalog. The sum returned is what the moves count: move i moves the
      chunk holding part i's min, which has the bounds of part Holder(i). */
  method DivideAndMove(cat: Catalog, key: Key, shards: seq<ShardId>) returns (moved: nat, ghost pieces: seq<Chunk>)
    requires cat.Valid() && Covered(cat.chunks, key)
    modifies cat
    ensures cat.Valid()
    ensures forall q :: Covered(cat.chunks, q) == Covered(old(cat.chunks), q)
    ensures var p := IndexForKey(old(cat.chunks), key).value;
      SameBounds(cat.chunks, old(cat.chunks)[..p] + Kept(pieces) + old(cat.chunks)[p + 1..])
    ensures var x := ChunkForKey(old(cat.chunks), key).value;
      && pieces == Divide(x, cat.ns, cat.field, |shards|)
      && moved == Moves(pieces, shards, cat.docCount, |shards|)
      && (forall q :: !Contains(x, q) ==> OwnerOf(cat.chunks, q) == OwnerOf(old(cat.chunks), q))
      && Placed(cat.chunks, x, cat.ns, cat.field, shards)
      && (|shards| > 0 ==> forall q :: Contains(x, q) ==> OwnedBy(cat.chunks, q, shards))
      && (|shards| == 0 ==> cat.chunks == old(cat.chunks))
      && (forall y :: y in old(cat.chunks) && y != x ==> y in cat.chunks)
  {
    ghost var before := cat.chunks;
    ghost var p := IndexForKey(before, key).value;
    ghost var x := before[p];
    var r := DivideChunk(cat, key, |shards|);
    var newChunks := r.value;
    pieces := newChunks;
    ghost var D := cat.chunks;
    DividedByDivide(D, before, cat.ns, cat.field, p, |shards|);
    DividedFacts(D, before, cat.ns, cat.field, p, pieces);
    moved := MoveParts(cat, D, before, p, newChunks, shards);
    if |shards| == 0 {
      NoDivision(before, p, pieces);
    } else {
      AllPiecesMoved(cat.chunks, x, cat.ns, cat.field, pieces, shards);
      PartsPlaced(cat.chunks, D, before, cat.ns, cat.field, p, pieces, shards);
    }
  }

  /** The move loop of balance_range for one divided chunk: for each shard
      i in turn, move_chunk(part i's min, shards[i]). Each part ends up on
      its shard, the chunk bounds stay those of the divided catalog D, keys
      outside the divided chunk keep their owner, and the counts of the
      moves are summed. */
  method MoveParts(cat: Catalog, ghost D: seq<Chunk>, ghost before: seq<Chunk>, ghost p: nat, pieces: seq<Chunk>,
                   shards: seq<ShardId>) returns (moved: nat)
    requires cat.chunks == D && DividedAt(D, before, cat.ns, cat.field, p, pieces)
    requires |shards| > 0 ==> |pieces| == |shards|
    modifies cat
    ensures cat.Valid() && (|shards| == 0 ==> cat.chunks == D)
    ensures MovesDone(cat.chunks, D, before, p, pieces, shards, |shards|)
    ensures moved == Moves(pieces, shards, cat.docCount, |shards|)
  {
    DividedFacts(D, before, cat.ns, cat.field, p, pieces);
    moved := 0;
    if |shards| == 0 {
      return;
    }
    var i := 0;
    while i < |shards|
      invariant 0 <= i <= |shards|
      invariant cat.Valid()
      invariant MovesDone(cat.chunks, D, before, p, pieces, shards, i)
      invariant moved == Moves(pieces, shards, cat.docCount, i)
    {
      moved := MoveOne(cat, D, before, p, pieces, shards, i, moved);
      i := i + 1;
    }
  }

  /** One pass of the move loop: move_chunk(part i's min, shards[i]), its
      count added to the sum. */
  method MoveOne(cat: Catalog, ghost D: seq<Chunk>, ghost before: seq<Chunk>, ghost p: nat, pieces: seq<Chunk>,
                 shards: seq<ShardId>, i: nat, sum: nat) returns (moved: nat)
    requires cat.Valid() && DividedAt(D, before, cat.ns, cat.field, p, pieces) && i < |shards| == |pieces|
    requires MovesDone(cat.chunks, D, before, p, pieces, shards, i) && sum == Moves(pieces, shards, cat.docCount, i)
    modifies cat
    ensures cat.Valid() && MovesDone(cat.chunks, D, before, p, pieces, shards, i + 1)
    ensures moved == Moves(pieces, shards, cat.docCount, i + 1)
  {
    MovesDoneStep(cat.chunks, D, before, cat.ns, cat.field, p, pieces, shards, i);
    var count := cat.MoveChunk(pieces[i].min, shards[i]);
    MovesNext(pieces, shards, cat.docCount, i, sum, count.value);
    moved := sum + count.value;
  }

  /** move_chunk(ps[i].min) moves the chunk with the bounds of part
      Holder(ps, i). */
  lemma MovedChunk(cur: seq<Chunk>, D: seq<Chunk>, before: seq<Chunk>, ns: string, field: string,
                   p: nat, ps: seq<Chunk>, i: nat)
    requires DividedAt(D, before, ns, field, p, ps) && SameBounds(cur, D) && i < |ps|
    ensures Covered(cur, ps[i].min)
    ensures ChunkForKey(cur, ps[i].min).value.min == ps[Holder(ps, i)].min
    ensures ChunkForKey(cur, ps[i].min).value.max == ps[Holder(ps, i)].max
  {
    var t, jj := PieceHolder(cur, D, before, ns, field, p, ps, i);
    HolderUnique(ps, ns, field, i, jj);
  }

  /** The invariant of the move loop after i moves: the chunk bounds are
      those of the divided catalog D, parts 0 to i - 1 are on their shards,
      keys outside the divided chunk keep their owner in D, and the other
      chunks are still there. */
  ghost predicate MovesDone(cs: seq<Chunk>, D: seq<Chunk>, before: seq<Chunk>, p: nat, ps: seq<Chunk>,
                            shards: seq<ShardId>, i: nat)
  {
    && i <= |ps| && i <= |shards| && p < |before|
    && SameBounds(cs, D)
    && (forall j, q :: 0 <= j < i && Contains(ps[j], q) ==> OwnerOf(cs, q) == Some(shards[j]))
    && (forall q :: !Contains(before[p], q) ==> OwnerOf(cs, q) == OwnerOf(D, q))
    && (forall y :: y in before && y != before[p] ==> y in cs)
  }

  /** One pass of the move loop keeps its invariant, and moves the chunk
      with the bounds of part Holder(ps, i). */
  lemma MovesDoneStep(cur: seq<Chunk>, D: seq<Chunk>, before: seq<Chunk>, ns: string, field: string,
                      p: nat, ps: seq<Chunk>, shards: seq<ShardId>, i: nat)
    requires DividedAt(D, before, ns, field, p, ps) && i < |shards| == |ps|
    requires MovesDone(cur, D, before, p, ps, shards, i)
    ensures Covered(cur, ps[i].min)
    ensures ChunkForKey(cur, ps[i].min).value.min == ps[Holder(ps, i)].min
    ensures ChunkForKey(cur, ps[i].min).value.max == ps[Holder(ps, i)].max
    ensures MovesDone(AfterMove(cur, ps[i].min, shards[i]), D, before, p, ps, shards, i + 1)
  {
    MoveStep(cur, D, before, ns, field, p, ps, shards, i);
    MovedChunk(cur, D, before, ns, field, p, ps, i);
  }

  lemma MoveStep(cur: seq<Chunk>, D: seq<Chunk>, before: seq<Chunk>, ns: string, field: string,
                 p: nat, ps: seq<Chunk>, shards: seq<ShardId>, i: nat)
    requires DividedAt(D, before, ns, field, p, ps) && SameBounds(cur, D)
    requires i < |shards| == |ps|
    requires forall j, q :: 0 <= j < i && Contains(ps[j], q) ==> OwnerOf(cur, q) == Some(shards[j])
    requires forall q :: !Contains(before[p], q) ==> OwnerOf(cur, q) == OwnerOf(D, q)
    requires forall y :: y in before && y != before[p] ==> y in cur
    ensures Covered(cur, ps[i].min)
    ensures var after := AfterMove(cur, ps[i].min, shards[i]);
      && SameBounds(after, D)
      && (forall j, q :: 0 <= j < i + 1 && Contains(ps[j], q) ==> OwnerOf(after, q) == Some(shards[j]))
      && (forall q :: !Contains(before[p], q) ==> OwnerOf(after, q) == OwnerOf(D, q))
      && (forall y :: y in before && y != before[p] ==> y in after)
  {
    var m := ps[i].min;
    MovePiece(cur, D, before, ns, field, p, ps, i, shards[i]);
    var after := AfterMove(cur, m, shards[i]);
    PieceInChunk(before, ns, field, p, ps, i);
    forall y | y in before && y != before[p]
      ensures y in after
    {
      DisjointMembers(before, ns, field, before[p], y, m);
      var t :| 0 <= t < |cur| && cur[t] == y;
      assert after[t] == y;
    }
  }

  lemma NoDivision(before: seq<Chunk>, p: nat, pieces: seq<Chunk>)
    requires p < |before| && pieces == [before[p]] && before[p].min < before[p].max
    ensures before[..p] + Kept(pieces) + before[p + 1..] == before
  {
    assert Kept(pieces) == [before[p]];
    SplitThree(before, p, p + 1);
    assert before[p..p + 1] == [before[p]];
  }

  lemma AllPiecesMoved(cs: seq<Chunk>, x: Chunk, ns: string, field: string, pieces: seq<Chunk>, shards: seq<ShardId>)
    requires Run(pieces, ns, field) && pieces[0].min == x.min && pieces[|pieces| - 1].max == x.max
    requires |pieces| == |shards|
    requires forall j, q :: 0 <= j < |shards| && Contains(pieces[j], q) ==> OwnerOf(cs, q) == Some(shards[j])
    ensures forall q :: Contains(x, q) ==> OwnedBy(cs, q, shards)
  {
    forall q | Contains(x, q)
      ensures OwnedBy(cs, q, shards)
    {
      var j := PieceOf(pieces, ns, field, q);
    }
  }

  /** Part j of chunk x, divided into one part per shard, is on shards[j]:
      each non-empty part is a chunk of cs (with shards[j] as its shard),
      and every key of part j is owned by shards[j]. */
  ghost predicate Placed(cs: seq<Chunk>, x: Chunk, ns: string, field: string, shards: seq<ShardId>)
  {
    |shards| > 0 && x.min < x.max ==>
      var ps := Divide(x, ns, field, |shards|);
      && (forall j :: 0 <= j < |ps| && ps[j].min < ps[j].max ==> ps[j].(shard := shards[j]) in cs)
      && (forall j, q :: 0 <= j < |ps| && Contains(ps[j], q) ==> OwnerOf(cs, q) == Some(shards[j]))
  }

  /** Once part j owns its keys on shards[j], every non-empty part is a
      chunk of the catalog on shards[j]. */
  lemma PartsPlaced(cs: seq<Chunk>, D: seq<Chunk>, before: seq<Chunk>, ns: string, field: string,
                    p: nat, ps: seq<Chunk>, shards: seq<ShardId>)
    requires DividedAt(D, before, ns, field, p, ps) && SameBounds(cs, D) && |ps| == |shards|
    requires forall j, q :: 0 <= j < |ps| && Contains(ps[j], q) ==> OwnerOf(cs, q) == Some(shards[j])
    ensures forall j :: 0 <= j < |ps| && ps[j].min < ps[j].max ==> ps[j].(shard := shards[j]) in cs
  {
    forall j | 0 <= j < |ps| && ps[j].min < ps[j].max
      ensures ps[j].(shard := shards[j]) in cs
    {
      var t, jj := PieceHolder(cs, D, before, ns, field, p, ps, j);
      assert OwnerOf(cs, ps[j].min) == Some(cs[t].shard);
    }
  }

  /** The part whose bounds the chunk holding ps[i].min has once the parts
      are saved: part i when it is non-empty (or the last), and otherwise,
      the empty part being overwritten by the next save, the holder of part
      i + 1. */
  function Holder(ps: seq<Chunk>, i: nat): (h: nat)
    requires i < |ps|
    ensures i <= h < |ps|
    decreases |ps| - i
  {
    if ps[i].min < ps[i].max || i == |ps| - 1 then i else Holder(ps, i + 1)
  }

  /** In a run of parts, Holder(ps, i) is the one part that holds ps[i].min. */
  lemma {:induction false} HolderContains(ps: seq<Chunk>, ns: string, field: string, i: nat)
    requires Run(ps, ns, field) && i < |ps|
    ensures Contains(ps[Holder(ps, i)], ps[i].min)
    decreases |ps| - i
  {
    if ps[i].min == ps[i].max && i != |ps| - 1 {
      HolderContains(ps, ns, field, i + 1);
    }
  }

  lemma HolderUnique(ps: seq<Chunk>, ns: string, field: string, i: nat, jj: nat)
    requires Run(ps, ns, field) && i < |ps| && jj < |ps| && Contains(ps[jj], ps[i].min)
    ensures jj == Holder(ps, i)
  {
    var h := Holder(ps, i);
    HolderContains(ps, ns, field, i);
    if jj < h {
      RunOrdered(ps, ns, field, jj, h);
    } else if h < jj {
      RunOrdered(ps, ns, field, h, jj);
    }
  }

  /** The documents the first n moves of a chunk divided into ps count:
      move i moves the chunk with the bounds of part Holder(ps, i) to
      shards[i], and move_chunk counts the documents of that chunk there. */
  function Moves(ps: seq<Chunk>, shards: seq<ShardId>, count: (ShardId, Key, Key) -> nat, n: nat): nat
    requires n <= |ps| && n <= |shards|
  {
    if n == 0 then 0
    else
      var h := ps[Holder(ps, n - 1)];
      Moves(ps, shards, count, n - 1) + count(shards[n - 1], h.min, h.max)
  }

  lemma MovesNext(ps: seq<Chunk>, shards: seq<ShardId>, count: (ShardId, Key, Key) -> nat, n: nat, sum: nat, c: nat)
    requires n < |ps| && n < |shards| && sum == Moves(ps, shards, count, n)
    requires c == count(shards[n], ps[Holder(ps, n)].min, ps[Holder(ps, n)].max)
    ensures sum + c == Moves(ps, shards, count, n + 1)
  {
  }

  /** The documents counted by dividing and moving each chunk of divided in
      turn. */
  function RangeMoves(divided: seq<Chunk>, ns: string, field: string, shards: seq<ShardId>,
                      count: (ShardId, Key, Key) -> nat): nat
    requires forall k :: 0 <= k < |divided| ==> divided[k].min < divided[k].max
  {
    if divided == [] then 0
    else
      var x := divided[|divided| - 1];
      RangeMoves(divided[..|divided| - 1], ns, field, shards, count) + Moves(Divide(x, ns, field, |shards|), shards, count, |shards|)
  }

  /** Every part's min lies in the divided chunk. */
  lemma PieceInChunk(before: seq<Chunk>, ns: string, field: string, p: nat, ps: seq<Chunk>, i: nat)
    requires p < |before| && Run(ps, ns, field) && ps[0].min == before[p].min && ps[|ps| - 1].max == before[p].max
    requires i < |ps|
    ensures Contains(before[p], ps[i].min)
  {
    if i > 0 {
      RunOrdered(ps, ns, field, 0, i);
    }
    if i < |ps| - 1 {
      RunOrdered(ps, ns, field, i, |ps| - 1);
    }
  }

  // ---------------------------------------------------------------------------
  // balance_range

  /** The end of the span balance_range divides when start <= end: end
      itself, except that the whole chunk holding end is taken when end is
      that chunk's min, or when start == end. */
  function RangeEnd(cs: seq<Chunk>, start: Key, end: Key): (r: Key)
    requires Covered(cs, end)
    ensures end <= r <= ChunkForKey(cs, end).value.max
  {
    var last := ChunkForKey(cs, end).value;
    if last.min == end || start == end then last.max else end
  }

  /** w is the run of consecutive chunks of cs starting at index a. */
  predicate Window(cs: seq<Chunk>, a: nat, w: seq<Chunk>)
  {
    a + |w| <= |cs| && w == cs[a..a + |w|]
  }

  /** With start <= end, the chunks chunks_for_range yields are consecutive
      chunks of the catalog, from the one holding start to the one holding
      end. */
  lemma RangeWindow(cs: seq<Chunk>, ns: string, field: string, start: Key, end: Key) returns (a: nat)
    requires Partition(cs, ns, field) && start <= end && ChunksForRange(cs, start, end) != []
    ensures var w := ChunksForRange(cs, start, end);
      && Window(cs, a, w) && Contains(w[0], start) && Contains(w[|w| - 1], end)
      && w[|w| - 1] == ChunkForKey(cs, end).value
      && (start == end ==> |w| == 1)
  {
    var i := IndexForKey(cs, start).value;
    var j := IndexForKey(cs, end).value;
    StartChunkFirst(cs, ns, field, start, end, i, j);
    ChunksForRangeRun(cs, ns, field, start, end, i, j);
    IndexForKeyUnique(cs, ns, field, j, end);
    var w := cs[i..j + 1];
    assert w[0] == cs[i];
    assert w[|w| - 1] == cs[j];
    a := i;
  }

  /** Cutting the first chunk of a window at start, which it holds, and
      taking the right part in its place gives a window of the new catalog. */
  lemma TrimStartWindow(cs: seq<Chunk>, ns: string, field: string, a: nat, w: seq<Chunk>, start: Key)
    requires Partition(cs, ns, field) && Window(cs, a, w) && w != []
    requires Contains(w[0], start) && w[0].min < start
    ensures Covered(cs, start)
    ensures Window(AfterSplit(cs, ns, field, start), a + 1, w[0 := SplitPieces(cs, ns, field, start).value.1])
  {
    assert w[0] == cs[a];
    IndexForKeyUnique(cs, ns, field, a, start);
    var i, mid := SplitRun(cs, ns, field, start);
    var r := AfterSplit(cs, ns, field, start);
    var w1 := w[0 := SplitPieces(cs, ns, field, start).value.1];
    SpliceAt(cs, a, mid);
    forall t | 0 <= t < |w1|
      ensures r[a + 1 + t] == w1[t]
    {
      if t > 0 {
        assert r[(a + t) - 1 + |mid|] == cs[a + t];
      }
    }
    assert w1 == r[a + 1..a + 1 + |w1|];
  }

  /** Cutting the last chunk of a window at end, which it holds beyond its
      min, and taking the left part in its place gives a window of the new
      catalog. */
  lemma TrimEndWindow(cs: seq<Chunk>, ns: string, field: string, a: nat, w: seq<Chunk>, end: Key)
    requires Partition(cs, ns, field) && Window(cs, a, w) && w != []
    requires Contains(w[|w| - 1], end) && w[|w| - 1].min < end
    ensures Covered(cs, end) && SplitPieces(cs, ns, field, end).value.0 == w[|w| - 1].(max := end)
    ensures Window(AfterSplit(cs, ns, field, end), a, w[|w| - 1 := SplitPieces(cs, ns, field, end).value.0])
  {
    var b := a + |w| - 1;
    assert w[|w| - 1] == cs[b];
    IndexForKeyUnique(cs, ns, field, b, end);
    var i, mid := SplitRun(cs, ns, field, end);
    var r := AfterSplit(cs, ns, field, end);
    var w1 := w[|w| - 1 := SplitPieces(cs, ns, field, end).value.0];
    SpliceAt(cs, b, mid);
    forall t | 0 <= t < |w1|
      ensures r[a + t] == w1[t]
    {
      if t < |w| - 1 {
        assert r[a + t] == cs[a + t];
      } else {
        assert r[b + 0] == mid[0];
      }
    }
    assert w1 == r[a..a + |w1|];
  }

  /** What the first trim of balance_range leaves when start <= end: a window
      starting at start whose last chunk still holds end, with the max of
      the chunk that held end, and whose last chunk begins at end exactly
      when RangeEnd takes that whole chunk. */
  lemma StartTrimmed(c0: seq<Chunk>, c1: seq<Chunk>, ns: string, field: string, start: Key, end: Key,
                     a0: nat, w0: seq<Chunk>, a1: nat, w1: seq<Chunk>)
    requires Partition(c0, ns, field) && start <= end && Covered(c0, end)
    requires Window(c0, a0, w0) && w0 != [] && Contains(w0[0], start) && Contains(w0[|w0| - 1], end)
    requires w0[|w0| - 1] == ChunkForKey(c0, end).value && (start == end ==> |w0| == 1)
    requires w0[0].min < start ==>
      c1 == AfterSplit(c0, ns, field, start) && a1 == a0 + 1 && w1 == w0[0 := SplitPieces(c0, ns, field, start).value.1]
    requires !(w0[0].min < start) ==> c1 == c0 && a1 == a0 && w1 == w0
    ensures Partition(c1, ns, field) && Window(c1, a1, w1) && w1 != []
    ensures w1[0].min == start && Contains(w1[|w1| - 1], end)
    ensures w1[|w1| - 1].max == ChunkForKey(c0, end).value.max
    ensures w1[|w1| - 1].min == end <==> ChunkForKey(c0, end).value.min == end || start == end
  {
    SplitKeepsPartitionAndOwners(c0, ns, field, start);
    if w0[0].min < start {
      TrimStartWindow(c0, ns, field, a0, w0, start);
      assert ChunkForKey(c0, start) == Some(w0[0]) by {
        assert w0[0] == c0[a0];
        IndexForKeyUnique(c0, ns, field, a0, start);
      }
    }
  }

  /** What the second trim leaves when start <= end: a window from start to
      RangeEnd. */
  lemma EndTrimmed(c1: seq<Chunk>, c2: seq<Chunk>, ns: string, field: string, start: Key, end: Key,
                   a: nat, w1: seq<Chunk>, w2: seq<Chunk>, hi: Key)
    requires Partition(c1, ns, field) && Window(c1, a, w1) && w1 != []
    requires w1[0].min == start && Contains(w1[|w1| - 1], end)
    requires hi == if w1[|w1| - 1].min == end then w1[|w1| - 1].max else end
    requires w1[|w1| - 1].min != end ==>
      c2 == AfterSplit(c1, ns, field, end) && w2 == w1[|w1| - 1 := SplitPieces(c1, ns, field, end).value.0]
    requires w1[|w1| - 1].min == end ==> c2 == c1 && w2 == w1
    ensures Partition(c2, ns, field) && Window(c2, a, w2) && Partition(w2, ns, field)
    ensures w2 != [] && w2[0].min == start && w2[|w2| - 1].max == hi
    ensures |w2| == |w1| && forall k :: 0 <= k < |w2| ==> w2[k].min == w1[k].min
  {
    SplitKeepsPartitionAndOwners(c1, ns, field, end);
    if w1[|w1| - 1].min != end {
      TrimEndWindow(c1, ns, field, a, w1, end);
    }
    SlicePartition(c2, ns, field, a, a + |w2|);
  }

  /** Splitting never changes which keys the catalog covers, nor who owns
      them. */
  lemma SplitKeepsCoverage(cs: seq<Chunk>, ns: string, field: string, k: Key)
    requires Partition(cs, ns, field)
    ensures Partition(AfterSplit(cs, ns, field, k), ns, field)
    ensures forall q :: Covered(AfterSplit(cs, ns, field, k), q) == Covered(cs, q)
    ensures forall q :: OwnerOf(AfterSplit(cs, ns, field, k), q) == OwnerOf(cs, q)
  {
    SplitKeepsPartitionAndOwners(cs, ns, field, k);
    forall q
      ensures Covered(AfterSplit(cs, ns, field, k), q) == Covered(cs, q)
    {
      OwnerCovered(AfterSplit(cs, ns, field, k), q);
      OwnerCovered(cs, q);
    }
  }

  /** The chunk a lookup finds has its own min covered. */
  lemma LookupMinCovered(cs: seq<Chunk>, ns: string, field: string, k: Key)
    requires Partition(cs, ns, field) && Covered(cs, k)
    ensures Covered(cs, ChunkForKey(cs, k).value.min)
  {
    var i := IndexForKey(cs, k).value;
    IndexForKeyUnique(cs, ns, field, i, cs[i].min);
  }

  /** Each chunk of w begins at a key the catalog covers, so that looking
      it up by its min finds a chunk. */
  predicate MinsCovered(cs: seq<Chunk>, w: seq<Chunk>)
  {
    forall k :: 0 <= k < |w| ==> Covered(cs, w[k].min)
  }

  lemma MinsCoveredUpdate(cs: seq<Chunk>, w: seq<Chunk>, i: nat, c: Chunk)
    requires MinsCovered(cs, w) && i < |w| && Covered(cs, c.min)
    ensures MinsCovered(cs, w[i := c])
  {
  }

  lemma MinsCoveredTransfer(cs: seq<Chunk>, ds: seq<Chunk>, w: seq<Chunk>)
    requires MinsCovered(cs, w) && forall q :: Covered(ds, q) == Covered(cs, q)
    ensures MinsCovered(ds, w)
  {
  }

  /** Every chunk of the catalog has its min covered. */
  lemma MembersCovered(cs: seq<Chunk>, ns: string, field: string, w: seq<Chunk>)
    requires Partition(cs, ns, field) && forall c :: c in w ==> c in cs
    ensures MinsCovered(cs, w)
  {
    forall k | 0 <= k < |w|
      ensures Covered(cs, w[k].min)
    {
      assert w[k] in cs;
      var t := MemberIndex(cs, ns, field, w[k]);
      IndexForKeyUnique(cs, ns, field, t, w[k].min);
    }
  }

  /** The owners balance_range's loop keeps: keys of the chunks divided so
      far are owned by the shards; other keys keep their first owner; and
      with no shard every key keeps it. */
  ghost predicate Balanced(cs: seq<Chunk>, c0: seq<Chunk>, divided: seq<Chunk>, shards: seq<ShardId>)
  {
    && (|shards| > 0 ==> forall j, q :: 0 <= j < |divided| && Contains(divided[j], q) ==> OwnedBy(cs, q, shards))
    && (forall q :: (forall j :: 0 <= j < |divided| ==> !Contains(divided[j], q)) ==> OwnerOf(cs, q) == OwnerOf(c0, q))
    && (|shards| == 0 ==> forall q :: OwnerOf(cs, q) == OwnerOf(c0, q))
  }

  /** Dividing and moving chunk x keeps Balanced, with x added to the chunks
      divided. */
  lemma BalanceStep(cur: seq<Chunk>, next: seq<Chunk>, c0: seq<Chunk>, x: Chunk, divided: seq<Chunk>, shards: seq<ShardId>)
    requires Balanced(cur, c0, divided, shards)
    requires forall q :: !Contains(x, q) ==> OwnerOf(next, q) == OwnerOf(cur, q)
    requires |shards| > 0 ==> forall q :: Contains(x, q) ==> OwnedBy(next, q, shards)
    requires |shards| == 0 ==> next == cur
    ensures Balanced(next, c0, divided + [x], shards)
  {
    var d := divided + [x];
    if |shards| > 0 {
      forall j, q | 0 <= j < |d| && Contains(d[j], q)
        ensures OwnedBy(next, q, shards)
      {
        assert d[|divided|] == x;
        if !Contains(x, q) {
          assert j < |divided| && d[j] == divided[j];
          assert OwnedBy(cur, q, shards);
        }
      }
    }
    forall q | forall j :: 0 <= j < |d| ==> !Contains(d[j], q)
      ensures OwnerOf(next, q) == OwnerOf(c0, q)
    {
      assert d[|divided|] == x;
      forall j | 0 <= j < |divided|
        ensures !Contains(divided[j], q)
      {
        assert d[j] == divided[j];
      }
    }
  }

  /** With start <= end, the chunk the loop divides is the next chunk of
      the trimmed range, and the later ones stay in the catalog. */
  lemma RangeStep(cur: seq<Chunk>, next: seq<Chunk>, ns: string, field: string, w: seq<Chunk>, idx: nat, x: Chunk,
                  divided: seq<Chunk>)
    requires Partition(cur, ns, field) && Partition(w, ns, field) && idx < |w| && divided == w[..idx]
    requires forall k :: idx <= k < |w| ==> w[k] in cur
    requires Covered(cur, w[idx].min) && x == ChunkForKey(cur, w[idx].min).value
    requires forall y :: y in cur && y != x ==> y in next
    ensures x == w[idx] && divided + [x] == w[..idx + 1]
    ensures forall k :: idx + 1 <= k < |w| ==> w[k] in next
  {
    assert w[..idx + 1] == w[..idx] + [w[idx]];
    var t := MemberIndex(cur, ns, field, w[idx]);
    forall k | idx + 1 <= k < |w|
      ensures w[k] in next
    {
      Ordered(w, ns, field, idx, k);
    }
  }

  /** Once the chunks divided partition [lo, hi), the keys of [lo, hi) are
      owned by the shards and every other key keeps its owner. */
  lemma SpanOwners(cs: seq<Chunk>, c0: seq<Chunk>, ns: string, field: string, divided: seq<Chunk>,
                   shards: seq<ShardId>, lo: Key, hi: Key)
    requires Balanced(cs, c0, divided, shards)
    requires Partition(divided, ns, field) && divided != []
    requires divided[0].min == lo && divided[|divided| - 1].max == hi
    ensures |shards| > 0 ==> forall q :: lo <= q < hi ==> OwnedBy(cs, q, shards)
    ensures forall q :: !(lo <= q < hi) ==> OwnerOf(cs, q) == OwnerOf(c0, q)
  {
    forall q | lo <= q < hi && |shards| > 0
      ensures OwnedBy(cs, q, shards)
    {
      var u := CoverIndex(divided, ns, field, q);
    }
    forall q | !(lo <= q < hi)
      ensures OwnerOf(cs, q) == OwnerOf(c0, q)
    {
      forall j | 0 <= j < |divided|
        ensures !Contains(divided[j], q)
      {
        WithinSpan(divided, ns, field, j);
      }
    }
  }

  /** The first cut of balance_range: when the first chunk found begins
      before start, it is cut at start and its right part takes its place in
      the list. Owners and coverage stay. With start <= end the list is then
      consecutive chunks of the catalog (from index a) beginning at start,
      whose last chunk still holds end with the max of the chunk that held
      it, and begins at end exactly when RangeEnd takes that whole chunk. */
  method TrimStart(cat: Catalog, start: Key, end: Key, found: seq<Chunk>) returns (chunks: seq<Chunk>, ghost a: nat)
    requires cat.Valid() && found == ChunksForRange(cat.chunks, start, end) && found != []
    modifies cat
    ensures cat.Valid() && |chunks| == |found| && Covered(cat.chunks, end)
    ensures SameOwners(cat.chunks, old(cat.chunks))
    ensures MinsCovered(cat.chunks, chunks)
    ensures start <= end ==>
      && Window(cat.chunks, a, chunks) && chunks[0].min == start && Contains(chunks[|chunks| - 1], end)
      && chunks[|chunks| - 1].max == ChunkForKey(old(cat.chunks), end).value.max
      && (chunks[|chunks| - 1].min == end <==> ChunkForKey(old(cat.chunks), end).value.min == end || start == end)
    ensures cat.chunks == if found[0].min < start && found[0].max != start
      then AfterSplit(old(cat.chunks), cat.ns, cat.field, start) else old(cat.chunks)
    ensures chunks == if found[0].min < start && found[0].max != start
      then found[0 := SplitPieces(old(cat.chunks), cat.ns, cat.field, start).value.1] else found
  {
    ghost var c0 := cat.chunks;
    chunks := found;
    if chunks[0].min < start && chunks[0].max != start {
      var halves := cat.SplitChunk(start);
      chunks := chunks[0 := halves.value.1];
    }
    a := StartCut(c0, cat.chunks, cat.ns, cat.field, start, end, found, chunks);
  }

  /** The catalog and the list after the first cut, on values. */
  lemma StartCut(c0: seq<Chunk>, c1: seq<Chunk>, ns: string, field: string, start: Key, end: Key,
                 found: seq<Chunk>, w1: seq<Chunk>) returns (a: nat)
    requires Partition(c0, ns, field) && found == ChunksForRange(c0, start, end) && found != []
    requires found[0].min < start && found[0].max != start ==>
      c1 == AfterSplit(c0, ns, field, start) && w1 == found[0 := SplitPieces(c0, ns, field, start).value.1]
    requires !(found[0].min < start && found[0].max != start) ==> c1 == c0 && w1 == found
    ensures Partition(c1, ns, field) && |w1| == |found| && Covered(c1, end)
    ensures SameOwners(c1, c0) && MinsCovered(c1, w1)
    ensures start <= end ==>
      && Window(c1, a, w1) && w1[0].min == start && Contains(w1[|w1| - 1], end)
      && w1[|w1| - 1].max == ChunkForKey(c0, end).value.max
      && (w1[|w1| - 1].min == end <==> ChunkForKey(c0, end).value.min == end || start == end)
  {
    var a0: nat := 0;
    if start <= end {
      a0 := RangeWindow(c0, ns, field, start, end);
    }
    MembersCovered(c0, ns, field, found);
    SplitKeepsCoverage(c0, ns, field, start);
    a := a0;
    if found[0].min < start && found[0].max != start {
      MinsCoveredUpdate(c0, found, 0, SplitPieces(c0, ns, field, start).value.1);
      a := a0 + 1;
    }
    MinsCoveredTransfer(c0, c1, w1);
    if start <= end {
      StartTrimmed(c0, c1, ns, field, start, end, a0, found, a, w1);
    }
  }

  /** The second cut of balance_range: when the last chunk of the list ends
      after end and does not begin at end, the chunk holding end is cut at
      end and the left part takes the last place in the list. Owners and
      coverage stay. With start <= end the list is then consecutive chunks
      of the catalog spanning [start, hi). */
  method TrimEnd(cat: Catalog, start: Key, end: Key, chunks: seq<Chunk>, ghost a: nat, ghost hi: Key)
    returns (trimmed: seq<Chunk>)
    requires cat.Valid() && chunks != [] && MinsCovered(cat.chunks, chunks) && Covered(cat.chunks, end)
    requires start <= end ==>
      && Window(cat.chunks, a, chunks) && chunks[0].min == start && Contains(chunks[|chunks| - 1], end)
      && hi == if chunks[|chunks| - 1].min == end then chunks[|chunks| - 1].max else end
    modifies cat
    ensures cat.Valid() && |trimmed| == |chunks|
    ensures SameOwners(cat.chunks, old(cat.chunks))
    ensures MinsCovered(cat.chunks, trimmed)
    ensures start <= end ==>
      && Partition(trimmed, cat.ns, cat.field) && trimmed[0].min == start && trimmed[|trimmed| - 1].max == hi
      && forall k :: 0 <= k < |trimmed| ==> trimmed[k] in cat.chunks
    ensures start <= end ==> forall k :: 0 <= k < |trimmed| ==> trimmed[k].min == chunks[k].min
    ensures cat.chunks == if chunks[|chunks| - 1].max > end && chunks[|chunks| - 1].min != end
      then AfterSplit(old(cat.chunks), cat.ns, cat.field, end) else old(cat.chunks)
    ensures trimmed == if chunks[|chunks| - 1].max > end && chunks[|chunks| - 1].min != end
      then chunks[|chunks| - 1 := SplitPieces(old(cat.chunks), cat.ns, cat.field, end).value.0] else chunks
  {
    ghost var c1 := cat.chunks;
    trimmed := chunks;
    if trimmed[|trimmed| - 1].max > end && trimmed[|trimmed| - 1].min != end {
      var halves := cat.SplitChunk(end);
      trimmed := trimmed[|trimmed| - 1 := halves.value.0];
    }
    EndCut(c1, cat.chunks, cat.ns, cat.field, start, end, a, chunks, trimmed, hi);
  }

  /** The catalog and the list after the second cut, on values. */
  lemma EndCut(c1: seq<Chunk>, c2: seq<Chunk>, ns: string, field: string, start: Key, end: Key,
               a: nat, w1: seq<Chunk>, w2: seq<Chunk>, hi: Key)
    requires Partition(c1, ns, field) && w1 != [] && MinsCovered(c1, w1) && Covered(c1, end)
    requires start <= end ==>
      && Window(c1, a, w1) && w1[0].min == start && Contains(w1[|w1| - 1], end)
      && hi == if w1[|w1| - 1].min == end then w1[|w1| - 1].max else end
    requires w1[|w1| - 1].max > end && w1[|w1| - 1].min != end ==>
      c2 == AfterSplit(c1, ns, field, end) && w2 == w1[|w1| - 1 := SplitPieces(c1, ns, field, end).value.0]
    requires !(w1[|w1| - 1].max > end && w1[|w1| - 1].min != end) ==> c2 == c1 && w2 == w1
    ensures Partition(c2, ns, field) && |w2| == |w1|
    ensures SameOwners(c2, c1) && MinsCovered(c2, w2)
    ensures start <= end ==>
      && Partition(w2, ns, field) && w2[0].min == start && w2[|w2| - 1].max == hi
      && forall k :: 0 <= k < |w2| ==> w2[k] in c2
    ensures start <= end ==> forall k :: 0 <= k < |w2| ==> w2[k].min == w1[k].min
  {
    SplitKeepsCoverage(c1, ns, field, end);
    if w1[|w1| - 1].max > end && w1[|w1| - 1].min != end {
      LookupMinCovered(c1, ns, field, end);
      MinsCoveredUpdate(c1, w1, |w1| - 1, SplitPieces(c1, ns, field, end).value.0);
    }
    MinsCoveredTransfer(c1, c2, w2);
    if start <= end {
      EndTrimmed(c1, c2, ns, field, start, end, a, w1, w2, hi);
      WindowMembers(c2, a, w2);
    }
  }

  lemma WindowMembers(cs: seq<Chunk>, a: nat, w: seq<Chunk>)
    requires Window(cs, a, w)
    ensures forall k :: 0 <= k < |w| ==> w[k] in cs
  {
    forall k | 0 <= k < |w|
      ensures w[k] in cs
    {
      assert w[k] == cs[a + k];
    }
  }

  /** The loop of balance_range: each chunk of the list, looked up by its
      min, is divided into one part per shard and the parts are moved; the
      counts of all the moves are summed. When the list is consecutive
      chunks of the catalog, the chunks divided are exactly the list's
      chunks, and each of them ends up with part j on shards[j]. The chunks
      it does not divide stay in the catalog. */
  method DivideRange(cat: Catalog, chunks: seq<Chunk>, shards: seq<ShardId>) returns (sum: nat, ghost divided: seq<Chunk>)
    requires cat.Valid() && MinsCovered(cat.chunks, chunks)
    modifies cat
    ensures cat.Valid() && SameCoverage(cat.chunks, old(cat.chunks))
    ensures Balanced(cat.chunks, old(cat.chunks), divided, shards)
    ensures forall k :: 0 <= k < |divided| ==> divided[k].min < divided[k].max
    ensures sum == RangeMoves(divided, cat.ns, cat.field, shards, cat.docCount)
    ensures Partition(chunks, cat.ns, cat.field) && (forall k :: 0 <= k < |chunks| ==> chunks[k] in old(cat.chunks)) ==>
      divided == chunks && Positioned(cat.chunks, divided, cat.ns, cat.field, shards)
    ensures forall y :: y in old(cat.chunks) && y !in divided ==> y in cat.chunks
    ensures |shards| == 0 ==> cat.chunks == old(cat.chunks)
  {
    ghost var c0 := cat.chunks;
    ghost var inCatalog := Partition(chunks, cat.ns, cat.field) && forall k :: 0 <= k < |chunks| ==> chunks[k] in c0;
    sum, divided := DivideLoop(cat, chunks, shards, inCatalog);
    RangeLoopDone(cat.chunks, c0, cat.ns, cat.field, cat.docCount, chunks, divided, sum, shards, inCatalog);
  }

  /** The loop of DivideRange, run to the end of the list. */
  method DivideLoop(cat: Catalog, chunks: seq<Chunk>, shards: seq<ShardId>, ghost inCatalog: bool)
    returns (sum: nat, ghost divided: seq<Chunk>)
    requires cat.Valid() && MinsCovered(cat.chunks, chunks)
    requires inCatalog ==> Partition(chunks, cat.ns, cat.field) && forall k :: 0 <= k < |chunks| ==> chunks[k] in cat.chunks
    modifies cat
    ensures cat.Valid()
    ensures RangeLoop(cat.chunks, old(cat.chunks), cat.ns, cat.field, cat.docCount, chunks, |chunks|, divided, sum,
                      shards, inCatalog)
  {
    ghost var c0 := cat.chunks;
    sum := 0;
    divided := [];
    var idx := 0;
    while idx < |chunks|
      invariant idx <= |chunks| && cat.Valid()
      invariant RangeLoop(cat.chunks, c0, cat.ns, cat.field, cat.docCount, chunks, idx, divided, sum, shards, inCatalog)
    {
      sum, divided := DivideOne(cat, c0, chunks, idx, divided, sum, shards, inCatalog);
      idx := idx + 1;
    }
  }

  /** The invariant of balance_range's loop, once the whole list is done,
      gives DivideRange's outcome. */
  lemma RangeLoopDone(cs: seq<Chunk>, c0: seq<Chunk>, ns: string, field: string, docs: (ShardId, Key, Key) -> nat,
                      chunks: seq<Chunk>, divided: seq<Chunk>, sum: nat, shards: seq<ShardId>, inCatalog: bool)
    requires RangeLoop(cs, c0, ns, field, docs, chunks, |chunks|, divided, sum, shards, inCatalog)
    requires inCatalog == (Partition(chunks, ns, field) && forall k :: 0 <= k < |chunks| ==> chunks[k] in c0)
    ensures SameCoverage(cs, c0) && Balanced(cs, c0, divided, shards)
    ensures forall k :: 0 <= k < |divided| ==> divided[k].min < divided[k].max
    ensures sum == RangeMoves(divided, ns, field, shards, docs)
    ensures inCatalog ==> divided == chunks && Positioned(cs, divided, ns, field, shards)
    ensures forall y :: y in c0 && y !in divided ==> y in cs
    ensures |shards| == 0 ==> cs == c0
  {
    if inCatalog {
      assert chunks[..|chunks|] == chunks;
    }
  }

  /** One pass of balance_range's loop: the chunk holding the min of the
      list's chunk idx is divided and moved, and the count added to the
      sum. */
  method DivideOne(cat: Catalog, ghost c0: seq<Chunk>, chunks: seq<Chunk>, idx: nat, ghost divided: seq<Chunk>,
                   sum: nat, shards: seq<ShardId>, ghost inCatalog: bool) returns (next: nat, ghost d: seq<Chunk>)
    requires cat.Valid() && idx < |chunks|
    requires RangeLoop(cat.chunks, c0, cat.ns, cat.field, cat.docCount, chunks, idx, divided, sum, shards, inCatalog)
    modifies cat
    ensures cat.Valid()
    ensures RangeLoop(cat.chunks, c0, cat.ns, cat.field, cat.docCount, chunks, idx + 1, d, next, shards, inCatalog)
  {
    ghost var cur := cat.chunks;
    ghost var x := ChunkForKey(cur, chunks[idx].min).value;
    d := divided + [x];
    var moved, pieces := DivideAndMove(cat, chunks[idx].min, shards);
    RangeLoopStep(cur, cat.chunks, c0, cat.ns, cat.field, cat.docCount, chunks, idx, x, divided, sum, moved,
                  shards, inCatalog);
    next := sum + moved;
  }

  /** The invariant of balance_range's loop after idx chunks of the list. */
  ghost predicate RangeLoop(cs: seq<Chunk>, c0: seq<Chunk>, ns: string, field: string, docs: (ShardId, Key, Key) -> nat,
                            chunks: seq<Chunk>, idx: nat, divided: seq<Chunk>, sum: nat, shards: seq<ShardId>,
                            inCatalog: bool)
  {
    && |divided| == idx
    && SameCoverage(cs, c0)
    && MinsCovered(cs, chunks)
    && Balanced(cs, c0, divided, shards)
    && (forall k :: 0 <= k < |divided| ==> divided[k].min < divided[k].max)
    && sum == RangeMoves(divided, ns, field, shards, docs)
    && (forall y :: y in c0 && y !in divided ==> y in cs)
    && (|shards| == 0 ==> cs == c0)
    && (inCatalog ==>
      && Partition(chunks, ns, field) && idx <= |chunks| && divided == chunks[..idx]
      && (forall k :: idx <= k < |chunks| ==> chunks[k] in cs)
      && Positioned(cs, divided, ns, field, shards))
  }

  /** One pass of balance_range's loop keeps its invariant. */
  lemma RangeLoopStep(cur: seq<Chunk>, next: seq<Chunk>, c0: seq<Chunk>, ns: string, field: string,
                      docs: (ShardId, Key, Key) -> nat, chunks: seq<Chunk>, idx: nat, x: Chunk, divided: seq<Chunk>,
                      sum: nat, moved: nat, shards: seq<ShardId>, inCatalog: bool)
    requires Partition(cur, ns, field) && idx < |chunks|
    requires RangeLoop(cur, c0, ns, field, docs, chunks, idx, divided, sum, shards, inCatalog)
    requires x == ChunkForKey(cur, chunks[idx].min).value
    requires Partition(next, ns, field) && SameCoverage(next, cur)
    requires moved == Moves(Divide(x, ns, field, |shards|), shards, docs, |shards|)
    requires forall q :: !Contains(x, q) ==> OwnerOf(next, q) == OwnerOf(cur, q)
    requires Placed(next, x, ns, field, shards)
    requires |shards| > 0 ==> forall q :: Contains(x, q) ==> OwnedBy(next, q, shards)
    requires |shards| == 0 ==> next == cur
    requires forall y :: y in cur && y != x ==> y in next
    ensures RangeLoop(next, c0, ns, field, docs, chunks, idx + 1, divided + [x], sum + moved, shards, inCatalog)
  {
    MinsCoveredTransfer(cur, next, chunks);
    BalanceStep(cur, next, c0, x, divided, shards);
    var t := MemberIndex(cur, ns, field, x);
    RangeMovesNext(ns, field, divided, x, shards, docs, sum, moved);
    if inCatalog {
      RangeStep(cur, next, ns, field, chunks, idx, x, divided);
      PositionedStep(cur, next, ns, field, chunks, idx, x, divided, shards);
    }
  }

  /** balance_range(start, end, shards): the chunks from the one holding
      start to the one holding end are found; the first is cut at start and
      the last at end, when those are not already chunk bounds; then each of
      them is divided into one part per shard and part i is moved to shard
      i. Nothing happens, and nothing is returned, when start or end is in no
      chunk; otherwise the documents counted by the moves are summed. */
  method BalanceRange(cat: Catalog, start: Key, end: Key, shards: seq<ShardId>)
    returns (total: Option<nat>, ghost divided: seq<Chunk>)
    requires cat.Valid()
    modifies cat
    ensures cat.Valid()
    ensures RangeBalanced(cat.chunks, old(cat.chunks), cat.ns, cat.field, cat.docCount, start, end, total, divided, shards)
  {
    ghost var c0 := cat.chunks;
    var found := ChunksForRange(cat.chunks, start, end);
    if found == [] {
      NothingFound(c0, cat.ns, cat.field, cat.docCount, start, end, shards);
      return None, [];
    }
    var chunks, a := TrimStart(cat, start, end, found);
    ghost var c1 := cat.chunks;
    ghost var hi := if start <= end then RangeEnd(c0, start, end) else 0;
    ghost var w1 := chunks;
    chunks := TrimEnd(cat, start, end, chunks, a, hi);
    ghost var c2 := cat.chunks;
    var sum;
    sum, divided := DivideRange(cat, chunks, shards);
    total := Some(sum);
    if start <= end {
      assert divided == chunks;
      CutsKept(cat.chunks, c0, c1, c2, cat.ns, cat.field, start, end, found, a, w1, chunks, shards);
    }
    BalanceResult(cat.chunks, c2, c1, c0, cat.ns, cat.field, cat.docCount, chunks, divided, shards, start, end, hi, sum);
  }

  /** When lo or hi lies in no chunk, balance_range leaves the catalog as it
      was and returns nothing. */
  lemma NothingFound(c0: seq<Chunk>, ns: string, field: string, docs: (ShardId, Key, Key) -> nat, lo: Key, hi: Key,
                     shards: seq<ShardId>)
    requires ChunksForRange(c0, lo, hi) == []
    ensures RangeBalanced(c0, c0, ns, field, docs, lo, hi, None, [], shards)
  {
  }

  /** What balance_range(lo, hi) does to the catalog c0, leaving cs and
      returning total: it finds nothing, changes nothing and returns None
      when lo or hi lies in no chunk; it keeps the keys covered; it keeps
      Balanced over the chunks it divides (`divided`); the total is what
      the moves counted, docs giving the documents a shard holds in a key
      range. When lo <= hi, the chunks divided partition [lo, RangeEnd),
      each of them ends up with its part j on shards[j], every key of
      [lo, RangeEnd) is on a shard of the list when the list is not empty,
      every other key keeps its owner, and RangeKept says which other
      chunks the catalog holds. */
  ghost predicate RangeBalanced(cs: seq<Chunk>, c0: seq<Chunk>, ns: string, field: string,
                                docs: (ShardId, Key, Key) -> nat, lo: Key, hi: Key, total: Option<nat>,
                                divided: seq<Chunk>, shards: seq<ShardId>)
  {
    && (total.None? <==> ChunksForRange(c0, lo, hi) == [])
    && (total.None? ==> cs == c0)
    && SameCoverage(cs, c0)
    && Balanced(cs, c0, divided, shards)
    && (total.Some? ==>
      && (forall k :: 0 <= k < |divided| ==> divided[k].min < divided[k].max)
      && total.value == RangeMoves(divided, ns, field, shards, docs))
    && (total.Some? && lo <= hi ==>
      var e := RangeEnd(c0, lo, hi);
      && Partition(divided, ns, field) && divided != []
      && divided[0].min == lo && divided[|divided| - 1].max == e
      && Positioned(cs, divided, ns, field, shards)
      && (|shards| > 0 ==> forall q :: lo <= q < e ==> OwnedBy(cs, q, shards))
      && (forall q :: !(lo <= q < e) ==> OwnerOf(cs, q) == OwnerOf(c0, q))
      && RangeKept(cs, c0, ns, field, lo, hi, divided, shards))
  }

  /** What balance_range(lo, hi), lo <= hi, leaves of the catalog c0 besides
      the parts of the chunks it divides: it divides one chunk for each chunk
      chunks_for_range found, and after the first they begin at the same
      mins; every chunk of c0 outside [lo, RangeEnd) is still in the catalog;
      so is the left part of the chunk holding lo when that chunk began
      before lo, and the right part of the chunk holding hi when the span
      stops short of that chunk's max; with no shards the chunks divided are
      themselves in the catalog. */
  ghost predicate RangeKept(cs: seq<Chunk>, c0: seq<Chunk>, ns: string, field: string, lo: Key, hi: Key,
                            divided: seq<Chunk>, shards: seq<ShardId>)
    requires ChunksForRange(c0, lo, hi) != []
  {
    var found := ChunksForRange(c0, lo, hi);
    var first := ChunkForKey(c0, lo).value;
    var last := ChunkForKey(c0, hi).value;
    var e := RangeEnd(c0, lo, hi);
    && |divided| == |found|
    && (forall k :: 0 < k < |divided| ==> divided[k].min == found[k].min)
    && (forall y :: y in c0 && (y.max <= lo || e <= y.min) ==> y in cs)
    && (first.min < lo ==> first.(max := lo) in cs)
    && (e < last.max ==> last.(min := hi, id := ChunkId(ns, field, hi)) in cs)
    && (|shards| == 0 ==> forall k :: 0 <= k < |divided| ==> divided[k] in cs)
  }

  /** The two cuts of balance_range with start <= end, on values: the
      catalog c1 and the list w1 after the first, c2 and w2 after the
      second, as TrimStart and TrimEnd leave them. */
  ghost predicate Cuts(c0: seq<Chunk>, c1: seq<Chunk>, c2: seq<Chunk>, ns: string, field: string, start: Key,
                       end: Key, a: nat, w1: seq<Chunk>, w2: seq<Chunk>)
  {
    && Partition(c0, ns, field) && start <= end && ChunksForRange(c0, start, end) != []
    && (var found := ChunksForRange(c0, start, end);
        && |w1| == |found|
        && (found[0].min < start && found[0].max != start ==>
          c1 == AfterSplit(c0, ns, field, start) && w1 == found[0 := SplitPieces(c0, ns, field, start).value.1])
        && (!(found[0].min < start && found[0].max != start) ==> c1 == c0 && w1 == found))
    && Partition(c1, ns, field) && SameOwners(c1, c0) && Covered(c1, end)
    && Window(c1, a, w1) && Contains(w1[|w1| - 1], end)
    && w1[|w1| - 1].max == ChunkForKey(c0, end).value.max
    && (w1[|w1| - 1].min == end <==> ChunkForKey(c0, end).value.min == end || start == end)
    && (w1[|w1| - 1].max > end && w1[|w1| - 1].min != end ==>
      c2 == AfterSplit(c1, ns, field, end) && w2 == w1[|w1| - 1 := SplitPieces(c1, ns, field, end).value.0])
    && (!(w1[|w1| - 1].max > end && w1[|w1| - 1].min != end) ==> c2 == c1 && w2 == w1)
    && |w2| == |w1| && (forall k :: 0 <= k < |w2| ==> w2[k].min == w1[k].min)
    && Partition(w2, ns, field) && w2[0].min == start && w2[|w2| - 1].max == RangeEnd(c0, start, end)
    && (forall k :: 0 <= k < |w2| ==> w2[k] in c2)
  }

  /** Cuts, from what TrimStart and TrimEnd ensure. */
  lemma CutsFrom(c0: seq<Chunk>, c1: seq<Chunk>, c2: seq<Chunk>, ns: string, field: string, start: Key, end: Key,
                 found: seq<Chunk>, a: nat, w1: seq<Chunk>, w2: seq<Chunk>)
    requires Partition(c0, ns, field) && start <= end && found == ChunksForRange(c0, start, end) && found != []
    requires c1 == if found[0].min < start && found[0].max != start then AfterSplit(c0, ns, field, start) else c0
    requires w1 == if found[0].min < start && found[0].max != start
      then found[0 := SplitPieces(c0, ns, field, start).value.1] else found
    requires Partition(c1, ns, field) && SameOwners(c1, c0) && Covered(c1, end)
    requires Window(c1, a, w1) && Contains(w1[|w1| - 1], end)
    requires w1[|w1| - 1].max == ChunkForKey(c0, end).value.max
    requires w1[|w1| - 1].min == end <==> ChunkForKey(c0, end).value.min == end || start == end
    requires c2 == if w1[|w1| - 1].max > end && w1[|w1| - 1].min != end then AfterSplit(c1, ns, field, end) else c1
    requires w2 == if w1[|w1| - 1].max > end && w1[|w1| - 1].min != end
      then w1[|w1| - 1 := SplitPieces(c1, ns, field, end).value.0] else w1
    requires forall k :: 0 <= k < |w2| ==> w2[k].min == w1[k].min
    requires Partition(w2, ns, field) && w2[0].min == start && w2[|w2| - 1].max == RangeEnd(c0, start, end)
    requires forall k :: 0 <= k < |w2| ==> w2[k] in c2
    ensures Cuts(c0, c1, c2, ns, field, start, end, a, w1, w2)
  {
  }

  /** After the cuts and the loop of balance_range, RangeKept holds of the
      list w2 it divided: the loop keeps every chunk it does not divide,
      and changes nothing with no shards. */
  lemma CutsKept(cs: seq<Chunk>, c0: seq<Chunk>, c1: seq<Chunk>, c2: seq<Chunk>, ns: string, field: string,
                 start: Key, end: Key, found: seq<Chunk>, a: nat, w1: seq<Chunk>, w2: seq<Chunk>, shards: seq<ShardId>)
    requires Partition(c0, ns, field) && start <= end && found == ChunksForRange(c0, start, end) && found != []
    requires c1 == if found[0].min < start && found[0].max != start then AfterSplit(c0, ns, field, start) else c0
    requires w1 == if found[0].min < start && found[0].max != start
      then found[0 := SplitPieces(c0, ns, field, start).value.1] else found
    requires Partition(c1, ns, field) && SameOwners(c1, c0) && Covered(c1, end)
    requires Window(c1, a, w1) && Contains(w1[|w1| - 1], end)
    requires w1[|w1| - 1].max == ChunkForKey(c0, end).value.max
    requires w1[|w1| - 1].min == end <==> ChunkForKey(c0, end).value.min == end || start == end
    requires c2 == if w1[|w1| - 1].max > end && w1[|w1| - 1].min != end then AfterSplit(c1, ns, field, end) else c1
    requires w2 == if w1[|w1| - 1].max > end && w1[|w1| - 1].min != end
      then w1[|w1| - 1 := SplitPieces(c1, ns, field, end).value.0] else w1
    requires forall k :: 0 <= k < |w2| ==> w2[k].min == w1[k].min
    requires Partition(w2, ns, field) && w2[0].min == start && w2[|w2| - 1].max == RangeEnd(c0, start, end)
    requires forall k :: 0 <= k < |w2| ==> w2[k] in c2
    requires forall y :: y in c2 && y !in w2 ==> y in cs
    requires |shards| == 0 ==> cs == c2
    ensures RangeKept(cs, c0, ns, field, start, end, w2, shards)
  {
    CutsFrom(c0, c1, c2, ns, field, start, end, found, a, w1, w2);
    KeptOutside(cs, c0, c1, c2, ns, field, start, end, a, w1, w2);
    KeptFirst(cs, c0, c1, c2, ns, field, start, end, a, w1, w2);
    KeptLast(cs, c0, c1, c2, ns, field, start, end, a, w1, w2);
  }

  /** The last chunk of a window, when it holds k, is the chunk of the
      catalog holding k. */
  lemma WindowHolder(cs: seq<Chunk>, ns: string, field: string, a: nat, w: seq<Chunk>, k: Key)
    requires Partition(cs, ns, field) && Window(cs, a, w) && w != [] && Contains(w[|w| - 1], k)
    ensures ChunkForKey(cs, k) == Some(w[|w| - 1]) && WellFormed(w[|w| - 1], ns, field)
  {
    var b := a + |w| - 1;
    assert w[|w| - 1] == cs[b];
    IndexForKeyUnique(cs, ns, field, b, k);
  }

  /** A non-empty chunk lying wholly before or wholly after a partition is
      none of its chunks. */
  lemma OutsideSpan(w: seq<Chunk>, ns: string, field: string, y: Chunk)
    requires Partition(w, ns, field) && w != [] && y.min < y.max
    requires y.max <= w[0].min || w[|w| - 1].max <= y.min
    ensures y !in w
  {
    forall t | 0 <= t < |w|
      ensures w[t] != y
    {
      WithinSpan(w, ns, field, t);
    }
  }

  /** The chunks of c0 outside [start, RangeEnd) are neither cut nor
      divided. */
  lemma KeptOutside(cs: seq<Chunk>, c0: seq<Chunk>, c1: seq<Chunk>, c2: seq<Chunk>, ns: string, field: string,
                    start: Key, end: Key, a: nat, w1: seq<Chunk>, w2: seq<Chunk>)
    requires Cuts(c0, c1, c2, ns, field, start, end, a, w1, w2)
    requires forall y :: y in c2 && y !in w2 ==> y in cs
    ensures forall y :: y in c0 && (y.max <= start || RangeEnd(c0, start, end) <= y.min) ==> y in cs
  {
    var found := ChunksForRange(c0, start, end);
    var e := RangeEnd(c0, start, end);
    var last := ChunkForKey(c0, end).value;
    forall y | y in c0 && (y.max <= start || e <= y.min)
      ensures y in cs
    {
      var t := MemberIndex(c0, ns, field, y);
      assert WellFormed(c0[t], ns, field);
      assert start < e && !Contains(y, start);
      if found[0].min < start && found[0].max != start {
        SplitKeepsOthers(c0, ns, field, start);
      }
      assert y.min == end ==> last == y;
      assert !Contains(y, end);
      if w1[|w1| - 1].max > end && w1[|w1| - 1].min != end {
        SplitKeepsOthers(c1, ns, field, end);
      }
      OutsideSpan(w2, ns, field, y);
    }
  }

  /** The left part of the chunk holding start, when the first cut makes
      one, is neither cut again nor divided. */
  lemma KeptFirst(cs: seq<Chunk>, c0: seq<Chunk>, c1: seq<Chunk>, c2: seq<Chunk>, ns: string, field: string,
                  start: Key, end: Key, a: nat, w1: seq<Chunk>, w2: seq<Chunk>)
    requires Cuts(c0, c1, c2, ns, field, start, end, a, w1, w2)
    requires forall y :: y in c2 && y !in w2 ==> y in cs
    ensures var first := ChunkForKey(c0, start).value;
      first.min < start ==> first.(max := start) in cs
  {
    var first := ChunkForKey(c0, start).value;
    if first.min < start {
      SplitKeepsOthers(c0, ns, field, start);
      var left := SplitPieces(c0, ns, field, start).value.0;
      assert left == first.(max := start);
      if w1[|w1| - 1].max > end && w1[|w1| - 1].min != end {
        SplitKeepsOthers(c1, ns, field, end);
      }
      OutsideSpan(w2, ns, field, left);
    }
  }

  /** The right part of the chunk holding end, when the second cut makes
      one, is not divided. */
  lemma KeptLast(cs: seq<Chunk>, c0: seq<Chunk>, c1: seq<Chunk>, c2: seq<Chunk>, ns: string, field: string,
                 start: Key, end: Key, a: nat, w1: seq<Chunk>, w2: seq<Chunk>)
    requires Cuts(c0, c1, c2, ns, field, start, end, a, w1, w2)
    requires forall y :: y in c2 && y !in w2 ==> y in cs
    ensures var last := ChunkForKey(c0, end).value;
      RangeEnd(c0, start, end) < last.max ==> last.(min := end, id := ChunkId(ns, field, end)) in cs
  {
    var last := ChunkForKey(c0, end).value;
    if RangeEnd(c0, start, end) < last.max {
      WindowHolder(c1, ns, field, a, w1, end);
      assert OwnerOf(c1, end) == OwnerOf(c0, end);
      var t := MemberIndex(c0, ns, field, last);
      assert WellFormed(c0[t], ns, field);
      SplitKeepsOthers(c1, ns, field, end);
      var right := SplitPieces(c1, ns, field, end).value.1;
      assert right == last.(min := end, id := ChunkId(ns, field, end));
      OutsideSpan(w2, ns, field, right);
    }
  }

  /** Two catalogs give every key the same owner (and so cover the same
      keys). */
  ghost predicate SameOwners(a: seq<Chunk>, b: seq<Chunk>)
  {
    forall q :: OwnerOf(a, q) == OwnerOf(b, q)
  }

  ghost predicate SameCoverage(a: seq<Chunk>, b: seq<Chunk>)
  {
    forall q :: Covered(a, q) == Covered(b, q)
  }

  /** Each chunk of divided has its parts on the shards, part j on
      shards[j]. */
  ghost predicate Positioned(cs: seq<Chunk>, divided: seq<Chunk>, ns: string, field: string, shards: seq<ShardId>)
  {
    forall k :: 0 <= k < |divided| ==> Placed(cs, divided[k], ns, field, shards)
  }

  /** The parts of a chunk lie within it. */
  lemma {:induction false} DivideWithin(c: Chunk, ns: string, field: string, divisions: int)
    requires c.min < c.max
    decreases divisions
    ensures forall j :: 0 <= j < |Divide(c, ns, field, divisions)| ==>
      c.min <= Divide(c, ns, field, divisions)[j].min && Divide(c, ns, field, divisions)[j].max <= c.max
  {
    if divisions >= 2 {
      var s := SplitPoint(c.min, c.max, divisions);
      var rest := c.(min := s, id := ChunkId(ns, field, s));
      DivideWithin(rest, ns, field, divisions - 1);
      var t := Divide(rest, ns, field, divisions - 1);
      var r := Divide(c, ns, field, divisions);
      assert r == [c.(max := s)] + t;
      forall j | 0 <= j < |r|
        ensures c.min <= r[j].min && r[j].max <= c.max
      {
        if j > 0 {
          assert r[j] == t[j - 1] && s <= t[j - 1].min && t[j - 1].max <= c.max;
        } else {
          assert r[0] == c.(max := s);
        }
      }
    }
  }

  /** Dividing and moving a chunk x that lies after chunk y leaves y's
      parts where they were. */
  lemma PlacedKept(cur: seq<Chunk>, next: seq<Chunk>, ns: string, field: string, x: Chunk, y: Chunk,
                   shards: seq<ShardId>)
    requires Placed(cur, y, ns, field, shards) && y.max <= x.min
    requires forall q :: !Contains(x, q) ==> OwnerOf(next, q) == OwnerOf(cur, q)
    requires forall c :: c in cur && c != x ==> c in next
    ensures Placed(next, y, ns, field, shards)
  {
    if |shards| > 0 && y.min < y.max {
      var ps := Divide(y, ns, field, |shards|);
      DivideWithin(y, ns, field, |shards|);
      forall j | 0 <= j < |ps| && ps[j].min < ps[j].max
        ensures ps[j].(shard := shards[j]) in next
      {
        assert ps[j].max <= y.max;
        assert ps[j].(shard := shards[j]) in cur && ps[j].(shard := shards[j]).min < x.min;
      }
      forall j, q | 0 <= j < |ps| && Contains(ps[j], q)
        ensures OwnerOf(next, q) == Some(shards[j])
      {
        assert !Contains(x, q);
      }
    }
  }

  /** One pass of balance_range's loop over consecutive chunks w of the
      catalog keeps the chunks divided so far positioned. */
  lemma PositionedStep(cur: seq<Chunk>, next: seq<Chunk>, ns: string, field: string, w: seq<Chunk>, idx: nat,
                       x: Chunk, divided: seq<Chunk>, shards: seq<ShardId>)
    requires Partition(w, ns, field) && idx < |w| && divided == w[..idx] && x == w[idx]
    requires Positioned(cur, divided, ns, field, shards) && Placed(next, x, ns, field, shards)
    requires forall q :: !Contains(x, q) ==> OwnerOf(next, q) == OwnerOf(cur, q)
    requires forall c :: c in cur && c != x ==> c in next
    ensures Positioned(next, divided + [x], ns, field, shards)
  {
    var d := divided + [x];
    forall k | 0 <= k < |d|
      ensures Placed(next, d[k], ns, field, shards)
    {
      if k < idx {
        Ordered(w, ns, field, k, idx);
        PlacedKept(cur, next, ns, field, x, divided[k], shards);
      }
    }
  }

  /** The sum of balance_range's loop grows by the count of each chunk's
      moves. */
  lemma RangeMovesNext(ns: string, field: string, divided: seq<Chunk>, x: Chunk, shards: seq<ShardId>,
                       count: (ShardId, Key, Key) -> nat, sum: nat, moved: nat)
    requires x.min < x.max && forall k :: 0 <= k < |divided| ==> divided[k].min < divided[k].max
    requires sum == RangeMoves(divided, ns, field, shards, count)
    requires moved == Moves(Divide(x, ns, field, |shards|), shards, count, |shards|)
    ensures forall k :: 0 <= k < |divided| + 1 ==> (divided + [x])[k].min < (divided + [x])[k].max
    ensures sum + moved == RangeMoves(divided + [x], ns, field, shards, count)
  {
    assert (divided + [x])[..|divided|] == divided;
  }

  /** The outcome of balance_range, from what its cuts and its loop leave. */
  lemma BalanceResult(cs: seq<Chunk>, c2: seq<Chunk>, c1: seq<Chunk>, c0: seq<Chunk>, ns: string, field: string,
                      docs: (ShardId, Key, Key) -> nat, chunks: seq<Chunk>, divided: seq<Chunk>, shards: seq<ShardId>,
                      start: Key, end: Key, hi: Key, sum: nat)
    requires ChunksForRange(c0, start, end) != [] && (start <= end ==> hi == RangeEnd(c0, start, end))
    requires SameOwners(c2, c1) && SameOwners(c1, c0) && SameCoverage(cs, c2) && Balanced(cs, c2, divided, shards)
    requires (forall k :: 0 <= k < |divided| ==> divided[k].min < divided[k].max)
    requires sum == RangeMoves(divided, ns, field, shards, docs)
    requires start <= end ==>
      && Partition(chunks, ns, field) && chunks != []
      && chunks[0].min == start && chunks[|chunks| - 1].max == hi
      && forall k :: 0 <= k < |chunks| ==> chunks[k] in c2
    requires Partition(chunks, ns, field) && (forall k :: 0 <= k < |chunks| ==> chunks[k] in c2) ==>
      divided == chunks && Positioned(cs, divided, ns, field, shards)
    requires start <= end ==> RangeKept(cs, c0, ns, field, start, end, divided, shards)
    ensures RangeBalanced(cs, c0, ns, field, docs, start, end, Some(sum), divided, shards)
  {
    forall q
      ensures Covered(cs, q) == Covered(c0, q)
    {
      OwnerCovered(c2, q);
      OwnerCovered(c0, q);
    }
    if start <= end {
      SpanOwners(cs, c0, ns, field, divided, shards, start, hi);
    }
  }
}
