/**
 * FakeBalancer of fake_balancer.py: a balancer whose split and move commands
 * act on a copy of the chunk catalog instead of the cluster's real
 * configuration. The copy is the `chunks` field of a Catalog object, which
 * split_chunk and move_chunk update in place.
 */
module FakeBalancer {
  import opened Wrappers
  import opened Chunks

  class Catalog {
    /** The sharded namespace ('db.collection') and its shard-key field. */
    const ns: string
    const field: string
    /** The count _count_for_chunk obtains from a shard: the number of
        documents stored on that shard whose key lies in [lo, hi], both ends
        included. The shards' data is not part of this model. */
    const docCount: (ShardId, Key, Key) -> nat
    /** The chunk documents of the namespace in the fake config collection. */
    var chunks: seq<Chunk>

    ghost predicate Valid()
      reads this
    {
      Partition(chunks, ns, field)
    }

    constructor (ns: string, field: string, docCount: (ShardId, Key, Key) -> nat, chunks: seq<Chunk>)
      requires Partition(chunks, ns, field)
      ensures Valid()
      ensures this.ns == ns && this.field == field && this.docCount == docCount && this.chunks == chunks
    {
      this.ns := ns;
      this.field := field;
      this.docCount := docCount;
      this.chunks := chunks;
    }

    /** split_chunk(key): the chunk holding key is cut at key. Its left part
        keeps the chunk's `_id` and is saved over it; the right part is a copy
        with min key and the `_id` of a chunk starting at key, and is saved as
        a new document (or over the same one, when key is the chunk's own
        min). Both parts are returned. Nothing happens, and nothing is
        returned, when no chunk holds key. */
    method SplitChunk(key: Key) returns (r: Option<(Chunk, Chunk)>)
      requires Valid()
      modifies this
      ensures Valid()
      ensures r == SplitPieces(old(chunks), ns, field, key)
      ensures chunks == AfterSplit(old(chunks), ns, field, key)
    {
      var found := IndexForKey(chunks, key);
      if found.None? {
        return None;
      }
      var i := found.value;
      var chunk := chunks[i];
      var newChunk := chunk.(min := key, id := ChunkId(ns, field, key));
      chunk := chunk.(max := key);
      SaveTwice(chunks, i, chunk, newChunk);
      // save(chunk): a document with this `_id` exists, and is replaced
      chunks := chunks[i := chunk];
      // save(new_chunk): replaces the document with the same `_id`, if any,
      // and otherwise adds a document, which in min order comes right after
      // the left part
      if newChunk.id == chunk.id {
        chunks := chunks[i := newChunk];
      } else {
        chunks := chunks[..i + 1] + [newChunk] + chunks[i + 1..];
      }
      r := Some((chunk, newChunk));
      SplitKeepsPartitionAndOwners(old(chunks), ns, field, key);
    }

    /** move_chunk(key, dest): the chunk holding key is given shard dest, and
        the documents of its range found on dest are counted. Nothing happens,
        and nothing is returned, when no chunk holds key. */
    method MoveChunk(key: Key, dest: ShardId) returns (r: Option<nat>)
      requires Valid()
      modifies this
      ensures Valid()
      ensures chunks == AfterMove(old(chunks), key, dest)
      ensures r.None? <==> !Covered(old(chunks), key)
      ensures r.Some? ==>
        var c := ChunkForKey(old(chunks), key).value;
        r.value == docCount(dest, c.min, c.max)
    {
      var found := IndexForKey(chunks, key);
      if found.None? {
        return None;
      }
      var i := found.value;
      var chunk := chunks[i].(shard := dest);
      chunks := chunks[i := chunk];
      r := Some(docCount(chunk.shard, chunk.min, chunk.max));
      MoveKeepsPartition(old(chunks), ns, field, key, dest);
    }
  }
}
