/**
 * Paired teardown of a query result (`zpg_res_clear`).
 *
 * A raw result handle (a `PGresult *`) owns the text of every field; a
 * materialized block (a `zPgRes__ *`) holds pointers into that text. The
 * model tracks, per handle, whether it is still live, which raw handle each
 * block borrows from, and the ordered trace of release actions performed.
 */
module Teardown {
  import opened Wrappers

  /** Identity of a raw result handle returned by the client library. */
  type RawId = nat

  /** Identity of a block allocated by the materializer. */
  type BlockId = nat

  /** One release performed by the teardown: `PQclear` of a handle or `free` of a block. */
  datatype Action = ClearRaw(raw: RawId) | FreeBlock(block: BlockId)

  /**
   * The releases `zpg_res_clear(raw, res)` performs, in order. Either argument
   * may be absent (NULL); each present one is released exactly once, nothing
   * else is released, and the handle always goes before the block.
   */
  function ClearActions(raw: Option<RawId>, res: Option<BlockId>): (acts: seq<Action>)
    ensures forall h: RawId :: ClearRaw(h) in acts <==> raw == Some(h)
    ensures forall b: BlockId :: FreeBlock(b) in acts <==> res == Some(b)
    ensures |acts| == (if raw.Some? then 1 else 0) + (if res.Some? then 1 else 0)
    ensures forall i, j :: 0 <= i < j < |acts| ==> acts[i].ClearRaw? && acts[j].FreeBlock?
  {
    (if raw.Some? then [ClearRaw(raw.value)] else []) +
    (if res.Some? then [FreeBlock(res.value)] else [])
  }

  /**
   * Ownership state of the raw results and blocks a caller holds. A handle or
   * block is known once it is a key of its map; `true` means live, `false`
   * means released.
   */
  class Resources {
    var rawLive: map<RawId, bool>
    var blockLive: map<BlockId, bool>
    /** The raw handle whose text each block points into. */
    var borrows: map<BlockId, RawId>
    /** Every release performed so far, oldest first. */
    var trace: seq<Action>

    ghost predicate IsLiveRaw(h: RawId)
      reads this
    {
      h in rawLive && rawLive[h]
    }

    ghost predicate IsLiveBlock(b: BlockId)
      reads this
    {
      b in blockLive && blockLive[b]
    }

    /** A block may be read: it is live and so is the raw handle it borrows from. */
    ghost predicate Readable(b: BlockId)
      reads this
    {
      IsLiveBlock(b) && b in borrows && IsLiveRaw(borrows[b])
    }

    /** No live block points into a released raw handle. */
    ghost predicate Safe()
      reads this
    {
      forall b :: IsLiveBlock(b) && b in borrows ==> IsLiveRaw(borrows[b])
    }

    constructor ()
      ensures Safe()
      ensures rawLive == map[] && blockLive == map[] && borrows == map[] && trace == []
    {
      rawLive, blockLive, borrows, trace := map[], map[], map[], [];
    }

    /** The client library hands over a new raw result `h` (the result of an execute call). */
    method AddResult(h: RawId)
      requires Safe() && h !in rawLive
      modifies this
      ensures Safe() && IsLiveRaw(h)
      ensures rawLive == old(rawLive)[h := true]
      ensures blockLive == old(blockLive) && borrows == old(borrows) && trace == old(trace)
    {
      rawLive := rawLive[h := true];
    }

    /** A block `b` is materialized from the live raw result `h` and points into it. */
    method AddBlock(b: BlockId, h: RawId)
      requires Safe() && b !in blockLive && IsLiveRaw(h)
      modifies this
      ensures Safe() && Readable(b)
      ensures blockLive == old(blockLive)[b := true] && borrows == old(borrows)[b := h]
      ensures rawLive == old(rawLive) && trace == old(trace)
    {
      blockLive := blockLive[b := true];
      borrows := borrows[b := h];
    }

    /**
     * `zpg_res_clear`: clear the handle if present, then free the block if
     * present. The caller must not release anything twice, and must not clear
     * a handle while some other live block still points into it.
     */
    method ResClear(raw: Option<RawId>, res: Option<BlockId>)
      requires Safe()
      requires raw.Some? ==> IsLiveRaw(raw.value)
      requires res.Some? ==> IsLiveBlock(res.value)
      requires raw.Some? ==>
        forall b :: IsLiveBlock(b) && b in borrows && borrows[b] == raw.value ==> res == Some(b)
      modifies this
      ensures Safe()
      ensures trace == old(trace) + ClearActions(raw, res)
      ensures rawLive == if raw.Some? then old(rawLive)[raw.value := false] else old(rawLive)
      ensures blockLive == if res.Some? then old(blockLive)[res.value := false] else old(blockLive)
      ensures borrows == old(borrows)
      ensures res.Some? ==> !Readable(res.value)
      ensures raw.Some? ==> forall b :: b in borrows && borrows[b] == raw.value ==> !Readable(b)
    {
      if raw.Some? {
        rawLive := rawLive[raw.value := false];
        trace := trace + [ClearRaw(raw.value)];
      }
      if res.Some? {
        blockLive := blockLive[res.value := false];
        trace := trace + [FreeBlock(res.value)];
      }
    }
  }
}
