/** The query engine's block-recycling pool
    (arangod/Aql/AqlItemBlockManager.cpp).

    The manager keeps one bounded stack of spare blocks per size class
    ("bucket"). `RequestBlock` reuses a spare block from the bucket of the
    requested size or from the next larger one, and allocates a new block
    only when both are empty; `ReturnBlock` puts a block back on the stack
    of its size class unless that stack is full. */
module ItemBlocks {
  import opened Optional

  // ---------------------------------------------------------------------
  // The pool as a value: one stack per bucket, top at the end

  /** Where a request whose size class is `id` takes its block from: the
      bucket `id` when it holds a block, else bucket `id + 1` when that
      exists and holds one, else nowhere. */
  function Source<T>(pool: seq<seq<T>>, id: nat): (r: Option<nat>)
    ensures r.Some? ==> (r.value == id || r.value == id + 1) && r.value < |pool| && pool[r.value] != []
    ensures r.Some? && r.value == id + 1 ==> id < |pool| && pool[id] == []
    ensures r.None? <==> (id < |pool| ==> pool[id] == []) && (id + 1 < |pool| ==> pool[id + 1] == [])
  {
    if id < |pool| && pool[id] != [] then Some(id)
    else if id + 1 < |pool| && pool[id + 1] != [] then Some(id + 1)
    else None
  }

  /** The pool after a request of size class `id`. */
  function AfterRequest<T>(pool: seq<seq<T>>, id: nat): (r: seq<seq<T>>)
  {
    match Source(pool, id)
    case Some(i) => pool[i := pool[i][..|pool[i]| - 1]]
    case None => pool
  }

  /** The pool after returning `b` to bucket `i`, whose stack holds at most
      `cap` blocks. */
  function AfterReturn<T>(pool: seq<seq<T>>, i: nat, b: T, cap: nat): (r: seq<seq<T>>)
    requires i < |pool|
  {
    if |pool[i]| < cap then pool[i := pool[i] + [b]] else pool
  }

  /** No bucket holds more than `cap` blocks. */
  ghost predicate Bounded<T>(pool: seq<seq<T>>, cap: nat)
  {
    forall i :: 0 <= i < |pool| ==> |pool[i]| <= cap
  }

  /** The number of spare blocks in the pool. */
  function Total<T>(pool: seq<seq<T>>): (n: nat)
  {
    if pool == [] then 0 else Total(pool[..|pool| - 1]) + |pool[|pool| - 1]|
  }

  lemma {:induction false} TotalUpdate<T>(pool: seq<seq<T>>, i: nat, b: seq<T>)
    requires i < |pool|
    ensures Total(pool[i := b]) + |pool[i]| == Total(pool) + |b|
    decreases |pool|
  {
    var n := |pool| - 1;
    var upd := pool[i := b];
    assert upd[..n] == if i < n then pool[..n][i := b] else pool[..n];
    if i < n {
      TotalUpdate(pool[..n], i, b);
    }
  }

  /** A request removes exactly one spare block when it finds one and none
      otherwise; only the source bucket changes. */
  lemma RequestTakesOne<T>(pool: seq<seq<T>>, id: nat)
    ensures |AfterRequest(pool, id)| == |pool|
    ensures Source(pool, id).Some? ==> Total(AfterRequest(pool, id)) + 1 == Total(pool)
    ensures Source(pool, id).None? ==> AfterRequest(pool, id) == pool
    ensures forall j :: 0 <= j < |pool| && Some(j) != Source(pool, id) ==> AfterRequest(pool, id)[j] == pool[j]
  {
    match Source(pool, id)
    case Some(i) => TotalUpdate(pool, i, pool[i][..|pool[i]| - 1]);
    case None =>
  }

  /** A return adds exactly one spare block when the bucket has room and
      discards the block otherwise. */
  lemma ReturnAddsOne<T>(pool: seq<seq<T>>, i: nat, b: T, cap: nat)
    requires i < |pool|
    ensures |pool[i]| < cap ==> Total(AfterReturn(pool, i, b, cap)) == Total(pool) + 1
    ensures |pool[i]| >= cap ==> AfterReturn(pool, i, b, cap) == pool
  {
    if |pool[i]| < cap {
      TotalUpdate(pool, i, pool[i] + [b]);
    }
  }

  /** Neither operation lets a bucket grow beyond `cap`. */
  lemma BoundedPreserved<T>(pool: seq<seq<T>>, id: nat, i: nat, b: T, cap: nat)
    requires Bounded(pool, cap) && i < |pool|
    ensures Bounded(AfterRequest(pool, id), cap)
    ensures Bounded(AfterReturn(pool, i, b, cap), cap)
  {
  }

  /** A block returned to a bucket with room is the very block the next
      request of that size class gets, and the pool is back as it was. */
  lemma ReturnThenRequest<T>(pool: seq<seq<T>>, i: nat, b: T, cap: nat)
    requires i < |pool| && |pool[i]| < cap
    ensures Source(AfterReturn(pool, i, b, cap), i) == Some(i)
    ensures var after := AfterReturn(pool, i, b, cap); after[i][|after[i]| - 1] == b
    ensures AfterRequest(AfterReturn(pool, i, b, cap), i) == pool
  {
    var after := AfterReturn(pool, i, b, cap);
    assert after[i][..|after[i]| - 1] == pool[i];
  }

  /** Every block in the pool. */
  ghost function Blocks<T>(pool: seq<seq<T>>): set<T>
  {
    set i, k | 0 <= i < |pool| && 0 <= k < |pool[i]| :: pool[i][k]
  }

  /** The block a request of size class `id` takes, if any: the top of
      its source bucket. */
  ghost function Taken<T>(pool: seq<seq<T>>, id: nat): set<T>
  {
    match Source(pool, id)
    case Some(i) => {pool[i][|pool[i]| - 1]}
    case None => {}
  }

  // ---------------------------------------------------------------------
  // Blocks

  /** A block of `size` rows by `nrRegs` registers; `capacity` is the
      number of value slots it has room for. Its values are not modelled. */
  class AqlItemBlock {
    var size: nat
    var nrRegs: nat
    var capacity: nat

    constructor (nrItems: nat, nrRegs: nat)
      ensures size == nrItems && this.nrRegs == nrRegs && capacity == nrItems * nrRegs
    {
      size := nrItems;
      this.nrRegs := nrRegs;
      capacity := nrItems * nrRegs;
    }

    /** Sets the dimensions, growing the storage when it is too small. */
    method Rescale(nrItems: nat, nrRegs: nat)
      modifies this
      ensures size == nrItems && this.nrRegs == nrRegs
      ensures capacity >= nrItems * nrRegs && capacity >= old(capacity)
    {
      size := nrItems;
      this.nrRegs := nrRegs;
      if capacity < nrItems * nrRegs {
        capacity := nrItems * nrRegs;
      }
    }
  }

  // ---------------------------------------------------------------------
  // Buckets

  /** A bounded stack of spare blocks over a fixed array of slots: slots
      below `numItems` hold the blocks, bottom first; the rest are null. */
  class Bucket {
    const blocks: array<AqlItemBlock?>
    var numItems: nat
    ghost var Contents: seq<AqlItemBlock>

    ghost predicate Valid()
      reads this, blocks
    {
      && numItems <= blocks.Length
      && |Contents| == numItems
      && (forall k :: 0 <= k < numItems ==> blocks[k] == Contents[k])
      && (forall k :: numItems <= k < blocks.Length ==> blocks[k] == null)
    }

    /** All `numBlocks` slots start out null: the bucket is empty. */
    constructor (numBlocks: nat)
      ensures Valid() && fresh(blocks)
      ensures blocks.Length == numBlocks && Contents == []
    {
      var slots := new AqlItemBlock?[numBlocks];
      var i := 0;
      while i < numBlocks
        invariant 0 <= i <= numBlocks
        invariant forall k :: 0 <= k < i ==> slots[k] == null
      {
        slots[i] := null;
        i := i + 1;
      }
      blocks := slots;
      numItems := 0;
      Contents := [];
    }

    predicate Empty()
      reads this, blocks
      requires Valid()
    {
      numItems == 0
    }

    predicate Full()
      reads this, blocks
      requires Valid()
    {
      numItems == blocks.Length
    }

    /** Takes the top block off the stack. */
    method Pop() returns (b: AqlItemBlock)
      requires Valid() && !Empty()
      modifies this, blocks
      ensures Valid()
      ensures b == old(Contents)[|old(Contents)| - 1]
      ensures Contents == old(Contents)[..|old(Contents)| - 1]
    {
      numItems := numItems - 1;
      b := blocks[numItems];
      blocks[numItems] := null;
      Contents := Contents[..numItems];
    }

    /** Puts `b` on top of the stack. */
    method Push(b: AqlItemBlock)
      requires Valid() && !Full()
      modifies this, blocks
      ensures Valid()
      ensures Contents == old(Contents) + [b]
    {
      blocks[numItems] := b;
      numItems := numItems + 1;
      Contents := Contents + [b];
    }

    /** The blocks the destructor deletes: every non-null slot, which is
        exactly the stack. */
    method Dispose() returns (deleted: seq<AqlItemBlock>)
      requires Valid()
      ensures deleted == Contents
    {
      deleted := [];
      var i := 0;
      while i < blocks.Length
        invariant 0 <= i <= blocks.Length
        invariant deleted == Contents[..if i < numItems then i else numItems]
      {
        var b := blocks[i];
        if b != null {
          deleted := deleted + [b];
        }
        i := i + 1;
      }
    }
  }

  // ---------------------------------------------------------------------
  // The manager

  /** `numBuckets` buckets of `numBlocks` slots each; `getId` is the size
      class of a block of a given number of values. The buckets and their
      slot arrays are fixed at construction; `Buckets` and `Slots` are
      their footprints. */
  class AqlItemBlockManager {
    const numBuckets: nat
    const numBlocks: nat
    const getId: nat -> nat
    const buckets: array<Bucket>
    ghost const Buckets: set<Bucket>
    ghost const Slots: set<array<AqlItemBlock?>>
    ghost var Pool: seq<seq<AqlItemBlock>>

    ghost predicate Valid()
      reads this, buckets, Buckets, Slots
    {
      && buckets.Length == numBuckets
      && (forall n :: getId(n) < numBuckets)
      && (forall i :: 0 <= i < numBuckets ==>
            buckets[i] in Buckets && buckets[i].blocks in Slots &&
            buckets[i].blocks.Length == numBlocks && buckets[i].Valid())
      && (forall i, j :: 0 <= i < j < numBuckets ==>
            buckets[i] != buckets[j] && buckets[i].blocks != buckets[j].blocks)
      && |Pool| == numBuckets
      && (forall i :: 0 <= i < numBuckets ==> Pool[i] == buckets[i].Contents)
    }

    lemma PoolBounded()
      requires Valid()
      ensures Bounded(Pool, numBlocks)
    {
    }

    /** Every bucket starts out empty. */
    constructor (numBuckets: nat, numBlocks: nat, getId: nat -> nat)
      requires forall n :: getId(n) < numBuckets
      ensures Valid() && fresh(buckets) && fresh(Buckets) && fresh(Slots)
      ensures this.numBuckets == numBuckets && this.numBlocks == numBlocks && this.getId == getId
      ensures Pool == seq(numBuckets, i => [])
    {
      var made: seq<Bucket> := [];
      while |made| < numBuckets
        invariant |made| <= numBuckets
        invariant forall i :: 0 <= i < |made| ==>
          fresh(made[i]) && fresh(made[i].blocks) && made[i].Valid() &&
          made[i].blocks.Length == numBlocks && made[i].Contents == []
        invariant forall i, j :: 0 <= i < j < |made| ==> made[i] != made[j] && made[i].blocks != made[j].blocks
      {
        var b := new Bucket(numBlocks);
        made := made + [b];
      }
      this.numBuckets := numBuckets;
      this.numBlocks := numBlocks;
      this.getId := getId;
      buckets := new Bucket[numBuckets](i requires 0 <= i < numBuckets => made[i]);
      Buckets := set i | 0 <= i < numBuckets :: made[i];
      Slots := set i | 0 <= i < numBuckets :: made[i].blocks;
      Pool := seq(numBuckets, i => []);
    }

    /** Lines 49-52: the top block of bucket `i`, taken off its stack and
        rescaled to `nrItems` by `nrRegs`. */
    method ReuseBlock(i: nat, nrItems: nat, nrRegs: nat) returns (b: AqlItemBlock)
      requires Valid() && i < numBuckets && Pool[i] != []
      modifies this, Buckets, Slots, {Pool[i][|Pool[i]| - 1]}
      ensures Valid()
      ensures b == old(Pool)[i][|old(Pool)[i]| - 1]
      ensures Pool == old(Pool)[i := old(Pool)[i][..|old(Pool)[i]| - 1]]
      ensures b.size == nrItems && b.nrRegs == nrRegs && b.capacity >= nrItems * nrRegs
    {
      b := buckets[i].Pop();
      Pool := Pool[i := buckets[i].Contents];
      b.Rescale(nrItems, nrRegs);
    }

    /** A block of `nrItems` rows by `nrRegs` registers: a spare one from
        the bucket of that size or the next larger one, else a new one. */
    method RequestBlock(nrItems: nat, nrRegs: nat) returns (block: AqlItemBlock)
      requires Valid()
      modifies this, Buckets, Slots, Taken(Pool, getId(nrItems * nrRegs))
      ensures Valid()
      ensures block.size == nrItems && block.nrRegs == nrRegs
      ensures block.capacity >= nrItems * nrRegs
      ensures Pool == AfterRequest(old(Pool), getId(nrItems * nrRegs))
      ensures match Source(old(Pool), getId(nrItems * nrRegs))
              case Some(i) => block == old(Pool)[i][|old(Pool)[i]| - 1]
              case None => fresh(block)
      ensures forall o :: o in Blocks(old(Pool)) && o != block ==>
                o.size == old(o.size) && o.nrRegs == old(o.nrRegs) && o.capacity == old(o.capacity)
    {
      var targetSize := nrItems * nrRegs;
      ghost var id := getId(targetSize);
      var found: AqlItemBlock? := null;
      var i := getId(targetSize);
      var tries := 0;
      while tries < 2
        invariant Valid() && Pool == old(Pool)
        invariant 0 <= tries <= 2 && i == id + tries && i < numBuckets
        invariant forall k :: id <= k < i ==> Pool[k] == []
        invariant found == null
      {
        tries := tries + 1;
        if !buckets[i].Empty() {
          found := ReuseBlock(i, nrItems, nrRegs);
          break;
        }
        i := i + 1;
        if i >= numBuckets {
          break;
        }
      }
      if found == null {
        found := new AqlItemBlock(nrItems, nrRegs);
      }
      block := found;
    }

    /** Gives `block` back: it goes on the stack of its size class unless
        that stack is full, and the caller's reference is cleared. */
    method ReturnBlock(block: AqlItemBlock) returns (cleared: AqlItemBlock?)
      requires Valid()
      modifies this, Buckets, Slots
      ensures Valid()
      ensures Pool == AfterReturn(old(Pool), getId(block.size * block.nrRegs), block, numBlocks)
      ensures cleared == null
    {
      var targetSize := block.size * block.nrRegs;
      var i := getId(targetSize);
      if !buckets[i].Full() {
        buckets[i].Push(block);
        Pool := Pool[i := buckets[i].Contents];
      }
      cleared := null;
    }
  }
}
