/** The segmented list of struct/slist.c. Only its bookkeeping is modelled: a
    counter `size` and a directory of blocks (an AList of block handles). A new
    block is allocated exactly when every slot of the existing blocks is in use,
    and blocks are only ever appended, never moved, replaced or freed, which is
    what makes element addresses stable. */
module StableList {
  import opened Wrappers
  import ArrayList

  /** The number of members one block holds. */
  const SLIST_BLOCK_SIZE: nat := 32

  /** A block of storage, allocated once and never resized. */
  class Block {
    /** Its size in bytes: SLIST_BLOCK_SIZE members of the list's member size. */
    const bytes: nat

    constructor (bytes: nat)
      ensures this.bytes == bytes
    {
      this.bytes := bytes;
    }
  }

  /** The bookkeeping of a list: its `_size` and its number of blocks. */
  datatype Counters = Counters(size: nat, numBlocks: nat)

  /** The number of blocks that hold `n` members without a spare block:
      ceil(n / SLIST_BLOCK_SIZE). */
  function BlocksFor(n: nat): (b: nat)
    ensures n <= b * SLIST_BLOCK_SIZE
    ensures b > 0 ==> (b - 1) * SLIST_BLOCK_SIZE < n
  {
    (n + 32 - 1) / 32
  }

  /** slist_add_last on the counters: a block is appended exactly when the size has
      reached the capacity of the blocks already there; the size grows by one. */
  function AddLastCounters(c: Counters): (r: Counters)
    ensures r.size == c.size + 1
    ensures r.numBlocks >= c.numBlocks
    ensures r.numBlocks > c.numBlocks <==> c.size == c.numBlocks * SLIST_BLOCK_SIZE
    ensures Bounded(c) ==> Bounded(r)
  {
    Counters(c.size + 1,
           if c.size == c.numBlocks * SLIST_BLOCK_SIZE then c.numBlocks + 1 else c.numBlocks)
  }

  /** slist_remove_last on the counters: the size drops by one, no block is freed. */
  function RemoveLastCounters(c: Counters): (r: Counters)
    requires c.size > 0
    ensures r.size < c.size && r.numBlocks == c.numBlocks
    ensures Bounded(c) ==> Bounded(r)
  {
    Counters(c.size - 1, c.numBlocks)
  }

  /** The list's members fit in its blocks. */
  ghost predicate Bounded(c: Counters)
  {
    c.size <= c.numBlocks * SLIST_BLOCK_SIZE
  }

  /** An operation a client applies to a list. */
  datatype Op = AddLast | RemoveLast

  /** The counters after `ops`, starting from slist_init; None when some
      RemoveLast meets an empty list, which the source does not guard against. */
  function Run(ops: seq<Op>): Option<Counters>
    decreases |ops|
  {
    if ops == [] then Some(Counters(0, 0))
    else
      match Run(ops[..|ops| - 1])
      case None => None
      case Some(c) =>
        match ops[|ops| - 1]
        case AddLast => Some(AddLastCounters(c))
        case RemoveLast => if c.size == 0 then None else Some(RemoveLastCounters(c))
  }

  /** The largest size the list reaches along `ops`. */
  function Peak(ops: seq<Op>): nat
    requires Run(ops).Some?
    decreases |ops|
  {
    if ops == [] then 0 else Max(Peak(ops[..|ops| - 1]), Run(ops).value.size)
  }

  /** One step of add_last keeps the members within the blocks and leaves at least
      one block, so the source's lookup of the last block is in range. */
  lemma AddLastKeepsBound(c: Counters)
    requires Bounded(c)
    ensures Bounded(AddLastCounters(c)) && AddLastCounters(c).numBlocks >= 1
  {
  }

  /** Along any legal sequence of operations from init the number of blocks is
      exactly what the largest size ever reached needs, and the size never exceeds
      that largest size. */
  lemma {:induction false} RunTracksPeak(ops: seq<Op>)
    requires Run(ops).Some?
    ensures Run(ops).value.numBlocks == BlocksFor(Peak(ops))
    ensures Run(ops).value.size <= Peak(ops)
  {
    if ops != [] {
      var prefix := ops[..|ops| - 1];
      RunTracksPeak(prefix);
      var c := Run(prefix).value;
      var p := Peak(prefix);
      if ops[|ops| - 1] == AddLast && c.size == p {
        if c.size == c.numBlocks * SLIST_BLOCK_SIZE {
          assert BlocksFor(p + 1) == c.numBlocks + 1;
        } else {
          assert p < c.numBlocks * SLIST_BLOCK_SIZE;
          assert BlocksFor(p + 1) == c.numBlocks;
        }
      }
    }
  }

  /** Along any legal sequence of operations from init the members fit in the
      blocks, with or without removals. */
  lemma RunIsBounded(ops: seq<Op>)
    requires Run(ops).Some?
    ensures Bounded(Run(ops).value)
  {
    RunTracksPeak(ops);
  }

  /** Without removals every add succeeds, the size is the number of adds and the
      number of blocks is ceil(size / SLIST_BLOCK_SIZE). */
  lemma {:induction false} RunWithoutRemovals(ops: seq<Op>)
    requires forall k :: 0 <= k < |ops| ==> ops[k] == AddLast
    ensures Run(ops) == Some(Counters(|ops|, BlocksFor(|ops|)))
  {
    if ops != [] {
      var prefix := ops[..|ops| - 1];
      RunWithoutRemovals(prefix);
      RunTracksPeak(prefix);
      RunPeakWithoutRemovals(prefix);
    }
  }

  /** Without removals the size only grows, so the largest size is the last. */
  lemma {:induction false} RunPeakWithoutRemovals(ops: seq<Op>)
    requires forall k :: 0 <= k < |ops| ==> ops[k] == AddLast
    requires Run(ops) == Some(Counters(|ops|, BlocksFor(|ops|)))
    ensures Peak(ops) == |ops|
  {
    if ops != [] {
      var prefix := ops[..|ops| - 1];
      RunWithoutRemovals(prefix);
      RunPeakWithoutRemovals(prefix);
    }
  }

  class SList {
    var memberSize: nat
    var size: nat
    /** The block directory: an AList of block handles. */
    const blocks: ArrayList.AList<Block?>

    /** The directory is well formed, the members fit in the blocks, and every
        directory entry in use is a block of its own. */
    ghost predicate Valid()
      reads this, blocks
    {
      blocks.Valid()
      && size <= blocks.len * SLIST_BLOCK_SIZE
      && (forall j :: 0 <= j < blocks.len ==> blocks.arr[j] != null)
      && (forall j, k :: 0 <= j < k < blocks.len ==> blocks.arr[j] != blocks.arr[k])
    }

    /** The bookkeeping the operations are specified by. */
    function Counts(): Counters
      reads this, blocks
    {
      Counters(size, blocks.len)
    }

    /** slist_init: an empty list with an empty directory whose initial buffer has
        room for SLIST_BLOCK_SIZE handles. */
    constructor Init(memberSize: nat)
      ensures Valid() && fresh(blocks)
      ensures Counts() == Counters(0, 0) && this.memberSize == memberSize
      ensures blocks.tableSz == SLIST_BLOCK_SIZE && blocks.objSz == memberSize
    {
      blocks := new ArrayList.AList.Init(seq(SLIST_BLOCK_SIZE, _ => null), memberSize, SLIST_BLOCK_SIZE);
      this.memberSize := memberSize;
      size := 0;
    }

    /** slist_len: the size, which the blocks always have room for. */
    function Len(): (n: nat)
      reads this, blocks
      requires Valid()
      ensures n == Counts().size && n <= blocks.len * SLIST_BLOCK_SIZE
    {
      size
    }

    /** slist_add_last: allocates and appends one block exactly when the size has
        reached the capacity of the existing blocks, then counts the new member.
        The blocks already in the directory stay where they are. */
    method AddLast()
      requires Valid()
      modifies this, blocks
      ensures Valid() && memberSize == old(memberSize)
      ensures Counts() == AddLastCounters(old(Counts()))
      ensures blocks.Contents()[..old(blocks.len)] == old(blocks.Contents())
      ensures blocks.len > old(blocks.len) ==>
                fresh(blocks.Contents()[old(blocks.len)])
                && blocks.Contents()[old(blocks.len)].bytes == memberSize * SLIST_BLOCK_SIZE
    {
      ghost var before := blocks.Contents();
      if size == blocks.Len() * SLIST_BLOCK_SIZE {
        var slot := blocks.Add();
        var block := new Block(memberSize * SLIST_BLOCK_SIZE);
        blocks.Put(slot, block);
        assert forall j :: 0 <= j < slot ==> blocks.arr[j] == before[j] != block;
      }
      // The source looks up the last block here and never uses it; the lookup is in range.
      var last := blocks.Get(blocks.Len() - 1);
      size := size + 1;
    }

    /** slist_remove_last: the size drops by one and no block is freed. The source
        does not check for an empty list. */
    method RemoveLast()
      requires Valid() && size > 0
      modifies this
      ensures Valid() && memberSize == old(memberSize)
      ensures Counts() == RemoveLastCounters(old(Counts()))
    {
      size := size - 1;
    }
  }
}
