/**
 The runtime's bump arena over a linked chain of blocks.  Allocations since the last
 reset never overlap or move; without resets, destroying the arena frees every block.
 */
module Arena {
  import opened Sequences
  import opened Wrappers

  newtype usize = x: int | 0 <= x < 0x1_0000_0000_0000_0000

  const SIZE_MAX: usize := 0xffff_ffff_ffff_ffff
  const DEFAULT_CAPACITY: usize := 1024 * 1024

  class Block {
    const capacity: usize
    var used: usize
    var next: Block?

    constructor (capacity: usize)
      ensures this.capacity == capacity && used == 0 && next == null
    {
      this.capacity := capacity;
      used := 0;
      next := null;
    }
  }

  /** `size` bytes at `offset` in a block; pointers into a block stay as they are. */
  datatype Allocation = Allocation(block: Block, offset: int, size: int)

  ghost predicate Apart(a: Allocation, b: Allocation) {
    a.block != b.block || a.offset + a.size <= b.offset || b.offset + b.size <= a.offset
  }

  ghost predicate PairwiseApart(live: seq<Allocation>) {
    forall i, j :: 0 <= i < j < |live| ==> Apart(live[i], live[j])
  }

  /** The allocation lies, aligned, in the used part of one of the blocks. */
  ghost predicate Placed(a: Allocation, blocks: seq<Block>)
    reads blocks`used
  {
    a.block in blocks && a.offset >= 0 && a.offset % 8 == 0 && a.size >= 0 &&
    a.offset + a.size <= a.block.used as int <= a.block.capacity as int
  }

  ghost predicate AllPlaced(live: seq<Allocation>, blocks: seq<Block>)
    reads blocks`used
  {
    forall a :: a in live ==> Placed(a, blocks)
  }

  /** The blocks linked from the first to the last. */
  ghost predicate Linked(chain: seq<Block>)
    reads chain`next
  {
    chain != [] &&
    (forall i, j :: 0 <= i < |chain| - 1 && j == i + 1 ==> chain[i].next == chain[j]) &&
    chain[|chain| - 1].next == null
  }

  ghost predicate Bounded(chain: seq<Block>)
    reads chain`used
  {
    forall i :: 0 <= i < |chain| ==> chain[i].used <= chain[i].capacity && chain[i].used % 8 == 0
  }

  ghost function Members(blocks: seq<Block>): set<Block> { set b | b in blocks }

  lemma StillPlaced(live: seq<Allocation>, blocks: seq<Block>, b: Block)
    requires AllPlaced(live, blocks)
    ensures AllPlaced(live, blocks + [b])
  {
  }

  /** Cutting the chain after `at` and linking in a new block there. */
  lemma Rechained(chain: seq<Block>, made: set<Block>, at: nat, b: Block)
    requires at < |chain| && Distinct(chain) && Members(chain) <= made && b !in made
    ensures var chain', made' := chain[..at + 1] + [b], made + {b};
            Distinct(chain') && Members(chain') <= made' && chain'[..at + 2] == chain' &&
            made' - Members(chain') == made - Members(chain) + Members(chain[at + 1..])
  {
    var kept, dropped := chain[..at + 1], chain[at + 1..];
    assert chain == kept + dropped && b !in Members(chain);
    assert Members(kept) !! Members(dropped);
    assert Members(chain) == Members(kept) + Members(dropped);
    assert Members(kept + [b]) == Members(kept) + {b};
  }

  /** `(size + 7) & ~7`: the next multiple of eight. */
  function AlignUp(size: usize): (a: usize)
    requires size <= SIZE_MAX - 7
    ensures a % 8 == 0 && size <= a && a as int < size as int + 8
  {
    (size + 7) / 8 * 8
  }

  function Larger(a: usize, b: usize): usize { if a < b then b else a }

  class OscArena {
    const head: Block
    var current: Block
    const blockSize: usize
    /** What `head` leads to, and where `current` is on it. */
    ghost var chain: seq<Block>
    ghost var at: nat
    /** The allocations since the last reset. */
    ghost var live: seq<Allocation>
    /** Every block ever made. */
    ghost var made: set<Block>

    ghost predicate Valid()
      reads this, chain
    {
      Linked(chain) && Distinct(chain) && Bounded(chain) && chain[0] == head &&
      at < |chain| && chain[at] == current &&
      AllPlaced(live, chain[..at + 1]) && PairwiseApart(live) &&
      Members(chain) <= made
    }

    /** The blocks that destroying the arena does not reach. */
    ghost function Lost(): set<Block>
      reads this
    {
      made - Members(chain)
    }

    /** Nothing follows the current block. */
    ghost predicate AtEnd()
      reads this
    {
      at + 1 == |chain|
    }

    constructor (initialCapacity: usize)
      ensures Valid() && AtEnd() && fresh(made) && live == [] && Lost() == {}
      ensures blockSize == if initialCapacity == 0 then 0x10_0000 else initialCapacity
      ensures chain == [head] && head.capacity == blockSize
    {
      var capacity := if initialCapacity == 0 then DEFAULT_CAPACITY else initialCapacity;
      var first := new Block(capacity);
      head := first;
      current := first;
      blockSize := capacity;
      chain := [first];
      at := 0;
      live := [];
      made := {first};
    }

    /** Whether a request must go to a new block. */
    ghost predicate Overflows(size: usize)
      requires size <= SIZE_MAX - 7 && current.used <= current.capacity
      reads this, current
    {
      AlignUp(size) > current.capacity - current.used
    }

    /** The next bytes of the block, from `from` on, have been handed out. */
    ghost predicate Took(a: Allocation, block: Block, from: usize, size: usize)
      requires size <= SIZE_MAX - 7
      reads this, block
    {
      a == Allocation(block, from as int, size as int) && current == block &&
      block.used as int == from as int + AlignUp(size) as int
    }

    /** Panics, with no result, exactly when rounding up would overflow.  A new block
        replaces whatever followed the current one on the chain. */
    method Alloc(size: usize) returns (p: Option<Allocation>)
      requires Valid()
      modifies this, current
      ensures Valid() && fresh(made - old(made))
      ensures p.None? <==> size > SIZE_MAX - 7
      ensures p.None? ==> live == old(live) && chain == old(chain) && at == old(at) && Lost() == old(Lost())
      ensures p.Some? ==> live == old(live) + [p.value]
      ensures p.Some? && !old(Overflows(size)) ==>
                chain == old(chain) && at == old(at) && made == old(made) &&
                Took(p.value, old(current), old(current.used), size)
      ensures p.Some? && old(Overflows(size)) ==>
                AtEnd() && at == old(at) + 1 && chain[..at] == old(chain[..at + 1]) && fresh(current) &&
                current.capacity == Larger(blockSize, AlignUp(size)) && Took(p.value, current, 0, size) &&
                Lost() == old(Lost()) + Members(old(chain[at + 1..]))
      ensures p.Some? ==> (Lost() == old(Lost()) <==> !old(Overflows(size)) || old(AtEnd()))
    {
      ghost var dropped := chain[at + 1..];
      assert dropped != [] ==> dropped[0] in Members(dropped) && dropped[0] in Members(chain);
      if size > SIZE_MAX - 7 { return None; }
      var aligned := AlignUp(size);
      if aligned <= current.capacity - current.used {
        var a := Bump(aligned, size);
        return Some(a);
      }
      var a := AllocInNew(aligned, size);
      return Some(a);
    }

    /** A new block, linked in after the current one, takes the request. */
    method AllocInNew(aligned: usize, size: usize) returns (a: Allocation)
      requires Valid() && aligned % 8 == 0 && size <= aligned
      modifies this, current
      ensures Valid() && fresh(made - old(made)) && live == old(live) + [a]
      ensures AtEnd() && at == old(at) + 1 && chain[..at] == old(chain[..at + 1])
      ensures fresh(current) && current.capacity == Larger(blockSize, aligned) && current.used == aligned
      ensures a == Allocation(current, 0, size as int) && Lost() == old(Lost()) + Members(old(chain[at + 1..]))
    {
      var newCap := blockSize;
      if newCap < aligned { newCap := aligned; }
      var newBlock := new Block(newCap);
      LinkIn(newBlock);
      a := Bump(aligned, size);
    }

    /** The next `aligned` bytes of the current block. */
    method Bump(aligned: usize, size: usize) returns (a: Allocation)
      requires Valid() && aligned % 8 == 0 && size <= aligned <= current.capacity - current.used
      modifies current`used, this`live
      ensures Valid() && a == Allocation(current, old(current.used) as int, size as int) && live == old(live) + [a]
      ensures current.used == old(current.used) + aligned
    {
      a := Allocation(current, current.used as int, size as int);
      forall b | b in live ensures Apart(b, a) {
        assert Placed(b, chain[..at + 1]);
      }
      current.used := current.used + aligned;
      live := live + [a];
    }

    /** Make a new block the successor of the current one, and current. */
    method LinkIn(newBlock: Block)
      requires Valid() && newBlock !in made && newBlock.used == 0 && newBlock.next == null
      modifies current`next, this`current, this`chain, this`at, this`made
      ensures Valid() && current == newBlock && AtEnd()
      ensures at == old(at) + 1 && chain == old(chain[..at + 1]) + [newBlock]
      ensures made == old(made) + {newBlock} && Lost() == old(Lost()) + Members(old(chain[at + 1..]))
    {
      ghost var kept, made' := chain[..at + 1], made + {newBlock};
      ghost var chain' := kept + [newBlock];
      Rechained(chain, made, at, newBlock);
      SetNext(newBlock);
      StillPlaced(live, kept, newBlock);
      chain, at, current, made := chain', at + 1, newBlock, made';
      assert chain[..at + 1] == chain';
    }

    method SetNext(newBlock: Block)
      requires at < |chain| && Linked(chain) && Distinct(chain) && chain[at] == current
      requires newBlock.next == null && newBlock !in chain
      modifies current`next
      ensures Linked(chain[..at + 1] + [newBlock])
    {
      ghost var c := chain[..at + 1] + [newBlock];
      current.next := newBlock;
      assert forall i :: 0 <= i < at ==> c[i] == chain[i] && c[i] != current;
    }

    /** Empties every block on the chain and starts again at the first. */
    method Reset()
      requires Valid()
      modifies this`current, this`at, this`live, chain`used
      ensures Valid() && current == head && at == 0 && live == []
      ensures chain == old(chain) && forall b :: b in chain ==> b.used == 0
    {
      ClearAll();
      current := head;
      at := 0;
      live := [];
    }

    method ClearAll()
      requires Linked(chain) && chain[0] == head
      modifies chain`used
      ensures Bounded(chain) && forall b :: b in chain ==> b.used == 0
    {
      var block: Block? := head;
      ghost var i := 0;
      while block != null
        invariant i <= |chain|
        invariant block == if i < |chain| then chain[i] else null
        invariant forall j :: 0 <= j < i ==> chain[j].used == 0
        decreases |chain| - i
      {
        block.used := 0;
        block := block.next;
        i := i + 1;
      }
    }

    /** The blocks freed, in order: exactly those on the chain. */
    method Destroy() returns (freed: seq<Block>)
      requires Valid()
      ensures freed == chain
    {
      freed := [];
      var block: Block? := head;
      while block != null
        invariant |freed| <= |chain| && freed == chain[..|freed|]
        invariant block == if |freed| < |chain| then chain[|freed|] else null
        decreases |chain| - |freed|
      {
        var next := block.next;
        freed := freed + [block];
        block := next;
      }
    }
  }

  // ----- whole runs -----

  datatype Op = AllocOp(size: usize) | ResetOp

  ghost predicate ResetFree(ops: seq<Op>) { forall i :: 0 <= i < |ops| ==> ops[i].AllocOp? }

  /** The sizes allocated since the last reset. */
  ghost function SizesSinceReset(ops: seq<Op>): seq<int> {
    if ops == [] then []
    else
      match ops[|ops| - 1]
      case ResetOp => []
      case AllocOp(size) => SizesSinceReset(ops[..|ops| - 1]) + [size as int]
  }

  ghost function Sizes(live: seq<Allocation>): seq<int> { seq(|live|, i requires 0 <= i < |live| => live[i].size) }

  method Perform(arena: OscArena, op: Op) returns (ok: bool)
    requires arena.Valid()
    modifies arena, arena.made
    ensures arena.Valid() && fresh(arena.made - old(arena.made)) && (ok <==> !Refused(op))
    ensures !ok ==> arena.live == old(arena.live)
    ensures ok ==> Sizes(arena.live) == if op.ResetOp? then [] else Sizes(old(arena.live)) + [op.size as int]
    ensures op.AllocOp? && old(arena.AtEnd()) ==> arena.AtEnd() && arena.Lost() == old(arena.Lost())
  {
    assert arena.made >= Members(arena.chain) && arena.current in Members(arena.chain);
    match op
    case AllocOp(size) =>
      var p := arena.Alloc(size);
      ok := p.Some?;
    case ResetOp =>
      arena.Reset();
      ok := true;
  }

  /** What a run leaves behind. */
  ghost predicate After(arena: OscArena, ops: seq<Op>)
    reads arena
  {
    Sizes(arena.live) == SizesSinceReset(ops) && (ResetFree(ops) ==> arena.AtEnd() && arena.Lost() == {})
  }

  method Continue(arena: OscArena, ghost ops: seq<Op>, op: Op) returns (ok: bool)
    requires arena.Valid() && After(arena, ops)
    modifies arena, arena.made
    ensures arena.Valid() && fresh(arena.made - old(arena.made)) && (ok <==> !Refused(op))
    ensures After(arena, if ok then ops + [op] else ops)
  {
    ghost var ops' := ops + [op];
    assert ops'[..|ops|] == ops && ops'[|ops|] == op;
    assert ResetFree(ops') ==> ResetFree(ops) && op.AllocOp?;
    ok := Perform(arena, op);
  }

  lemma PlacedOnChain(arena: OscArena)
    requires arena.Valid()
    ensures AllPlaced(arena.live, arena.chain)
    ensures Members(arena.chain) <= arena.made && (arena.Lost() == {} ==> Members(arena.chain) == arena.made)
  {
    assert forall b :: b in arena.made ==> b in Members(arena.chain) || b in arena.Lost();
  }

  /** Run operations on a new arena until the end or the first panic, then destroy it.
      The live allocations are those since the last reset; without resets nothing leaks. */
  method RunOps(initialCapacity: usize, ops: seq<Op>)
    returns (done: nat, ghost live: seq<Allocation>, freed: seq<Block>, ghost made: set<Block>)
    ensures done <= |ops| && (done < |ops| <==> exists i :: 0 <= i < |ops| && Refused(ops[i]))
    ensures done < |ops| ==> Refused(ops[done])
    ensures Sizes(live) == SizesSinceReset(ops[..done]) && PairwiseApart(live)
    ensures AllPlaced(live, freed)
    ensures Members(freed) <= made && (ResetFree(ops[..done]) ==> Members(freed) == made)
  {
    var arena := new OscArena(initialCapacity);
    done := 0;
    while done < |ops|
      invariant done <= |ops| && fresh(arena) && arena.Valid() && fresh(arena.made)
      invariant After(arena, ops[..done]) && forall i :: 0 <= i < done ==> !Refused(ops[i])
      decreases |ops| - done
    {
      assert ops[..done + 1] == ops[..done] + [ops[done]];
      var ok := Continue(arena, ops[..done], ops[done]);
      if !ok { break; }
      done := done + 1;
    }
    live, made := arena.live, arena.made;
    freed := arena.Destroy();
    PlacedOnChain(arena);
  }

  /** A request too large to round up. */
  predicate Refused(op: Op) { op.AllocOp? && op.size > SIZE_MAX - 7 }

  /** After a reset, growing again drops the blocks that followed the first: here one. */
  method ResetLosesABlock() returns (freed: seq<Block>, ghost made: set<Block>)
    ensures Members(freed) < made
  {
    var arena := new OscArena(8);
    assert arena.current == arena.chain[0] && arena.head in arena.made;
    var first := arena.Alloc(16);
    assert |arena.chain| == 2 && arena.made >= Members(arena.chain);
    arena.Reset();
    assert arena.Overflows(16) && !arena.AtEnd();
    var second := arena.Alloc(16);
    made := arena.made;
    freed := arena.Destroy();
  }
}
