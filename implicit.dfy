/** sdfs.c: the implicit-list allocator with next-fit search. Words are 4
    bytes (WSIZE), blocks are multiples of 8 bytes (DSIZE) and at least 16.
    The allocator keeps two pointers besides the arena: heap_listp, the
    prologue's payload, and last_fitp, the block where the last search
    stopped. */
module Implicit {
  import opened Block
  import opened Layout
  import opened Chain
  import opened Memlib

  const W: nat := 4
  const DSIZE: nat := 8
  const CHUNKSIZE: nat := 4096

  /** A block that find_fit may return for a request of asize bytes. */
  predicate Fits(b: Blk, asize: nat) {
    !b.alloc && asize <= b.size
  }

  /** The first block in [from, to) that fits, or -1. */
  function ScanFrom(bs: seq<Blk>, from: nat, to: nat, asize: nat): (k: int)
    requires from <= to <= |bs|
    ensures k == -1 || (from <= k < to && Fits(bs[k], asize))
    ensures k == -1 <==> forall t :: from <= t < to ==> !Fits(bs[t], asize)
    ensures k != -1 ==> (forall t :: from <= t < k ==> !Fits(bs[t], asize))
    decreases (to as int) - (from as int)
  {
    if from == to then -1
    else if Fits(bs[from], asize) then from
    else ScanFrom(bs, from + 1, to, asize)
  }

  /** Next-fit from rover j (-1 = the prologue): the blocks after j up to
      the epilogue, then from the start of the chain up to but not
      including j. */
  function NextFit(bs: seq<Blk>, j: int, asize: nat): (k: int)
    requires -1 <= j < |bs|
    ensures k == -1 || (0 <= k < |bs| && k != j && Fits(bs[k], asize))
  {
    var k := ScanFrom(bs, j + 1, |bs|, asize);
    if k != -1 then k
    else if j < 0 then -1
    else ScanFrom(bs, 0, j, asize)
  }

  /** What next-fit finds: a fitting block other than the rover's, the
      first such after the rover in wrap-around order, and nothing only
      when no block other than the rover's fits. The rover's own block is
      never examined. */
  lemma NextFitSpec(bs: seq<Blk>, j: int, asize: nat)
    requires -1 <= j < |bs|
    ensures var k := NextFit(bs, j, asize);
            (k == -1 <==> forall t :: 0 <= t < |bs| && t != j ==> !Fits(bs[t], asize)) &&
            (k != -1 ==> 0 <= k < |bs| && k != j && Fits(bs[k], asize)) &&
            (k > j ==> forall t :: j < t < k ==> !Fits(bs[t], asize)) &&
            (0 <= k < j ==> (forall t :: j < t < |bs| ==> !Fits(bs[t], asize)) &&
                            (forall t :: 0 <= t < k ==> !Fits(bs[t], asize)))
  {
  }

  /** The rover after coalescing block i, as the corrected coalesce keeps
      it: at block i when nothing merges (case 1), and otherwise where the
      merge of [MergeLo, MergeHi) moves it. */
  function CoalesceRover(bs: seq<Blk>, i: nat, j: int): (r: int)
    requires i < |bs|
    ensures !PrevFree(bs, i) && !NextFree(bs, i) ==> r == i
    ensures (PrevFree(bs, i) || NextFree(bs, i)) && j < MergeLo(bs, i) ==> r == j
    ensures -1 <= j < |bs| ==> -1 <= r < |Coalesced(bs, i)|
  {
    if !PrevFree(bs, i) && !NextFree(bs, i) then i
    else MergedRover(MergeLo(bs, i), MergeHi(bs, i), j)
  }

  /** The rover after place on block i: a split inserts the remainder
      after block i, so a rover past i moves up by one index. */
  function PlaceRover(bs: seq<Blk>, i: nat, asize: nat, j: int): (r: int)
    requires i < |bs| && asize <= bs[i].size
    ensures r == j || r == j + 1
    ensures j <= i ==> r == j
    ensures -1 <= j < |bs| ==> -1 <= r < |Placed(W, bs, i, asize)|
  {
    if bs[i].size - asize >= 2 * DSIZE && j > i then j + 1 else j
  }

  /** The block mm_malloc appends when no block fits asize bytes: the
      extension of MAX(asize, CHUNKSIZE) bytes, as a free block. */
  function Extension(asize: nat): (b: Blk)
    requires asize % DSIZE == 0
    ensures !b.alloc && asize <= b.size && b.size % DSIZE == 0
  {
    var words := Max(asize, CHUNKSIZE) / W;
    assert words * W == Max(asize, CHUNKSIZE);
    Blk(ExtendBytes(words, W), false)
  }

  /** The blocks after a successful mm_malloc of asize bytes with the
      rover at j: the next-fit block placed, or else the extension
      appended, coalesced with a free last block, and placed. */
  ghost function Malloced(bs: seq<Blk>, j: int, asize: nat): seq<Blk>
    requires -1 <= j < |bs| && asize % DSIZE == 0
  {
    var f := NextFit(bs, j, asize);
    if f != -1 then Placed(W, bs, f, asize)
    else
      var n, grown := |bs|, bs + [Extension(asize)];
      CoalescedBlock(grown, n);
      Placed(W, Coalesced(grown, n), MergeLo(grown, n), asize)
  }

  /** The rover after a successful mm_malloc: the block placed. */
  function MallocRover(bs: seq<Blk>, j: int, asize: nat): (r: int)
    requires -1 <= j < |bs| && asize % DSIZE == 0
    ensures 0 <= r <= |bs|
  {
    var f := NextFit(bs, j, asize);
    if f != -1 then f else MergeLo(bs + [Extension(asize)], |bs|)
  }

  /** The blocks after mm_free(ptr): the block freed and coalesced. */
  ghost function FreedBlocks(bs: seq<Blk>, ptr: int): seq<Blk>
    requires ptr in Live(W, bs)
  {
    var i := LiveIndex(W, bs, ptr);
    Coalesced(Freed(bs, i), i)
  }

  /** The rover after mm_free(ptr), as the corrected coalesce keeps it. */
  ghost function FreedRover(bs: seq<Blk>, ptr: int, j: int): int
    requires ptr in Live(W, bs)
  {
    var i := LiveIndex(W, bs, ptr);
    CoalesceRover(Freed(bs, i), i, j)
  }

  /** place moves no block pointer: the rover's new index names the
      address it named before. */
  lemma PlaceRoverPtr(bs: seq<Blk>, i: nat, asize: nat, j: int)
    requires i < |bs| && asize <= bs[i].size && -1 <= j < |bs|
    ensures -1 <= PlaceRover(bs, i, asize, j) < |Placed(W, bs, i, asize)|
    ensures BlockPtr(W, Placed(W, bs, i, asize), PlaceRover(bs, i, asize, j)) == BlockPtr(W, bs, j)
  {
    PlacedFacts(W, bs, i, asize);
    var c := bs[i].size;
    if c - asize >= 2 * DSIZE {
      var r' := [Blk(asize, true), Blk(c - asize, false)];
      SumTwo(r'[0], r'[1]);
      assert bs[i..i + 1] == [bs[i]];
      SumOne(bs[i]);
      HdrReplace(W, bs, i, i + 1, r');
      if j > i {
        PtrShift(W, bs, i, i + 1, r', j);
      }
    } else {
      PtrRetag(W, bs, i, true, j);
    }
  }

  /** What find_fit reads at block pointer k (-1 = the prologue): the
      fit test holds exactly for a fitting regular block, and NEXT_BLKP
      steps to block k + 1. */
  lemma FitAt(m: map<int, nat>, brk: int, bs: seq<Blk>, k: int, asize: nat)
    requires Shaped(m, W, brk, bs) && -1 <= k < |bs|
    ensures var bp := BlockPtr(W, bs, k);
            (!GetAlloc(Word(m, Hdrp(W, bp))) && asize <= GetSize(Word(m, Hdrp(W, bp)), DSIZE)) <==>
              (k >= 0 && Fits(bs[k], asize))
    ensures NextBlkp(m, W, BlockPtr(W, bs, k)) == BlockPtr(W, bs, k + 1)
  {
    PtrNext(m, W, brk, bs, k);
    if k < 0 {
      AlignedPack(W, DSIZE, true);
    } else {
      BlockAt(m, W, brk, bs, k);
    }
  }

  /** find_fit's first loop stops at the epilogue: the size it reads at
      block pointer k is positive exactly before the end of the chain. */
  lemma EndAt(m: map<int, nat>, brk: int, bs: seq<Blk>, k: nat)
    requires Shaped(m, W, brk, bs) && k <= |bs|
    ensures GetSize(Word(m, Hdrp(W, BlockPtr(W, bs, k))), DSIZE) > 0 <==> k < |bs|
  {
    if k < |bs| {
      BlockAt(m, W, brk, bs, k);
    } else {
      EpilogueAt(m, W, brk, bs);
    }
  }

  class ImplicitHeap {
    const arena: Arena
    /** heap_listp: the prologue's payload once mm_init has run. */
    var heapListp: int
    /** last_fitp: the block where the last search stopped. */
    var lastFitp: int
    /** The regular blocks of the arena, prologue and epilogue excluded. */
    ghost var blocks: seq<Blk>
    /** The index of last_fitp's block, -1 for the prologue. */
    ghost var rover: int

    /** The arena is in shape and last_fitp points at a block start. */
    ghost predicate Valid()
      reads this, arena
    {
      Shaped(arena.mem, W, arena.brk, blocks) && heapListp == 2 * W &&
      -1 <= rover < |blocks| && lastFitp == BlockPtr(W, blocks, rover)
    }

    /** The live allocations: payload pointer to block size. */
    ghost function Allocated(): map<int, nat>
      reads this
    {
      Live(W, blocks)
    }

    constructor (maxHeap: nat)
      ensures fresh(arena) && arena.brk == 0 && arena.maxHeap == maxHeap
    {
      arena := new Arena(maxHeap);
      heapListp := 0;
      lastFitp := 0;
      blocks := [];
      rover := -1;
    }

    /** coalesce case 2, the next block free: PUT the merged size at
        HDRP(bp), then at FTRP(bp), which now lies at the end of the next
        block. */
    method MergeNext(bp: int, ghost bs: seq<Blk>, ghost i: nat) returns (size: nat)
      requires Shaped(arena.mem, W, arena.brk, bs) && i < |bs| && bp == Payload(W, bs, i)
      requires !bs[i].alloc && !PrevFree(bs, i) && NextFree(bs, i)
      modifies arena
      ensures arena.brk == old(arena.brk) && Shaped(arena.mem, W, arena.brk, Coalesced(bs, i))
      ensures size == Sum(bs[i..i + 2]) && bp + size == BlockPtr(W, bs, i + 2)
    {
      ghost var m0 := arena.mem;
      CoalesceSizes(m0, W, arena.brk, bs, i);
      RunBounds(m0, W, arena.brk, bs, i);
      size := GetSize(Word(arena.mem, Hdrp(W, bp)), DSIZE);
      size := size + GetSize(Word(arena.mem, Hdrp(W, NextBlkp(arena.mem, W, bp))), DSIZE);
      ghost var a := Hdrp(W, bp);
      arena.Put(Hdrp(W, bp), Pack(size, false));
      FtrpAfterHeader(m0, W, bp, size, false);
      ghost var b := Ftrp(arena.mem, W, bp);
      arena.Put(Ftrp(arena.mem, W, bp), Pack(size, false));
      MergedShape(m0, W, arena.brk, bs, i, i + 2, false, a, b, Pack(size, false), arena.mem, Coalesced(bs, i));
    }

    /** coalesce case 3, the previous block free: PUT the merged size at
        FTRP(bp), then at the header of PREV_BLKP(bp), which becomes the
        merged block. */
    method MergePrev(bp: int, ghost bs: seq<Blk>, ghost i: nat) returns (p: int, size: nat)
      requires Shaped(arena.mem, W, arena.brk, bs) && i < |bs| && bp == Payload(W, bs, i)
      requires !bs[i].alloc && PrevFree(bs, i) && !NextFree(bs, i)
      modifies arena
      ensures arena.brk == old(arena.brk) && Shaped(arena.mem, W, arena.brk, Coalesced(bs, i))
      ensures size == Sum(bs[i - 1..i + 1]) && p == Payload(W, bs, i - 1) && p + size == BlockPtr(W, bs, i + 1)
    {
      ghost var m0 := arena.mem;
      CoalesceSizes(m0, W, arena.brk, bs, i);
      RunBounds(m0, W, arena.brk, bs, i);
      size := GetSize(Word(arena.mem, Hdrp(W, bp)), DSIZE);
      size := size + GetSize(Word(arena.mem, Hdrp(W, PrevBlkp(arena.mem, W, bp))), DSIZE);
      CoalescePrevPuts(m0, W, arena.brk, bs, i, Pack(size, false));
      ghost var a := Ftrp(arena.mem, W, bp);
      arena.Put(Ftrp(arena.mem, W, bp), Pack(size, false));
      ghost var b := Hdrp(W, PrevBlkp(arena.mem, W, bp));
      arena.Put(Hdrp(W, PrevBlkp(arena.mem, W, bp)), Pack(size, false));
      p := PrevBlkp(arena.mem, W, bp);
      MergedShape(m0, W, arena.brk, bs, i - 1, i + 1, false, a, b, Pack(size, false), arena.mem, Coalesced(bs, i));
    }

    /** coalesce case 4, both neighbours free: PUT the merged size at the
        header of PREV_BLKP(bp) and at the footer of NEXT_BLKP(bp). */
    method MergeBoth(bp: int, ghost bs: seq<Blk>, ghost i: nat) returns (p: int, size: nat)
      requires Shaped(arena.mem, W, arena.brk, bs) && i < |bs| && bp == Payload(W, bs, i)
      requires !bs[i].alloc && PrevFree(bs, i) && NextFree(bs, i)
      modifies arena
      ensures arena.brk == old(arena.brk) && Shaped(arena.mem, W, arena.brk, Coalesced(bs, i))
      ensures size == Sum(bs[i - 1..i + 2]) && p == Payload(W, bs, i - 1) && p + size == BlockPtr(W, bs, i + 2)
    {
      ghost var m0 := arena.mem;
      CoalesceSizes(m0, W, arena.brk, bs, i);
      RunBounds(m0, W, arena.brk, bs, i);
      size := GetSize(Word(arena.mem, Hdrp(W, bp)), DSIZE);
      size := size + (GetSize(Word(arena.mem, Hdrp(W, PrevBlkp(arena.mem, W, bp))), DSIZE)
                      + GetSize(Word(arena.mem, Ftrp(arena.mem, W, NextBlkp(arena.mem, W, bp))), DSIZE));
      CoalesceBothPuts(m0, W, arena.brk, bs, i, Pack(size, false));
      ghost var a := Hdrp(W, PrevBlkp(arena.mem, W, bp));
      arena.Put(Hdrp(W, PrevBlkp(arena.mem, W, bp)), Pack(size, false));
      ghost var b := Ftrp(arena.mem, W, NextBlkp(arena.mem, W, bp));
      arena.Put(Ftrp(arena.mem, W, NextBlkp(arena.mem, W, bp)), Pack(size, false));
      p := PrevBlkp(arena.mem, W, bp);
      MergedShape(m0, W, arena.brk, bs, i - 1, i + 2, false, a, b, Pack(size, false), arena.mem, Coalesced(bs, i));
    }

    /** coalesce(bp) on the free block i, with last_fitp moved to the
        merged block whenever the merge swallows its block. */
    method Coalesce(bp: int, ghost i: nat) returns (r: int)
      requires Valid() && i < |blocks| && bp == Payload(W, blocks, i) && !blocks[i].alloc
      modifies this, arena
      ensures Valid() && arena.brk == old(arena.brk)
      ensures blocks == Coalesced(old(blocks), i)
      ensures r == Payload(W, blocks, MergeLo(old(blocks), i))
      ensures Allocated() == old(Allocated())
      ensures rover == CoalesceRover(old(blocks), i, old(rover))
    {
      ghost var bs, j := blocks, rover;
      NeighbourFlags(arena.mem, W, arena.brk, bs, i);
      var prevAlloc := GetAlloc(Word(arena.mem, Ftrp(arena.mem, W, PrevBlkp(arena.mem, W, bp))));
      var nextAlloc := GetAlloc(Word(arena.mem, Hdrp(W, NextBlkp(arena.mem, W, bp))));
      if prevAlloc && nextAlloc {
        CoalesceNone(bs, i);
        lastFitp := bp;
        rover := i;
        return bp;
      }
      MergedRoverPtr(arena.mem, W, arena.brk, bs, MergeLo(bs, i), MergeHi(bs, i), false, j);
      CoalescedAlloc(W, 3 * W, bs, i);
      var p, size;
      if prevAlloc {
        size := MergeNext(bp, bs, i);
        p := bp;
      } else if nextAlloc {
        p, size := MergePrev(bp, bs, i);
      } else {
        p, size := MergeBoth(bp, bs, i);
      }
      blocks := Coalesced(bs, i);
      if p < lastFitp < p + size {
        lastFitp := p;
      }
      rover := CoalesceRover(bs, i, j);
      r := p;
    }

    /** place's split branch: PUT PACK(asize, 1) at HDRP(bp) and FTRP(bp),
        step to NEXT_BLKP(bp), and PUT the free remainder's tags there. */
    method PlaceSplit(bp: int, csize: nat, asize: nat, ghost bs: seq<Blk>, ghost i: nat)
      requires Shaped(arena.mem, W, arena.brk, bs) && i < |bs| && bp == Payload(W, bs, i)
      requires csize == bs[i].size && asize % DSIZE == 0 && 2 * DSIZE <= asize && csize - asize >= 2 * DSIZE
      modifies arena
      ensures arena.brk == old(arena.brk) && Shaped(arena.mem, W, arena.brk, Placed(W, bs, i, asize))
      ensures Live(W, Placed(W, bs, i, asize)) == Live(W, bs)[bp := asize]
    {
      ghost var m0 := arena.mem;
      PlaceAddrs(m0, W, arena.brk, bs, i);
      SplitAddrs(m0, W, bp, asize, csize - asize);
      ghost var a1 := Hdrp(W, bp);
      arena.Put(Hdrp(W, bp), Pack(asize, true));
      ghost var a2 := Ftrp(arena.mem, W, bp);
      arena.Put(Ftrp(arena.mem, W, bp), Pack(asize, true));
      var next := NextBlkp(arena.mem, W, bp);
      ghost var a3 := Hdrp(W, next);
      arena.Put(Hdrp(W, next), Pack(csize - asize, false));
      ghost var a4 := Ftrp(arena.mem, W, next);
      arena.Put(Ftrp(arena.mem, W, next), Pack(csize - asize, false));
      PlaceSplitShape(m0, W, arena.brk, bs, i, asize, a1, a2, a3, a4, arena.mem);
    }

    /** PUT PACK(size, alloc) at HDRP(bp) and FTRP(bp), with size the
        block's own: place's whole-block branch (alloc set) and mm_free
        (alloc clear). */
    method Retag(bp: int, size: nat, alloc: bool, ghost bs: seq<Blk>, ghost i: nat)
      requires Shaped(arena.mem, W, arena.brk, bs) && i < |bs| && bp == Payload(W, bs, i)
      requires size == bs[i].size
      modifies arena
      ensures arena.brk == old(arena.brk)
      ensures Shaped(arena.mem, W, arena.brk, bs[..i] + [Blk(size, alloc)] + bs[i + 1..])
      ensures Live(W, bs[..i] + [Blk(size, alloc)] + bs[i + 1..]) ==
              if alloc then Live(W, bs)[bp := size] else Live(W, bs) - {bp}
    {
      ghost var m0 := arena.mem;
      BlockAt(m0, W, arena.brk, bs, i);
      ghost var a := Hdrp(W, bp);
      arena.Put(Hdrp(W, bp), Pack(size, alloc));
      FtrpAfterHeader(m0, W, bp, size, alloc);
      ghost var b := Ftrp(arena.mem, W, bp);
      arena.Put(Ftrp(arena.mem, W, bp), Pack(size, alloc));
      assert bs[i..i + 1] == [bs[i]];
      SumOne(bs[i]);
      MergedShape(m0, W, arena.brk, bs, i, i + 1, alloc, a, b, Pack(size, alloc), arena.mem,
                  bs[..i] + [Blk(size, alloc)] + bs[i + 1..]);
      LiveOne(W, bs, i, alloc);
    }

    /** place(bp, asize) on block i (free, or allocated when mm_realloc
        shrinks in place): split off the remainder as a free block when it
        is at least 2*DSIZE, otherwise allocate the whole block. */
    method Place(bp: int, asize: nat, ghost i: nat)
      requires Valid() && i < |blocks| && bp == Payload(W, blocks, i)
      requires asize % DSIZE == 0 && 2 * DSIZE <= asize <= blocks[i].size
      modifies this, arena
      ensures Valid() && arena.brk == old(arena.brk) && lastFitp == old(lastFitp)
      ensures blocks == Placed(W, old(blocks), i, asize) && Payload(W, blocks, i) == bp
      ensures rover == PlaceRover(old(blocks), i, asize, old(rover))
      ensures Allocated() == old(Allocated())[bp := blocks[i].size]
    {
      ghost var bs, j := blocks, rover;
      PlaceAddrs(arena.mem, W, arena.brk, bs, i);
      PlacedFacts(W, bs, i, asize);
      PlaceRoverPtr(bs, i, asize, j);
      var csize := GetSize(Word(arena.mem, Hdrp(W, bp)), DSIZE);
      if csize - asize >= 2 * DSIZE {
        PlaceSplit(bp, csize, asize, bs, i);
      } else {
        Retag(bp, csize, true, bs, i);
      }
      blocks := Placed(W, bs, i, asize);
      rover := PlaceRover(bs, i, asize, j);
      assert blocks[..i] == bs[..i];
    }

    /** extend_heap(words): grow the arena by an even number of words, lay
        a free block over the new space (its header overwrites the old
        epilogue), write a new epilogue, and coalesce the block with a free
        block before it. NULL (0) when the arena cannot grow. */
    method ExtendHeap(words: nat) returns (bp: int)
      requires Valid() && words >= 4
      modifies this, arena
      ensures Valid() && Allocated() == old(Allocated())
      ensures bp == 0 <==> old(arena.brk) + ExtendBytes(words, W) > arena.maxHeap
      ensures bp == 0 ==> blocks == old(blocks) && rover == old(rover) && arena.brk == old(arena.brk)
      ensures bp != 0 ==>
                var n, grown := |old(blocks)|, old(blocks) + [Blk(ExtendBytes(words, W), false)];
                arena.brk == old(arena.brk) + ExtendBytes(words, W) &&
                blocks == Coalesced(grown, n) && rover == CoalesceRover(grown, n, old(rover)) &&
                bp == Payload(W, blocks, MergeLo(grown, n))
    {
      var size := ExtendBytes(words, W);
      ghost var m0, brk0, bs := arena.mem, arena.brk, blocks;
      var ok, p := arena.Sbrk(size);
      if !ok {
        return 0;
      }
      bp := p;
      ghost var t := Pack(size, false);
      ghost var a1 := Hdrp(W, bp);
      arena.Put(Hdrp(W, bp), Pack(size, false));
      FtrpAfterHeader(m0, W, bp, size, false);
      ghost var a2 := Ftrp(arena.mem, W, bp);
      arena.Put(Ftrp(arena.mem, W, bp), Pack(size, false));
      NextBlkpFrame(m0[a1 := t], W, bp, a2, t);
      ghost var a3 := Hdrp(W, NextBlkp(arena.mem, W, bp));
      arena.Put(Hdrp(W, NextBlkp(arena.mem, W, bp)), Pack(0, true));
      ExtendShape(m0, W, brk0, bs, size, a1, a2, a3, arena.mem);
      PtrAppend(W, bs, Blk(size, false), rover);
      blocks := bs + [Blk(size, false)];
      bp := Coalesce(bp, |bs|);
    }

    /** mm_init on an empty arena: the padding word, the prologue and the
        epilogue, heap_listp and last_fitp on the prologue, then one free
        block of CHUNKSIZE bytes. 0 on success, -1 when the arena is too
        small. */
    method MmInit() returns (r: int)
      requires arena.brk == 0
      modifies this, arena
      ensures r == 0 || r == -1
      ensures r == 0 <==> 4 * W + CHUNKSIZE <= arena.maxHeap
      ensures r == 0 ==> Valid() && blocks == [Blk(CHUNKSIZE, false)] && Allocated() == map[] &&
                         lastFitp == Payload(W, blocks, 0)
    {
      var ok, p := arena.Sbrk(4 * W);
      if !ok {
        return -1;
      }
      heapListp := p;
      ghost var m0 := arena.mem;
      arena.Put(heapListp, 0);
      arena.Put(heapListp + 1 * W, Pack(DSIZE, true));
      arena.Put(heapListp + 2 * W, Pack(DSIZE, true));
      arena.Put(heapListp + 3 * W, Pack(0, true));
      InitShape(m0, W, 0, W, 2 * W, 3 * W, arena.mem);
      heapListp := heapListp + 2 * W;
      lastFitp := heapListp;
      blocks := [];
      rover := -1;
      var bp := ExtendHeap(CHUNKSIZE / W);
      if bp == 0 {
        return -1;
      }
      CoalesceNone([Blk(CHUNKSIZE, false)], 0);
      return 0;
    }

    /** The two loops of find_fit(asize): from the block after last_fitp
        up to the epilogue, then from the prologue up to last_fitp, to the
        first free block of at least asize bytes. They read the arena and
        change nothing; k is the index of the block found, -1 for none. */
    method NextFitScan(asize: nat) returns (bp: int, ghost k: int)
      requires Valid()
      ensures var f := NextFit(blocks, rover, asize);
              bp == if f == -1 then 0 else Payload(W, blocks, f)
      ensures k == NextFit(blocks, rover, asize)
    {
      ghost var m, brk, bs, j := arena.mem, arena.brk, blocks, rover;
      var found := false;
      bp := lastFitp;
      FitAt(m, brk, bs, j, asize);
      bp := NextBlkp(arena.mem, W, bp);
      k := j + 1;
      EndAt(m, brk, bs, k);
      while GetSize(Word(arena.mem, Hdrp(W, bp)), DSIZE) > 0
        invariant j + 1 <= k <= |bs| && bp == BlockPtr(W, bs, k)
        invariant GetSize(Word(m, Hdrp(W, bp)), DSIZE) > 0 <==> k < |bs|
        invariant ScanFrom(bs, j + 1, |bs|, asize) == ScanFrom(bs, k, |bs|, asize)
        decreases |bs| - k
      {
        FitAt(m, brk, bs, k, asize);
        if !GetAlloc(Word(arena.mem, Hdrp(W, bp))) && asize <= GetSize(Word(arena.mem, Hdrp(W, bp)), DSIZE) {
          found := true;
          break;
        }
        bp := NextBlkp(arena.mem, W, bp);
        k := k + 1;
        EndAt(m, brk, bs, k);
      }
      if !found {
        bp := heapListp;
        k := -1;
        PtrOrder(m, W, brk, bs, k, j);
        while bp < lastFitp
          invariant -1 <= k <= j && bp == BlockPtr(W, bs, k)
          invariant bp < lastFitp <==> k < j
          invariant 0 <= j ==> ScanFrom(bs, 0, j, asize) == ScanFrom(bs, if k < 0 then 0 else k, j, asize)
          decreases j - k
        {
          FitAt(m, brk, bs, k, asize);
          if !GetAlloc(Word(arena.mem, Hdrp(W, bp))) && asize <= GetSize(Word(arena.mem, Hdrp(W, bp)), DSIZE) {
            found := true;
            break;
          }
          bp := NextBlkp(arena.mem, W, bp);
          k := k + 1;
          PtrOrder(m, W, brk, bs, k, j);
        }
      }
      if !found {
        bp, k := 0, -1;
      }
    }

    /** find_fit(asize), next fit: the block NextFitScan finds becomes
        last_fitp. NULL (0) when no block fits. */
    method FindFit(asize: nat) returns (bp: int)
      requires Valid()
      modifies this
      ensures Valid() && blocks == old(blocks)
      ensures var k := NextFit(blocks, old(rover), asize);
              (k == -1 ==> bp == 0 && rover == old(rover)) &&
              (k != -1 ==> bp == Payload(W, blocks, k) && rover == k)
    {
      ghost var k;
      bp, k := NextFitScan(asize);
      if bp != 0 {
        lastFitp := bp;
        rover := k;
      }
    }

    /** place(bp, asize); last_fitp = bp; -- the two steps that end both
        of mm_malloc's success paths, on the free block k. */
    method PlaceFit(bp: int, asize: nat, ghost k: nat)
      requires Valid() && k < |blocks| && bp == Payload(W, blocks, k) && !blocks[k].alloc
      requires asize % DSIZE == 0 && 2 * DSIZE <= asize <= blocks[k].size
      modifies this, arena
      ensures Valid() && arena.brk == old(arena.brk) && lastFitp == bp && rover == k
      ensures blocks == Placed(W, old(blocks), k, asize)
      ensures Grants(old(Allocated()), Allocated(), bp, asize) && bp % DSIZE == 0
    {
      LiveAt(W, blocks, k);
      Place(bp, asize, k);
      PlacedFacts(W, old(blocks), k, asize);
      PayloadAligned(arena.mem, W, arena.brk, blocks, k);
      lastFitp := bp;
      rover := k;
    }

    /** mm_malloc(size): NULL for size 0; otherwise adjust the request,
        place it in the block find_fit returns, or else extend the heap by
        MAX(asize, CHUNKSIZE) bytes and place it in the block extend_heap
        returns; the block placed becomes last_fitp. */
    method MmMalloc(size: nat) returns (bp: int)
      requires Valid()
      modifies this, arena
      ensures Valid()
      ensures var asize := AdjustSize(size, DSIZE);
              bp == 0 <==> size == 0 ||
                           (NextFit(old(blocks), old(rover), asize) == -1 &&
                            old(arena.brk) + ExtendBytes(Max(asize, CHUNKSIZE) / W, W) > arena.maxHeap)
      ensures bp == 0 ==> Allocated() == old(Allocated()) && blocks == old(blocks) && rover == old(rover)
      ensures bp != 0 ==> Grants(old(Allocated()), Allocated(), bp, AdjustSize(size, DSIZE)) &&
                          bp % DSIZE == 0 && lastFitp == bp
      ensures var asize, f := AdjustSize(size, DSIZE), NextFit(old(blocks), old(rover), AdjustSize(size, DSIZE));
              size > 0 && f != -1 ==>
                bp == Payload(W, old(blocks), f) && arena.brk == old(arena.brk) &&
                blocks == Placed(W, old(blocks), f, asize) && rover == f
      ensures var asize := AdjustSize(size, DSIZE);
              size > 0 && NextFit(old(blocks), old(rover), asize) == -1 && bp != 0 ==>
                var n, grown := |old(blocks)|, old(blocks) + [Blk(ExtendBytes(Max(asize, CHUNKSIZE) / W, W), false)];
                var lo := MergeLo(grown, n);
                bp == Payload(W, grown, lo) && asize <= Coalesced(grown, n)[lo].size &&
                blocks == Placed(W, Coalesced(grown, n), lo, asize) && rover == lo
      ensures bp != 0 ==> blocks == Malloced(old(blocks), old(rover), AdjustSize(size, DSIZE)) &&
                          rover == MallocRover(old(blocks), old(rover), AdjustSize(size, DSIZE))
    {
      if size == 0 {
        return 0;
      }
      var asize: nat;
      if size <= DSIZE {
        asize := 2 * DSIZE;
      } else {
        asize := DSIZE * ((size + DSIZE + (DSIZE - 1)) / DSIZE);
      }
      assert asize == AdjustSize(size, DSIZE);
      bp := FindFit(asize);
      if bp != 0 {
        PlaceFit(bp, asize, rover);
        return;
      }
      bp := ExtendPlace(asize);
    }

    /** mm_malloc's last resort: extend_heap(MAX(asize, CHUNKSIZE)/WSIZE)
        and place the request in the block it returns, which becomes
        last_fitp; NULL when the arena cannot grow by that much. */
    method ExtendPlace(asize: nat) returns (bp: int)
      requires Valid() && asize % DSIZE == 0 && 2 * DSIZE <= asize
      modifies this, arena
      ensures Valid()
      ensures bp == 0 <==> old(arena.brk) + ExtendBytes(Max(asize, CHUNKSIZE) / W, W) > arena.maxHeap
      ensures bp == 0 ==> Allocated() == old(Allocated()) && blocks == old(blocks) && rover == old(rover)
      ensures bp != 0 ==> Grants(old(Allocated()), Allocated(), bp, asize) && bp % DSIZE == 0 && lastFitp == bp
      ensures bp != 0 ==>
                var n, grown := |old(blocks)|, old(blocks) + [Blk(ExtendBytes(Max(asize, CHUNKSIZE) / W, W), false)];
                var lo := MergeLo(grown, n);
                bp == Payload(W, grown, lo) && asize <= Coalesced(grown, n)[lo].size &&
                blocks == Placed(W, Coalesced(grown, n), lo, asize) && rover == lo
    {
      var extendsize := Max(asize, CHUNKSIZE);
      ghost var n, grown := |blocks|, blocks + [Blk(ExtendBytes(extendsize / W, W), false)];
      assert extendsize / W * W == extendsize;
      bp := ExtendHeap(extendsize / W);
      if bp == 0 {
        return 0;
      }
      CoalescedBlock(grown, n);
      assert Coalesced(grown, n)[..MergeLo(grown, n)] == grown[..MergeLo(grown, n)];
      PlaceFit(bp, asize, MergeLo(grown, n));
    }

    /** mm_free(ptr) on a live allocation: PUT the block's tags back as
        free, then coalesce it with its free neighbours. */
    method MmFree(ptr: int)
      requires Valid() && ptr in Allocated()
      modifies this, arena
      ensures Valid() && arena.brk == old(arena.brk)
      ensures Allocated() == old(Allocated()) - {ptr}
      ensures blocks == FreedBlocks(old(blocks), ptr) && rover == FreedRover(old(blocks), ptr, old(rover))
    {
      ghost var bs, j := blocks, rover;
      ghost var i := LiveIndex(W, bs, ptr);
      PlaceAddrs(arena.mem, W, arena.brk, bs, i);
      var size := GetSize(Word(arena.mem, Hdrp(W, ptr)), DSIZE);
      Retag(ptr, size, false, bs, i);
      PtrRetag(W, bs, i, false, j);
      PtrRetag(W, bs, i, false, i);
      blocks := bs[..i] + [Blk(size, false)] + bs[i + 1..];
      var _ := Coalesce(ptr, i);
    }

    /** The PUTs of mm_realloc's second case: PACK(total, 1) at HDRP(ptr)
        and then at FTRP(ptr), which now lies at the end of the next
        block. */
    method GrowWrites(ptr: int, total: nat, ghost bs: seq<Blk>, ghost i: nat)
      requires Shaped(arena.mem, W, arena.brk, bs) && i + 1 < |bs| && ptr == Payload(W, bs, i)
      requires total == bs[i].size + bs[i + 1].size
      modifies arena
      ensures arena.brk == old(arena.brk)
      ensures Shaped(arena.mem, W, arena.brk, bs[..i] + [Blk(total, true)] + bs[i + 2..])
    {
      ghost var m0 := arena.mem;
      GrowAddrs(m0, W, arena.brk, bs, i);
      ghost var a := Hdrp(W, ptr);
      arena.Put(Hdrp(W, ptr), Pack(total, true));
      FtrpAfterHeader(m0, W, ptr, total, true);
      ghost var b := Ftrp(arena.mem, W, ptr);
      arena.Put(Ftrp(arena.mem, W, ptr), Pack(total, true));
      MergedShape(m0, W, arena.brk, bs, i, i + 2, true, a, b, Pack(total, true), arena.mem,
                  bs[..i] + [Blk(total, true)] + bs[i + 2..]);
    }

    /** mm_realloc's second case: the allocated block i takes in the free
        block after it. When last_fitp named the swallowed block it moves
        to ptr. */
    method Absorb(ptr: int, total: nat, ghost i: nat)
      requires Valid() && i + 1 < |blocks| && ptr == Payload(W, blocks, i)
      requires !blocks[i + 1].alloc && total == blocks[i].size + blocks[i + 1].size
      modifies this, arena
      ensures Valid() && arena.brk == old(arena.brk)
      ensures blocks == Absorbed(old(blocks), i)
      ensures Payload(W, blocks, i) == ptr
      ensures Allocated() == old(Allocated())[ptr := total]
      ensures rover == MergedRover(i, i + 2, old(rover))
    {
      ghost var bs, j := blocks, rover;
      GrowAddrs(arena.mem, W, arena.brk, bs, i);
      MergedRoverPtr(arena.mem, W, arena.brk, bs, i, i + 2, true, j);
      LiveAbsorb(W, bs, i);
      GrowWrites(ptr, total, bs, i);
      blocks := bs[..i] + [Blk(total, true)] + bs[i + 2..];
      if ptr < lastFitp < ptr + total {
        lastFitp := ptr;
      }
      rover := MergedRover(i, i + 2, j);
    }

    /** mm_realloc's last case: mm_malloc a new block, copy the smaller
        of the old payload and size bytes into it, and free the old block;
        when mm_malloc fails, keep the old block and return NULL. copy is
        the number of bytes memmove copies. */
    method ReallocMove(ptr: int, size: nat, oldPayload: nat) returns (r: int, copy: nat)
      requires Valid() && ptr in Allocated() && size > 0 && oldPayload + DSIZE == Allocated()[ptr]
      modifies this, arena
      ensures Valid()
      ensures r == 0 ==> copy == 0 && Allocated() == old(Allocated())
      ensures r != 0 ==> r != ptr && Moves(old(Allocated()), Allocated(), ptr, r, AdjustSize(size, DSIZE)) &&
                         copy == (if oldPayload < size then oldPayload else size) &&
                         copy + DSIZE <= Allocated()[r]
      ensures var asize := AdjustSize(size, DSIZE);
              r == 0 <==> NextFit(old(blocks), old(rover), asize) == -1 &&
                          old(arena.brk) + ExtendBytes(Max(asize, CHUNKSIZE) / W, W) > arena.maxHeap
      ensures r == 0 ==> blocks == old(blocks) && rover == old(rover)
      ensures var f := NextFit(old(blocks), old(rover), AdjustSize(size, DSIZE));
              f != -1 ==> r == Payload(W, old(blocks), f)
      ensures r != 0 ==>
                var asize := AdjustSize(size, DSIZE);
                var g := Malloced(old(blocks), old(rover), asize);
                ptr in Live(W, g) && blocks == FreedBlocks(g, ptr) &&
                rover == FreedRover(g, ptr, MallocRover(old(blocks), old(rover), asize))
    {
      var newPtr := MmMalloc(size);
      if newPtr == 0 {
        return 0, 0;
      }
      copy := if oldPayload < size then oldPayload else size;
      ghost var grown := Allocated();
      MmFree(ptr);
      GrantThenRelease(old(Allocated()), grown, Allocated(), ptr, newPtr, AdjustSize(size, DSIZE));
      return newPtr, copy;
    }

    /** mm_realloc's second case: block i absorbs the free block after
        it, then place splits the adjusted size off the front. */
    method GrowInPlace(ptr: int, total: nat, newAsize: nat, ghost i: nat)
      requires Valid() && i + 1 < |blocks| && ptr == Payload(W, blocks, i)
      requires !blocks[i + 1].alloc && total == blocks[i].size + blocks[i + 1].size
      requires newAsize % DSIZE == 0 && 2 * DSIZE <= newAsize <= total
      modifies this, arena
      ensures Valid()
      ensures Resizes(old(Allocated()), Allocated(), ptr, newAsize)
      ensures blocks == Placed(W, Absorbed(old(blocks), i), i, newAsize)
      ensures rover == PlaceRover(Absorbed(old(blocks), i), i, newAsize, MergedRover(i, i + 2, old(rover)))
    {
      ghost var bs := blocks;
      Absorb(ptr, total, i);
      Place(ptr, newAsize, i);
      PlacedFacts(W, Absorbed(bs, i), i, newAsize);
    }

    /** mm_realloc on a live block and a positive size: shrink in place
        when the adjusted size fits the block, grow in place into a free
        next block when the two together suffice, and otherwise move. */
    method ReallocBlock(ptr: int, size: nat) returns (r: int, copy: nat)
      requires Valid() && ptr in Allocated() && size > 0
      modifies this, arena
      ensures Valid()
      ensures AdjustSize(size, DSIZE) <= old(Allocated())[ptr] ==> r == ptr
      ensures r == 0 ==> copy == 0 && Allocated() == old(Allocated())
      ensures r == ptr ==> copy == 0 && Resizes(old(Allocated()), Allocated(), ptr, AdjustSize(size, DSIZE))
      ensures r != 0 && r != ptr ==>
                Moves(old(Allocated()), Allocated(), ptr, r, AdjustSize(size, DSIZE)) &&
                copy == (if old(Allocated())[ptr] - DSIZE < size then old(Allocated())[ptr] - DSIZE else size) &&
                copy + DSIZE <= Allocated()[r]
      ensures var bs, i, asize := old(blocks), LiveIndex(W, old(blocks), ptr), AdjustSize(size, DSIZE);
              asize <= bs[i].size ==>
                blocks == Placed(W, bs, i, asize) && rover == PlaceRover(bs, i, asize, old(rover))
      ensures var bs, i, asize := old(blocks), LiveIndex(W, old(blocks), ptr), AdjustSize(size, DSIZE);
              GrowsInPlace(bs, i, asize) ==>
                r == ptr && blocks == Placed(W, Absorbed(bs, i), i, asize) &&
                rover == PlaceRover(Absorbed(bs, i), i, asize, MergedRover(i, i + 2, old(rover)))
      ensures var bs, i, asize := old(blocks), LiveIndex(W, old(blocks), ptr), AdjustSize(size, DSIZE);
              r == 0 <==> asize > bs[i].size && !GrowsInPlace(bs, i, asize) &&
                          NextFit(bs, old(rover), asize) == -1 &&
                          old(arena.brk) + ExtendBytes(Max(asize, CHUNKSIZE) / W, W) > arena.maxHeap
      ensures r == 0 ==> blocks == old(blocks) && rover == old(rover)
      ensures var bs, i, asize := old(blocks), LiveIndex(W, old(blocks), ptr), AdjustSize(size, DSIZE);
              var f := NextFit(bs, old(rover), asize);
              asize > bs[i].size && !GrowsInPlace(bs, i, asize) && f != -1 ==> r == Payload(W, bs, f)
      ensures var bs, i, asize := old(blocks), LiveIndex(W, old(blocks), ptr), AdjustSize(size, DSIZE);
              asize > bs[i].size && !GrowsInPlace(bs, i, asize) && r != 0 ==>
                var g := Malloced(bs, old(rover), asize);
                ptr in Live(W, g) && blocks == FreedBlocks(g, ptr) &&
                rover == FreedRover(g, ptr, MallocRover(bs, old(rover), asize))
    {
      ghost var bs := blocks;
      ghost var i := LiveIndex(W, bs, ptr);
      PlaceAddrs(arena.mem, W, arena.brk, bs, i);
      var oldBlock := GetSize(Word(arena.mem, Hdrp(W, ptr)), DSIZE);
      var oldPayload := oldBlock - DSIZE;
      var newAsize: nat;
      if size <= DSIZE {
        newAsize := 2 * DSIZE;
      } else {
        newAsize := DSIZE * ((size + DSIZE + (DSIZE - 1)) / DSIZE);
      }
      assert newAsize == AdjustSize(size, DSIZE);
      if newAsize <= oldBlock {
        Place(ptr, newAsize, i);
        PlacedFacts(W, bs, i, newAsize);
        return ptr, 0;
      }
      NeighbourFlags(arena.mem, W, arena.brk, bs, i);
      CoalesceSizes(arena.mem, W, arena.brk, bs, i);
      if !GetAlloc(Word(arena.mem, Hdrp(W, NextBlkp(arena.mem, W, ptr)))) &&
         oldBlock + GetSize(Word(arena.mem, Hdrp(W, NextBlkp(arena.mem, W, ptr))), DSIZE) >= newAsize {
        var total := oldBlock + GetSize(Word(arena.mem, Hdrp(W, NextBlkp(arena.mem, W, ptr))), DSIZE);
        GrowInPlace(ptr, total, newAsize, i);
        return ptr, 0;
      }
      r, copy := ReallocMove(ptr, size, oldPayload);
    }

    /** mm_realloc(ptr, size): mm_malloc for a NULL ptr, mm_free and NULL
        for size 0, and otherwise ReallocBlock. */
    method MmRealloc(ptr: int, size: nat) returns (r: int, copy: nat)
      requires Valid() && (ptr == 0 || ptr in Allocated())
      modifies this, arena
      ensures Valid()
      ensures r == 0 && (ptr == 0 || size > 0) ==> Allocated() == old(Allocated())
      ensures ptr == 0 && r != 0 ==> Grants(old(Allocated()), Allocated(), r, AdjustSize(size, DSIZE))
      ensures ptr != 0 && size == 0 ==> r == 0 && Allocated() == old(Allocated()) - {ptr}
      ensures ptr != 0 && size > 0 && AdjustSize(size, DSIZE) <= old(Allocated())[ptr] ==> r == ptr
      ensures ptr != 0 && r == ptr ==> Resizes(old(Allocated()), Allocated(), ptr, AdjustSize(size, DSIZE))
      ensures ptr != 0 && r != 0 && r != ptr ==>
                Moves(old(Allocated()), Allocated(), ptr, r, AdjustSize(size, DSIZE)) &&
                copy == (if old(Allocated())[ptr] - DSIZE < size then old(Allocated())[ptr] - DSIZE else size) &&
                copy + DSIZE <= Allocated()[r]
      ensures r == 0 || r == ptr ==> copy == 0
      ensures var asize := AdjustSize(size, DSIZE);
              ptr == 0 ==> (r == 0 <==> size == 0 ||
                                         (NextFit(old(blocks), old(rover), asize) == -1 &&
                                          old(arena.brk) + ExtendBytes(Max(asize, CHUNKSIZE) / W, W) > arena.maxHeap))
      ensures var f := NextFit(old(blocks), old(rover), AdjustSize(size, DSIZE));
              ptr == 0 && size > 0 && f != -1 ==> r == Payload(W, old(blocks), f)
      ensures ptr == 0 && r != 0 ==>
                blocks == Malloced(old(blocks), old(rover), AdjustSize(size, DSIZE)) &&
                rover == MallocRover(old(blocks), old(rover), AdjustSize(size, DSIZE))
      ensures ptr != 0 && size == 0 ==>
                blocks == FreedBlocks(old(blocks), ptr) && rover == FreedRover(old(blocks), ptr, old(rover))
      ensures ptr != 0 && size > 0 ==>
                var bs, i, asize := old(blocks), LiveIndex(W, old(blocks), ptr), AdjustSize(size, DSIZE);
                (asize <= bs[i].size ==>
                   blocks == Placed(W, bs, i, asize) && rover == PlaceRover(bs, i, asize, old(rover))) &&
                (GrowsInPlace(bs, i, asize) ==>
                   r == ptr && blocks == Placed(W, Absorbed(bs, i), i, asize) &&
                   rover == PlaceRover(Absorbed(bs, i), i, asize, MergedRover(i, i + 2, old(rover)))) &&
                (r == 0 <==> asize > bs[i].size && !GrowsInPlace(bs, i, asize) &&
                             NextFit(bs, old(rover), asize) == -1 &&
                             old(arena.brk) + ExtendBytes(Max(asize, CHUNKSIZE) / W, W) > arena.maxHeap) &&
                (asize > bs[i].size && !GrowsInPlace(bs, i, asize) && NextFit(bs, old(rover), asize) != -1 ==>
                   r == Payload(W, bs, NextFit(bs, old(rover), asize))) &&
                (asize > bs[i].size && !GrowsInPlace(bs, i, asize) && r != 0 ==>
                   var g := Malloced(bs, old(rover), asize);
                   ptr in Live(W, g) && blocks == FreedBlocks(g, ptr) &&
                   rover == FreedRover(g, ptr, MallocRover(bs, old(rover), asize)))
      ensures r == 0 && size > 0 ==> blocks == old(blocks) && rover == old(rover)
    {
      if ptr == 0 {
        r := MmMalloc(size);
        return r, 0;
      }
      if size == 0 {
        MmFree(ptr);
        return 0, 0;
      }
      r, copy := ReallocBlock(ptr, size);
    }
  }
}
