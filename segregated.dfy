/** mm.c and mm_seg.c: the two segregated-free-list allocators. Both keep
    the block layout of the other allocators with 8-byte words (WSIZE) and
    16-byte alignment (DSIZE), and thread every free block onto one of
    NUM_CLASSES doubly linked lists by its size class. They differ in the
    class bounds (see SizeClass), in find_fit (best fit in mm.c, first fit
    in mm_seg.c, see Fit), in how coalesce reads the neighbours' allocated
    bits, and in whether remove_node reads PRED and SUCC once or twice. */
module Segregated {
  import opened Block
  import opened Layout
  import opened Chain
  import opened Memlib
  import opened SizeClass
  import opened FreeMap
  import opened FreeLists
  import opened Fit

  const CHUNKSIZE: nat := 4096
  /** (size_t)-1: mm.c's best_size before any candidate. */
  const SIZE_MAX: nat := 0xFFFF_FFFF_FFFF_FFFF

  /** The arena, the head array and the abstract lists agree: the arena is
      in shape with regular blocks bs, the lists are laid out in the words
      and the heads, and they hold exactly the free blocks except those in
      out, the ones a caller has taken off and not yet put back. */
  ghost predicate Heap(v: Variant, m: map<int, nat>, brk: int, heads: seq<nat>, bs: seq<Blk>,
                       free: seq<seq<nat>>, out: set<int>) {
    Shaped(m, WSIZE, brk, bs) && Lists(v, m, heads, free, Vacant(WSIZE, bs)) &&
    Members(free) == Vacant(WSIZE, bs).Keys - out
  }

  /** The payloads of the blocks lo to hi - 1. */
  ghost function Span(bs: seq<Blk>, lo: nat, hi: nat): set<int>
    requires lo <= hi <= |bs|
  {
    set k | lo <= k < hi :: Payload(WSIZE, bs, k)
  }

  /** What a free payload's header says: the free block's size, less than
      the break. */
  lemma NodeSize(m: map<int, nat>, brk: int, bs: seq<Blk>, p: int) returns (i: nat)
    requires Shaped(m, WSIZE, brk, bs) && p in Vacant(WSIZE, bs)
    ensures i < |bs| && !bs[i].alloc && p == Payload(WSIZE, bs, i)
    ensures Vacant(WSIZE, bs)[p] == bs[i].size == GetSize(Word(m, Hdrp(WSIZE, p)), DSIZE)
    ensures bs[i].size < brk && p > 0 && p % DSIZE == 0
  {
    i := VacantIndex(WSIZE, bs, p);
    BlockAt(m, WSIZE, brk, bs, i);
    PayloadAligned(m, WSIZE, brk, bs, i);
  }

  /** Writing PRED or SUCC of a free block keeps the arena in shape. */
  lemma LinkWrite(m: map<int, nat>, brk: int, bs: seq<Blk>, p: int, x: int, val: nat)
    requires Shaped(m, WSIZE, brk, bs) && p in Vacant(WSIZE, bs) && (x == p || x == p + WSIZE)
    ensures Shaped(m[x := val], WSIZE, brk, bs) && 0 <= x < brk
  {
    var i := VacantIndex(WSIZE, bs, p);
    CellWrite(m, WSIZE, brk, bs, i, x, val);
  }

  /** Where block k's payload lies against the run [lo, hi): inside it
      when k is one of its blocks, and otherwise with both link words
      before it or at or after its end. */
  lemma PayloadWithin(m: map<int, nat>, brk: int, bs: seq<Blk>, lo: nat, hi: nat, k: nat)
    requires Shaped(m, WSIZE, brk, bs) && lo <= hi <= |bs| && k < |bs|
    ensures lo <= k < hi ==> Hdr(WSIZE, bs, lo) <= Payload(WSIZE, bs, k) < Hdr(WSIZE, bs, hi)
    ensures k < lo ==> Payload(WSIZE, bs, k) + WSIZE < Hdr(WSIZE, bs, lo)
    ensures hi <= k ==> Hdr(WSIZE, bs, hi) <= Payload(WSIZE, bs, k)
  {
    BlockAt(m, WSIZE, brk, bs, k);
    SumPrefixStep(bs, k);
    if k < lo {
      SumPrefixMono(bs, k, lo);
    } else if hi < k {
      SumPrefixMono(bs, hi, k);
    } else if k < hi {
      if lo < k {
        SumPrefixMono(bs, lo, k);
      }
      if k + 1 < hi {
        SumPrefixMono(bs, k + 1, hi);
      }
    }
  }

  /** A free payload lies inside the run [lo, hi) exactly when it is the
      payload of one of its blocks; one outside has both link words
      outside. */
  lemma VacantPlace(m: map<int, nat>, brk: int, bs: seq<Blk>, lo: nat, hi: nat, q: int)
    requires Shaped(m, WSIZE, brk, bs) && lo <= hi <= |bs| && q in Vacant(WSIZE, bs)
    ensures q in Span(bs, lo, hi) <==> Hdr(WSIZE, bs, lo) <= q < Hdr(WSIZE, bs, hi)
    ensures q !in Span(bs, lo, hi) ==> q + WSIZE < Hdr(WSIZE, bs, lo) || Hdr(WSIZE, bs, hi) <= q
  {
    var k := VacantIndex(WSIZE, bs, q);
    PayloadWithin(m, brk, bs, lo, hi, k);
    if q in Span(bs, lo, hi) {
      var j :| lo <= j < hi && q == Payload(WSIZE, bs, j);
      PayloadWithin(m, brk, bs, lo, hi, j);
    }
  }

  /** No listed node, nor its two link words, lies in the run [lo, hi)
      when none of the run's payloads is listed. */
  lemma ListsOutside(v: Variant, m: map<int, nat>, brk: int, bs: seq<Blk>, free: seq<seq<nat>>, lo: nat, hi: nat)
    requires Shaped(m, WSIZE, brk, bs) && lo <= hi <= |bs|
    requires Filed(v, free, Vacant(WSIZE, bs)) && Members(free) !! Span(bs, lo, hi)
    ensures forall c, k | 0 <= c < |free| && 0 <= k < |free[c]| ::
              free[c][k] + WSIZE < Hdr(WSIZE, bs, lo) || Hdr(WSIZE, bs, hi) <= free[c][k]
  {
    forall c, k | 0 <= c < |free| && 0 <= k < |free[c]|
      ensures free[c][k] + WSIZE < Hdr(WSIZE, bs, lo) || Hdr(WSIZE, bs, hi) <= free[c][k]
    {
      assert Node(v, Vacant(WSIZE, bs), c, free[c][k]);
      assert free[c][k] in Members(free);
      VacantPlace(m, brk, bs, lo, hi, free[c][k]);
    }
  }

  /** When the run [lo, hi) is rewritten as r' and none of its blocks is
      listed, the lists stay laid out and filed, and they hold every free
      block of the new chain except the free blocks of r'. */
  lemma ReplaceLists(v: Variant, m: map<int, nat>, m': map<int, nat>, brk: int, heads: seq<nat>, bs: seq<Blk>,
                     free: seq<seq<nat>>, lo: nat, hi: nat, r': seq<Blk>)
    requires Shaped(m, WSIZE, brk, bs) && lo <= hi <= |bs| && Sized(WSIZE, r') && Sum(r') == Sum(bs[lo..hi])
    requires Lists(v, m, heads, free, Vacant(WSIZE, bs))
    requires Members(free) == Vacant(WSIZE, bs).Keys - Span(bs, lo, hi)
    requires SameOutside(m, m', Hdr(WSIZE, bs, lo), Hdr(WSIZE, bs, hi))
    ensures var bs' := bs[..lo] + r' + bs[hi..];
            Lists(v, m', heads, free, Vacant(WSIZE, bs')) &&
            Members(free) == Vacant(WSIZE, bs').Keys - AllocIn(WSIZE, Hdr(WSIZE, bs, lo), Flip(r')).Keys
  {
    var h, e := Hdr(WSIZE, bs, lo), Hdr(WSIZE, bs, hi);
    var bs' := bs[..lo] + r' + bs[hi..];
    var nv, ov, rv := Vacant(WSIZE, bs'), Vacant(WSIZE, bs), AllocIn(WSIZE, h, Flip(r'));
    VacantReplace(WSIZE, bs, lo, hi, r');
    ListsOutside(v, m, brk, bs, free, lo, hi);
    LinksKept(m, m', heads, free, h, e);
    forall c, k | 0 <= c < |free| && 0 <= k < |free[c]| ensures free[c][k] in nv && nv[free[c][k]] == ov[free[c][k]] {
      assert free[c][k] in Members(free);
      VacantPlace(m, brk, bs, lo, hi, free[c][k]);
    }
    FiledFrame(v, free, ov, nv);
    forall q ensures q in Members(free) <==> q in nv.Keys - rv.Keys {
      if q in ov {
        VacantPlace(m, brk, bs, lo, hi, q);
      }
    }
  }

  /** The payloads of a run, one block at a time. */
  lemma SpanStep(bs: seq<Blk>, lo: nat, hi: nat)
    requires lo <= hi < |bs|
    ensures Span(bs, lo, hi + 1) == Span(bs, lo, hi) + {Payload(WSIZE, bs, hi)}
    ensures Span(bs, lo, lo) == {}
  {
  }

  /** Two PUTs inside [h, e) leave every word outside it alone. */
  lemma TwoWrites(m: map<int, nat>, a: int, b: int, t: nat, h: int, e: int)
    requires h <= a < e && h <= b < e
    ensures SameOutside(m, m[a := t][b := t], h, e)
  {
  }

  /** The run [lo, hi), none of whose blocks is listed, made one block by
      tags written inside it: the heap is whole again, except that a free
      merged block is not yet listed. */
  lemma MergedHeap(v: Variant, m: map<int, nat>, m': map<int, nat>, brk: int, heads: seq<nat>, bs: seq<Blk>,
                   free: seq<seq<nat>>, lo: nat, hi: nat, alloc: bool)
    requires Shaped(m, WSIZE, brk, bs) && lo < hi <= |bs| && Lists(v, m, heads, free, Vacant(WSIZE, bs))
    requires Members(free) == Vacant(WSIZE, bs).Keys - Span(bs, lo, hi)
    requires SameOutside(m, m', Hdr(WSIZE, bs, lo), Hdr(WSIZE, bs, hi))
    requires Shaped(m', WSIZE, brk, bs[..lo] + [Blk(Sum(bs[lo..hi]), alloc)] + bs[hi..])
    ensures var bs' := bs[..lo] + [Blk(Sum(bs[lo..hi]), alloc)] + bs[hi..];
            Heap(v, m', brk, heads, bs', free, if alloc then {} else {Payload(WSIZE, bs, lo)}) &&
            Payload(WSIZE, bs', lo) == Payload(WSIZE, bs, lo)
  {
    var b := Blk(Sum(bs[lo..hi]), alloc);
    var bs' := bs[..lo] + [b] + bs[hi..];
    RunFacts(m, WSIZE, brk, bs, lo, hi);
    SumOne(b);
    ReplaceLists(v, m, m', brk, heads, bs, free, lo, hi, [b]);
    assert Flip([b]) == [Blk(b.size, !alloc)];
    AllocInOne(WSIZE, Hdr(WSIZE, bs, lo), Blk(b.size, !alloc));
    assert bs'[..lo] == bs[..lo];
  }

  /** mm_realloc's in-place case on the arena: with the free block after
      the live block i off its list, the two PUTs of the pair's size leave a
      whole heap in which block i holds the pair. */
  lemma AbsorbHeap(v: Variant, m: map<int, nat>, m': map<int, nat>, brk: int, heads: seq<nat>,
                   bs: seq<Blk>, free: seq<seq<nat>>, i: nat)
    requires i + 1 < |bs| && bs[i].alloc && !bs[i + 1].alloc
    requires Heap(v, m, brk, heads, bs, free, {} + {Payload(WSIZE, bs, i + 1)})
    requires SameOutside(m, m', Hdr(WSIZE, bs, i), Hdr(WSIZE, bs, i + 2))
    requires Shaped(m', WSIZE, brk, Absorbed(bs, i))
    ensures Heap(v, m', brk, heads, Absorbed(bs, i), free, {})
    ensures Live(WSIZE, Absorbed(bs, i)) == Live(WSIZE, bs)[Payload(WSIZE, bs, i) := bs[i].size + bs[i + 1].size]
  {
    GrowAddrs(m, WSIZE, brk, bs, i);
    VacantAt(WSIZE, bs, i);
    SpanStep(bs, i, i);
    SpanStep(bs, i, i + 1);
    assert Members(free) == Vacant(WSIZE, bs).Keys - Span(bs, i, i + 2);
    MergedHeap(v, m, m', brk, heads, bs, free, i, i + 2, true);
    LiveAbsorb(WSIZE, bs, i);
  }

  /** The addresses coalesce case 2 reads and writes: NEXT_BLKP(bp) is the
      next block, its header holds its size, and both PUTs land in the
      arena. */
  lemma JoinNextAddrs(m: map<int, nat>, brk: int, bs: seq<Blk>, i: nat)
    requires i + 1 < |bs| && Shaped(m, WSIZE, brk, bs)
    ensures var bp := Payload(WSIZE, bs, i);
            var t := Pack(bs[i].size + bs[i + 1].size, false);
            NextBlkp(m, WSIZE, bp) == Payload(WSIZE, bs, i + 1) &&
            GetSize(Word(m, Hdrp(WSIZE, Payload(WSIZE, bs, i + 1))), DSIZE) == bs[i + 1].size &&
            0 <= Hdrp(WSIZE, bp) < brk && 0 <= Ftrp(m[Hdrp(WSIZE, bp) := t], WSIZE, bp) < brk
  {
    var bp := Payload(WSIZE, bs, i);
    NextBlkpAt(m, WSIZE, brk, bs, i);
    BlockAt(m, WSIZE, brk, bs, i + 1);
    assert bs[i].size % DSIZE == 0 && bs[i + 1].size % DSIZE == 0;
    FtrpAfterHeader(m, WSIZE, bp, bs[i].size + bs[i + 1].size, false);
  }

  /** Coalesce case 2 on the arena: with block i and the free block after
      it both off the lists, the two PUTs of the merged size leave a heap
      whose only free block off the lists is the merged one. */
  lemma JoinNextWrites(v: Variant, m: map<int, nat>, m': map<int, nat>, brk: int, heads: seq<nat>,
                       bs: seq<Blk>, free: seq<seq<nat>>, i: nat)
    requires i + 1 < |bs| && !bs[i].alloc && !PrevFree(bs, i) && NextFree(bs, i)
    requires Heap(v, m, brk, heads, bs, free, {Payload(WSIZE, bs, i), Payload(WSIZE, bs, i + 1)})
    requires var a, t := Hdrp(WSIZE, Payload(WSIZE, bs, i)), Pack(bs[i].size + bs[i + 1].size, false);
             m' == m[a := t][Ftrp(m[a := t], WSIZE, Payload(WSIZE, bs, i)) := t]
    ensures Heap(v, m', brk, heads, Coalesced(bs, i), free, {Payload(WSIZE, bs, i)})
    ensures Payload(WSIZE, Coalesced(bs, i), i) == Payload(WSIZE, bs, i)
  {
    var bp := Payload(WSIZE, bs, i);
    CoalesceSizes(m, WSIZE, brk, bs, i);
    RunBounds(m, WSIZE, brk, bs, i);
    var total := bs[i].size + bs[i + 1].size;
    var t := Pack(total, false);
    var a := Hdrp(WSIZE, bp);
    FtrpAfterHeader(m, WSIZE, bp, total, false);
    var b := Ftrp(m[a := t], WSIZE, bp);
    MergedShape(m, WSIZE, brk, bs, i, i + 2, false, a, b, t, m', Coalesced(bs, i));
    TwoWrites(m, a, b, t, Hdr(WSIZE, bs, i), Hdr(WSIZE, bs, i + 2));
    SpanStep(bs, i, i);
    SpanStep(bs, i, i + 1);
    MergedHeap(v, m, m', brk, heads, bs, free, i, i + 2, false);
  }

  /** What coalesce reads of the neighbours of block i: PREV_BLKP(bp) and
      NEXT_BLKP(bp) are the payloads of blocks i - 1 and i + 1, and their
      headers hold those blocks' sizes. */
  lemma NeighbourAt(m: map<int, nat>, brk: int, bs: seq<Blk>, i: nat)
    requires Shaped(m, WSIZE, brk, bs) && i < |bs|
    ensures var bp := Payload(WSIZE, bs, i);
            GetSize(Word(m, Hdrp(WSIZE, bp)), DSIZE) == bs[i].size &&
            (0 < i ==> PrevBlkp(m, WSIZE, bp) == Payload(WSIZE, bs, i - 1) &&
                       GetSize(Word(m, Hdrp(WSIZE, Payload(WSIZE, bs, i - 1))), DSIZE) == bs[i - 1].size) &&
            (i + 1 < |bs| ==> NextBlkp(m, WSIZE, bp) == Payload(WSIZE, bs, i + 1) &&
                              GetSize(Word(m, Hdrp(WSIZE, Payload(WSIZE, bs, i + 1))), DSIZE) == bs[i + 1].size)
  {
    BlockAt(m, WSIZE, brk, bs, i);
    PrevBlkpAt(m, WSIZE, brk, bs, i);
    NextBlkpAt(m, WSIZE, brk, bs, i);
    if 0 < i {
      BlockAt(m, WSIZE, brk, bs, i - 1);
    }
    if i + 1 < |bs| {
      BlockAt(m, WSIZE, brk, bs, i + 1);
    }
  }

  /** mm_seg.c's coalesce case 3 writes the header of PREV_BLKP(bp) first:
      FTRP(bp) still lands on block i's footer, and PREV_BLKP(bp) still
      reads the previous block's footer after both writes. */
  lemma SegPrevPuts(m: map<int, nat>, brk: int, bs: seq<Blk>, i: nat, t: nat)
    requires Shaped(m, WSIZE, brk, bs) && 0 < i < |bs|
    ensures var bp := Payload(WSIZE, bs, i);
            var a := Hdrp(WSIZE, PrevBlkp(m, WSIZE, bp));
            a == Hdr(WSIZE, bs, i - 1) &&
            Ftrp(m[a := t], WSIZE, bp) == Hdr(WSIZE, bs, i + 1) - WSIZE &&
            PrevBlkp(m[a := t][Hdr(WSIZE, bs, i + 1) - WSIZE := t], WSIZE, bp) == Payload(WSIZE, bs, i - 1)
  {
    var bp := Payload(WSIZE, bs, i);
    var h := Hdr(WSIZE, bs, i - 1);
    PrevBlkpAt(m, WSIZE, brk, bs, i);
    NextBlkpAt(m, WSIZE, brk, bs, i);
    BlockAt(m, WSIZE, brk, bs, i - 1);
    BlockAt(m, WSIZE, brk, bs, i);
    NextBlkpFrame(m, WSIZE, bp, h, t);
    PrevBlkpFrame(m, WSIZE, bp, h, t);
    PrevBlkpFrame(m[h := t], WSIZE, bp, Hdr(WSIZE, bs, i + 1) - WSIZE, t);
  }

  /** coalesce case 4 writes the previous block's header first: NEXT_BLKP(bp)
      and FTRP of it still read the untouched headers and land on the last
      word of the run, and PREV_BLKP(bp) still reads the previous block's
      footer after both writes. */
  lemma BothPuts(m: map<int, nat>, brk: int, bs: seq<Blk>, i: nat, t: nat)
    requires Shaped(m, WSIZE, brk, bs) && 0 < i && i + 1 < |bs|
    ensures var bp, h := Payload(WSIZE, bs, i), Hdr(WSIZE, bs, i - 1);
            Hdrp(WSIZE, PrevBlkp(m, WSIZE, bp)) == h &&
            NextBlkp(m[h := t], WSIZE, bp) == Payload(WSIZE, bs, i + 1) &&
            Ftrp(m[h := t], WSIZE, Payload(WSIZE, bs, i + 1)) == Hdr(WSIZE, bs, i + 2) - WSIZE &&
            PrevBlkp(m[h := t][Hdr(WSIZE, bs, i + 2) - WSIZE := t], WSIZE, bp) == Payload(WSIZE, bs, i - 1)
  {
    var bp := Payload(WSIZE, bs, i);
    var next := Payload(WSIZE, bs, i + 1);
    var h := Hdr(WSIZE, bs, i - 1);
    PrevBlkpAt(m, WSIZE, brk, bs, i);
    NextBlkpAt(m, WSIZE, brk, bs, i);
    NextBlkpAt(m, WSIZE, brk, bs, i + 1);
    BlockAt(m, WSIZE, brk, bs, i - 1);
    BlockAt(m, WSIZE, brk, bs, i);
    BlockAt(m, WSIZE, brk, bs, i + 1);
    NextBlkpFrame(m, WSIZE, bp, h, t);
    NextBlkpFrame(m, WSIZE, next, h, t);
    PrevBlkpFrame(m, WSIZE, bp, h, t);
    PrevBlkpFrame(m[h := t], WSIZE, bp, Hdr(WSIZE, bs, i + 2) - WSIZE, t);
  }

  /** The payloads coalesce takes off the lists before it merges: block i,
      then the previous block when it is free, then the next block when it
      is free. */
  lemma MergeSpan(bs: seq<Blk>, i: nat)
    requires i < |bs|
    ensures var lo, hi := MergeLo(bs, i), MergeHi(bs, i);
            var q := Payload(WSIZE, bs, i);
            lo <= i < hi <= |bs| &&
            Span(bs, lo, hi) ==
              if PrevFree(bs, i) && NextFree(bs, i) then {q} + {Payload(WSIZE, bs, i - 1)} + {Payload(WSIZE, bs, i + 1)}
              else if PrevFree(bs, i) then {q} + {Payload(WSIZE, bs, i - 1)}
              else if NextFree(bs, i) then {q} + {Payload(WSIZE, bs, i + 1)}
              else {q}
  {
    var lo, hi := MergeLo(bs, i), MergeHi(bs, i);
    SpanStep(bs, lo, lo);
    SpanStep(bs, lo, i);
    if NextFree(bs, i) {
      SpanStep(bs, lo, i + 1);
    }
  }

  /** Sifting the merged run's payloads off the lists takes off exactly
      the free neighbours of block i, since block i itself is on none. */
  lemma MergeSift(free: seq<seq<nat>>, bs: seq<Blk>, i: nat)
    requires i < |bs| && Payload(WSIZE, bs, i) !in Members(free)
    ensures var out := Span(bs, MergeLo(bs, i), MergeHi(bs, i));
            Sift(free, out) ==
              if PrevFree(bs, i) && NextFree(bs, i) then
                Sift(free, {Payload(WSIZE, bs, i - 1)} + {Payload(WSIZE, bs, i + 1)})
              else if PrevFree(bs, i) then Sift(free, {Payload(WSIZE, bs, i - 1)})
              else if NextFree(bs, i) then Sift(free, {Payload(WSIZE, bs, i + 1)})
              else free
  {
    var q := Payload(WSIZE, bs, i);
    var out := Span(bs, MergeLo(bs, i), MergeHi(bs, i));
    MergeSpan(bs, i);
    if PrevFree(bs, i) && NextFree(bs, i) {
      SiftSame(free, out, {Payload(WSIZE, bs, i - 1)} + {Payload(WSIZE, bs, i + 1)});
    } else if PrevFree(bs, i) {
      SiftSame(free, out, {Payload(WSIZE, bs, i - 1)});
    } else if NextFree(bs, i) {
      SiftSame(free, out, {Payload(WSIZE, bs, i + 1)});
    } else {
      SiftNone(free, out);
    }
  }

  /** The lists after coalesce on the free block i of bs, which is on no
      list: every block the merge swallows is off its list, the others
      keep their order, and the merged block heads the list of its class. */
  ghost function Relisted(v: Variant, bs: seq<Blk>, free: seq<seq<nat>>, i: nat): seq<seq<nat>>
    requires i < |bs| && |free| == NUM_CLASSES
  {
    var lo, hi := MergeLo(bs, i), MergeHi(bs, i);
    Push(Sift(free, Span(bs, lo, hi)), SizeClassOf(v, Sum(bs[lo..hi])), Payload(WSIZE, bs, lo))
  }

  /** The lists after place(bp, asize) on the listed free block bp of
      csize bytes: bp is off its list, the others keep their order, and a
      remainder of at least 2*DSIZE bytes heads the list of its class. */
  function PlacedLists(v: Variant, free: seq<seq<nat>>, bp: nat, csize: nat, asize: nat): seq<seq<nat>>
    requires |free| == NUM_CLASSES && asize <= csize
  {
    if csize - asize >= 2 * DSIZE then Push(Sift(free, {bp}), SizeClassOf(v, csize - asize), bp + asize)
    else Sift(free, {bp})
  }

  /** The block mm_malloc appends when no free block fits asize bytes:
      the extension of MAX(asize, CHUNKSIZE) bytes, as a free block. */
  function Extension(asize: nat): (b: Blk)
    requires asize % DSIZE == 0
    ensures !b.alloc && asize <= b.size && b.size % DSIZE == 0
  {
    var words := Max(asize, CHUNKSIZE) / WSIZE;
    assert words * WSIZE == Max(asize, CHUNKSIZE);
    Blk(ExtendBytes(words, WSIZE), false)
  }

  /** The blocks after a successful mm_malloc of asize bytes: the block
      find_fit returns placed, or else the extension appended, coalesced
      with a free last block, and placed. */
  ghost function Malloced(v: Variant, bs: seq<Blk>, free: seq<seq<nat>>, asize: nat): seq<Blk>
    requires AllKnown(free, Vacant(WSIZE, bs)) && asize % DSIZE == 0
  {
    var p := Fit.FindFit(v, free, Vacant(WSIZE, bs), asize);
    if p != 0 then Placed(WSIZE, bs, FreeIndex(WSIZE, bs, p), asize)
    else
      var n, grown := |bs|, bs + [Extension(asize)];
      CoalescedBlock(grown, n);
      Placed(WSIZE, Coalesced(grown, n), MergeLo(grown, n), asize)
  }

  /** The lists after a successful mm_malloc, as place leaves them: from
      the lists as they were, or from those extend_heap's coalesce left. */
  ghost function MallocLists(v: Variant, bs: seq<Blk>, free: seq<seq<nat>>, asize: nat): (r: seq<seq<nat>>)
    requires AllKnown(free, Vacant(WSIZE, bs)) && asize % DSIZE == 0 && |free| == NUM_CLASSES
    ensures |r| == NUM_CLASSES
  {
    var p := Fit.FindFit(v, free, Vacant(WSIZE, bs), asize);
    if p != 0 then PlacedLists(v, free, p, bs[FreeIndex(WSIZE, bs, p)].size, asize)
    else
      var n, grown := |bs|, bs + [Extension(asize)];
      var lo := MergeLo(grown, n);
      CoalescedBlock(grown, n);
      PlacedLists(v, Relisted(v, grown, free, n), Payload(WSIZE, grown, lo), Coalesced(grown, n)[lo].size, asize)
  }

  /** The blocks after mm_free(ptr): the block freed and coalesced. */
  ghost function FreedBlocks(bs: seq<Blk>, ptr: int): seq<Blk>
    requires ptr in Live(WSIZE, bs)
  {
    var i := LiveIndex(WSIZE, bs, ptr);
    Coalesced(Freed(bs, i), i)
  }

  /** The lists after mm_free(ptr): the free neighbours off, the merged
      block on. */
  ghost function FreedLists(v: Variant, bs: seq<Blk>, free: seq<seq<nat>>, ptr: int): seq<seq<nat>>
    requires ptr in Live(WSIZE, bs) && |free| == NUM_CLASSES
  {
    var i := LiveIndex(WSIZE, bs, ptr);
    Relisted(v, Freed(bs, i), free, i)
  }

  /** The split branch of place leaves PlacedLists: bp taken off, the
      remainder pushed. */
  lemma PlacedSplitLists(v: Variant, fr: seq<seq<nat>>, f0: seq<seq<nat>>, f1: seq<seq<nat>>,
                         bp: nat, csize: nat, asize: nat)
    requires |fr| == NUM_CLASSES && asize <= csize && csize - asize >= 2 * DSIZE
    requires f0 == Sift(fr, {bp}) && f1 == Push(f0, SizeClassOf(v, csize - asize), bp + asize)
    ensures f1 == PlacedLists(v, fr, bp, csize, asize)
  {
  }

  /** Coalesce cases 2 to 4 on the arena: with block i and its free
      neighbours off the lists, tags written inside the run that make it
      one free block leave a heap whose only free block off the lists is
      the merged one. */
  lemma JoinWrites(v: Variant, m: map<int, nat>, m': map<int, nat>, brk: int, heads: seq<nat>,
                   bs: seq<Blk>, free: seq<seq<nat>>, i: nat)
    requires i < |bs| && !bs[i].alloc && (PrevFree(bs, i) || NextFree(bs, i))
    requires Heap(v, m, brk, heads, bs, free, Span(bs, MergeLo(bs, i), MergeHi(bs, i)))
    requires SameOutside(m, m', Hdr(WSIZE, bs, MergeLo(bs, i)), Hdr(WSIZE, bs, MergeHi(bs, i)))
    requires Shaped(m', WSIZE, brk, Coalesced(bs, i))
    ensures Heap(v, m', brk, heads, Coalesced(bs, i), free, {Payload(WSIZE, bs, MergeLo(bs, i))})
    ensures Payload(WSIZE, Coalesced(bs, i), MergeLo(bs, i)) == Payload(WSIZE, bs, MergeLo(bs, i))
  {
    MergeSpan(bs, i);
    MergedHeap(v, m, m', brk, heads, bs, free, MergeLo(bs, i), MergeHi(bs, i), false);
  }

  /** insert_node's three writes, to SUCC and PRED of bp and PRED of the
      old head, keep the arena in shape. */
  lemma PushShaped(m: map<int, nat>, brk: int, bs: seq<Blk>, h: nat, bp: nat)
    requires Shaped(m, WSIZE, brk, bs) && bp in Vacant(WSIZE, bs)
    requires h != 0 ==> h in Vacant(WSIZE, bs)
    ensures Shaped(PushMem(m, h, bp), WSIZE, brk, bs)
    ensures bp + WSIZE < brk && (h != 0 ==> h < brk)
  {
    var m1 := m[bp + WSIZE := h];
    LinkWrite(m, brk, bs, bp, bp + WSIZE, h);
    LinkWrite(m1, brk, bs, bp, bp, 0);
    if h != 0 {
      LinkWrite(m1[bp := 0], brk, bs, h, h, bp);
    }
  }

  /** insert_node(bp) on the heap, as values: the class it reads from the
      header, the words it writes all inside the arena, and the heap after
      the push, with bp listed. */
  lemma PushHeap(v: Variant, m: map<int, nat>, brk: int, heads: seq<nat>, bs: seq<Blk>,
                 free: seq<seq<nat>>, out: set<int>, bp: nat)
    requires Heap(v, m, brk, heads, bs, free, out) && bp in out && bp in Vacant(WSIZE, bs)
    ensures var c := SizeClassOf(v, Vacant(WSIZE, bs)[bp]);
            c == SizeClassOf(v, GetSize(Word(m, Hdrp(WSIZE, bp)), DSIZE)) && c < |heads| &&
            bp + WSIZE < brk && (heads[c] != 0 ==> heads[c] < brk) &&
            Heap(v, PushMem(m, heads[c], bp), brk, heads[c := bp], bs, Push(free, c, bp), out - {bp})
  {
    var fm := Vacant(WSIZE, bs);
    var i := NodeSize(m, brk, bs, bp);
    var c := SizeClassOf(v, fm[bp]);
    var h := heads[c];
    assert h != 0 ==> h in Members(free) by {
      assert h != 0 ==> h == free[c][0];
    }
    PushShaped(m, brk, bs, h, bp);
    PushLists(v, m, heads, free, fm, c, bp);
  }

  /** remove_node's two writes, to SUCC of the node before and PRED of
      the node after, keep the arena in shape. */
  lemma UnlinkShaped(m: map<int, nat>, brk: int, bs: seq<Blk>, prev: nat, succ: nat)
    requires Shaped(m, WSIZE, brk, bs)
    requires prev != 0 ==> prev in Vacant(WSIZE, bs)
    requires succ != 0 ==> succ in Vacant(WSIZE, bs)
    ensures Shaped(UnlinkMem(m, prev, succ), WSIZE, brk, bs)
    ensures prev != 0 ==> prev + WSIZE < brk
    ensures succ != 0 ==> succ < brk
  {
    var m1 := if prev != 0 then m[prev + WSIZE := succ] else m;
    if prev != 0 {
      LinkWrite(m, brk, bs, prev, prev + WSIZE, succ);
    }
    if succ != 0 {
      LinkWrite(m1, brk, bs, succ, succ, prev);
    }
  }

  /** remove_node(bp) on the heap, as values: where bp stands, what its
      PRED and SUCC read, that the words written are inside the arena and
      apart from bp's own links, and the heap after the unlink, with bp
      no longer listed. */
  lemma UnlinkHeap(v: Variant, m: map<int, nat>, brk: int, heads: seq<nat>, bs: seq<Blk>,
                   free: seq<seq<nat>>, out: set<int>, bp: nat) returns (c: nat, k: nat)
    requires Heap(v, m, brk, heads, bs, free, out) && bp in Members(free)
    ensures c == SizeClassOf(v, Vacant(WSIZE, bs)[bp]) == SizeClassOf(v, GetSize(Word(m, Hdrp(WSIZE, bp)), DSIZE))
    ensures c < |free| == |heads| && k < |free[c]| && free[c][k] == bp
    ensures var prev, succ := Word(m, bp), Word(m, bp + WSIZE);
            prev == PredOf(free[c], k) && succ == SuccOf(free[c], k) &&
            (prev != 0 ==> prev + WSIZE < brk && prev + WSIZE != bp && prev + WSIZE != bp + WSIZE) &&
            (succ != 0 ==> succ < brk) &&
            Heap(v, UnlinkMem(m, prev, succ), brk, UnlinkHeads(heads, c, prev, succ), bs, Unlink(free, c, k), out + {bp})
  {
    var fm := Vacant(WSIZE, bs);
    c, k := Locate(v, free, fm, bp);
    var s := free[c];
    var i := NodeSize(m, brk, bs, bp);
    assert Chained(m, s);
    assert Word(m, s[k]) == PredOf(s, k) && Word(m, s[k] + WSIZE) == SuccOf(s, k);
    var prev, succ := PredOf(s, k), SuccOf(s, k);
    ListFacts(v, free, fm, c, c);
    if prev != 0 {
      assert prev == s[k - 1] && prev in Members(free);
      UniqueAt(s, k - 1, k);
      LinkWordsApart(prev, bp);
    }
    assert succ != 0 ==> succ == s[k + 1] && succ in Members(free);
    UnlinkShaped(m, brk, bs, prev, succ);
    UnlinkLists(v, m, heads, free, fm, c, k);
  }

  /** The allocated bits coalesce reads, as mm_seg.c reads them: a
      neighbour outside [mem_heap_lo, mem_heap_hi] counts as allocated,
      and otherwise its header's bit is read. Both tell exactly whether
      the neighbour is a free regular block. */
  lemma SegFlags(m: map<int, nat>, brk: int, bs: seq<Blk>, i: nat)
    requires Shaped(m, WSIZE, brk, bs) && i < |bs|
    ensures var bp := Payload(WSIZE, bs, i);
            var p, n := PrevBlkp(m, WSIZE, bp), NextBlkp(m, WSIZE, bp);
            (p < 0 || GetAlloc(Word(m, Hdrp(WSIZE, p)))) == !PrevFree(bs, i) &&
            (n > brk - 1 || GetAlloc(Word(m, Hdrp(WSIZE, n)))) == !NextFree(bs, i)
  {
    NeighbourFlags(m, WSIZE, brk, bs, i);
    PrevBlkpAt(m, WSIZE, brk, bs, i);
    NextBlkpAt(m, WSIZE, brk, bs, i);
    if i + 1 < |bs| {
      BlockAt(m, WSIZE, brk, bs, i + 1);
    } else {
      EpilogueAt(m, WSIZE, brk, bs);
    }
  }

  /** extend_heap's new block before coalesce: the lists stay as they
      were, in words below the old epilogue, and the new free block, whose
      payload is the old break, is on none of them. */
  lemma AppendHeap(v: Variant, m: map<int, nat>, m': map<int, nat>, brk: int, heads: seq<nat>, bs: seq<Blk>,
                   free: seq<seq<nat>>, size: nat)
    requires Heap(v, m, brk, heads, bs, free, {})
    requires Shaped(m', WSIZE, brk + size, bs + [Blk(size, false)])
    requires SameOutside(m, m', brk - WSIZE, brk + size)
    ensures Heap(v, m', brk + size, heads, bs + [Blk(size, false)], free, {brk})
  {
    var n, ov, nv := |bs|, Vacant(WSIZE, bs), Vacant(WSIZE, bs + [Blk(size, false)]);
    EpilogueAt(m, WSIZE, brk, bs);
    assert bs[..n] == bs;
    VacantAppend(WSIZE, bs, Blk(size, false));
    forall q | q in ov ensures q + WSIZE < brk - WSIZE {
      var j := VacantIndex(WSIZE, bs, q);
      PayloadWithin(m, brk, bs, n, n, j);
    }
    forall c, k | 0 <= c < |free| && 0 <= k < |free[c]| ensures free[c][k] + WSIZE < brk - WSIZE {
      assert free[c][k] in Members(free);
    }
    LinksKept(m, m', heads, free, brk - WSIZE, brk + size);
    FiledFrame(v, free, ov, nv);
  }

  /** The heap mm_init has laid out before its first extend_heap: no
      regular block, every head NULL, every list empty. */
  lemma EmptyHeap(v: Variant, m: map<int, nat>, heads: seq<nat>)
    requires Shaped(m, WSIZE, 4 * WSIZE, []) && |heads| == NUM_CLASSES
    requires forall c | 0 <= c < NUM_CLASSES :: heads[c] == 0
    ensures Heap(v, m, 4 * WSIZE, heads, [], NoLists(), {})
  {
    assert Vacant(WSIZE, []) == map[];
    assert Members(NoLists()) == {};
  }

  /** mm_init's two extensions: CHUNKSIZE bytes, then 4 words that merge
      with them into one free block. */
  lemma InitBlocks()
    ensures ExtendBytes(CHUNKSIZE / WSIZE, WSIZE) == CHUNKSIZE && ExtendBytes(4, WSIZE) == 4 * WSIZE
    ensures Coalesced([Blk(CHUNKSIZE, false)], 0) == [Blk(CHUNKSIZE, false)]
    ensures Coalesced([Blk(CHUNKSIZE, false), Blk(4 * WSIZE, false)], 1) == [Blk(CHUNKSIZE + 4 * WSIZE, false)]
  {
    var bs := [Blk(CHUNKSIZE, false), Blk(4 * WSIZE, false)];
    CoalesceNone([Blk(CHUNKSIZE, false)], 0);
    assert bs[0..2] == bs;
    SumTwo(bs[0], bs[1]);
  }

  /** The lists once mm_init has succeeded: its one free block, whose
      payload is 32, alone on the list of its class. */
  lemma InitLists(v: Variant, m: map<int, nat>, brk: int, heads: seq<nat>, free: seq<seq<nat>>)
    requires Heap(v, m, brk, heads, [Blk(CHUNKSIZE + 4 * WSIZE, false)], free, {})
    ensures forall c | 0 <= c < NUM_CLASSES ::
              free[c] == if c == SizeClassOf(v, CHUNKSIZE + 4 * WSIZE) then [4 * WSIZE] else []
    ensures Live(WSIZE, [Blk(CHUNKSIZE + 4 * WSIZE, false)]) == map[]
  {
    var b := Blk(CHUNKSIZE + 4 * WSIZE, false);
    assert Vacant(WSIZE, [b]) == map[4 * WSIZE := b.size] by {
      assert Vacant(WSIZE, []) == map[] && Sum([]) == 0;
      VacantAppend(WSIZE, [], b);
      assert [] + [b] == [b];
    }
    LoneNode(v, free, 4 * WSIZE, CHUNKSIZE + 4 * WSIZE);
    assert [b][1..] == [];
    assert AllocIn(WSIZE, 3 * WSIZE, [b]) == map[] + AllocIn(WSIZE, 3 * WSIZE + b.size, []);
  }

  /** What find_fit's walk of a list s reads: each node is nonzero, its
      SUCC word names the next node (NULL after the last), and its header
      holds its free size, which is below (size_t)-1. */
  ghost predicate Walkable(m: map<int, nat>, s: seq<nat>, fm: map<int, nat>) {
    Known(s, fm) &&
    (forall k | 0 <= k < |s| :: s[k] > 0 && GetSize(Word(m, Hdrp(WSIZE, s[k])), DSIZE) == fm[s[k]] < SIZE_MAX) &&
    forall k {:trigger Word(m, s[k] + WSIZE)} | 0 <= k < |s| :: Word(m, s[k] + WSIZE) == SuccOf(s, k)
  }

  /** One step of a walk: the header of the k-th node holds its size,
      and its SUCC word names the node after it (NULL after the last). */
  lemma WalkStep(m: map<int, nat>, s: seq<nat>, fm: map<int, nat>, k: nat)
    requires Walkable(m, s, fm) && k < |s|
    ensures s[k] in fm && GetSize(Word(m, Hdrp(WSIZE, s[k])), DSIZE) == fm[s[k]] < SIZE_MAX
    ensures Word(m, s[k] + WSIZE) == if k + 1 < |s| then s[k + 1] else 0
  {
  }

  /** mm_seg.c's walk of one list in find_fit: follow SUCC from the head
      to the first block of at least asize bytes, NULL when there is none.
      s is the list the walk follows and fm the free blocks' sizes. */
  method ScanFirst(mem: map<int, nat>, head: nat, asize: nat, ghost s: seq<nat>, ghost fm: map<int, nat>)
    returns (bp: nat)
    requires Walkable(mem, s, fm) && head == Head(s)
    ensures var k := FirstFrom(s, fm, asize, 0);
            bp == if k == -1 then 0 else s[k]
  {
    bp := head;
    ghost var k := 0;
    while bp != 0
      invariant k <= |s| && bp == (if k < |s| then s[k] else 0)
      invariant FirstFrom(s, fm, asize, k) == FirstFrom(s, fm, asize, 0)
      decreases |s| - k
    {
      WalkStep(mem, s, fm, k);
      if GetSize(Word(mem, Hdrp(WSIZE, bp)), DSIZE) >= asize {
        return;
      }
      bp := Word(mem, bp + WSIZE);
      k := k + 1;
    }
  }

  /** mm.c's walk of one list in find_fit: the first block of exactly
      asize bytes, or else the first of the smallest size above it, or
      NULL when none fits. best_size starts at (size_t)-1, which no block
      size reaches. */
  method ScanBest(mem: map<int, nat>, head: nat, asize: nat, ghost s: seq<nat>, ghost fm: map<int, nat>)
    returns (bp: nat)
    requires Walkable(mem, s, fm) && head == Head(s)
    ensures var k := BestFrom(s, fm, asize, 0);
            bp == if k == -1 then 0 else s[k]
  {
    bp := head;
    var bestBp, bestSize := 0, SIZE_MAX;
    ghost var k, b := 0, -1;
    while bp != 0
      invariant k <= |s| && bp == (if k < |s| then s[k] else 0)
      invariant b == BestUpTo(s, fm, asize, k) && (b == -1 || bestSize != asize)
      invariant bestBp == (if b == -1 then 0 else s[b]) && bestSize == (if b == -1 then SIZE_MAX else fm[s[b]])
      decreases |s| - k
    {
      WalkStep(mem, s, fm, k);
      BestStep(s, fm, asize, k);
      var bsize := GetSize(Word(mem, Hdrp(WSIZE, bp)), DSIZE);
      if bsize >= asize {
        if bsize == asize {
          ExactBest(s, fm, asize, k);
          return;
        }
        if bsize < bestSize {
          bestSize := bsize;
          bestBp := bp;
          b := k;
        }
      }
      bp := Word(mem, bp + WSIZE);
      k := k + 1;
    }
    BestForward(s, fm, asize);
    bp := bestBp;
  }

  /** Every list of a whole heap is walkable from its head. */
  lemma ListAt(v: Variant, m: map<int, nat>, brk: int, heads: seq<nat>, bs: seq<Blk>, free: seq<seq<nat>>, c: nat)
    requires Heap(v, m, brk, heads, bs, free, {}) && brk < SIZE_MAX && c < NUM_CLASSES
    ensures AllKnown(free, Vacant(WSIZE, bs)) && heads[c] == Head(free[c])
    ensures Walkable(m, free[c], Vacant(WSIZE, bs))
  {
    var s, fm := free[c], Vacant(WSIZE, bs);
    FiledKnown(v, free, fm);
    assert Chained(m, s);
    forall k | 0 <= k < |s| ensures s[k] > 0 && GetSize(Word(m, Hdrp(WSIZE, s[k])), DSIZE) == fm[s[k]] < SIZE_MAX {
      var i := NodeSize(m, brk, bs, s[k]);
    }
    forall k | 0 <= k < |s| ensures Word(m, s[k] + WSIZE) == SuccOf(s, k) {
      assert Word(m, s[k]) == PredOf(s, k);
    }
  }

  /** Where place's split leaves the remainder: block i + 1, free, with
      its payload asize bytes after block i's. */
  lemma PlacedNext(bs: seq<Blk>, i: nat, asize: nat)
    requires i < |bs| && asize <= bs[i].size && bs[i].size - asize >= 2 * DSIZE
    ensures var ps := Placed(WSIZE, bs, i, asize);
            i + 1 < |ps| && !ps[i + 1].alloc && ps[..i] == bs[..i] &&
            Payload(WSIZE, ps, i + 1) == Payload(WSIZE, bs, i) + asize
  {
    var ps := Placed(WSIZE, bs, i, asize);
    assert ps[..i] == bs[..i] && ps[i] == Blk(asize, true);
    SumPrefixStep(ps, i);
  }

  /** The free payloads of an allocated block followed by a free one: the
      second block's payload alone. */
  lemma SplitFree(h: int, b1: Blk, b2: Blk)
    requires b1.alloc && !b2.alloc
    ensures AllocIn(WSIZE, h, Flip([b1, b2])).Keys == {h + b1.size + WSIZE}
  {
    assert Flip([b1, b2]) == [Blk(b1.size, false), Blk(b2.size, true)];
    assert Flip([b1, b2])[1..] == [Blk(b2.size, true)];
    AllocInOne(WSIZE, h + b1.size, Blk(b2.size, true));
  }

  /** place's split, with block i off its list: the allocated front and
      the free remainder replace it, and the heap is whole again except
      that the remainder, at bp + asize, is on no list yet. */
  lemma SplitHeap(v: Variant, m: map<int, nat>, m': map<int, nat>, brk: int, heads: seq<nat>, bs: seq<Blk>,
                  free: seq<seq<nat>>, i: nat, asize: nat)
    requires Shaped(m, WSIZE, brk, bs) && i < |bs| && Lists(v, m, heads, free, Vacant(WSIZE, bs))
    requires Members(free) == Vacant(WSIZE, bs).Keys - {Payload(WSIZE, bs, i)}
    requires asize % DSIZE == 0 && 2 * DSIZE <= asize <= bs[i].size && bs[i].size - asize >= 2 * DSIZE
    requires SameOutside(m, m', Hdr(WSIZE, bs, i), Hdr(WSIZE, bs, i + 1))
    requires Shaped(m', WSIZE, brk, Placed(WSIZE, bs, i, asize))
    ensures Heap(v, m', brk, heads, Placed(WSIZE, bs, i, asize), free, {Payload(WSIZE, bs, i) + asize})
  {
    var b1, b2 := Blk(asize, true), Blk(bs[i].size - asize, false);
    assert bs[i..i + 1] == [bs[i]];
    SumOne(bs[i]);
    SumTwo(b1, b2);
    RunFacts(m, WSIZE, brk, bs, i, i + 1);
    SpanStep(bs, i, i);
    ReplaceLists(v, m, m', brk, heads, bs, free, i, i + 1, [b1, b2]);
    SplitFree(Hdr(WSIZE, bs, i), b1, b2);
  }

  /** Four PUTs inside [h, e) leave every word outside it alone. */
  lemma FourWrites(m: map<int, nat>, a1: int, a2: int, a3: int, a4: int, t1: nat, t2: nat, h: int, e: int)
    requires h <= a1 < e && h <= a2 < e && h <= a3 < e && h <= a4 < e
    ensures SameOutside(m, m[a1 := t1][a2 := t1][a3 := t2][a4 := t2], h, e)
  {
  }

  class SegHeap {
    /** Which of the two allocators this is. */
    const variant: Variant
    const arena: Arena
    /** segregated_free_lists: the head of each class's list, NULL (0) for
        an empty one. */
    const lists: array<nat>
    /** heap_listp: the prologue's payload once mm_init has run. */
    var heapListp: int
    /** The regular blocks of the arena, prologue and epilogue excluded. */
    ghost var blocks: seq<Blk>
    /** The lists, head first. */
    ghost var free: seq<seq<nat>>

    /** The heap is in shape and listed, except for the free blocks in
        out. The arena never grows past what 64-bit sizes can count. */
    ghost predicate Partial(out: set<int>)
      reads this, arena, lists
    {
      lists.Length == NUM_CLASSES && heapListp == 2 * WSIZE &&
      arena.brk <= arena.maxHeap < SIZE_MAX &&
      Heap(variant, arena.mem, arena.brk, lists[..], blocks, free, out)
    }

    /** Every free block is on the list of its class. */
    ghost predicate Valid()
      reads this, arena, lists
    {
      Partial({})
    }

    /** The live allocations: payload pointer to block size. */
    ghost function Allocated(): map<int, nat>
      reads this
    {
      Live(WSIZE, blocks)
    }

    constructor (variant: Variant, maxHeap: nat)
      requires maxHeap < SIZE_MAX
      ensures this.variant == variant && fresh(arena) && fresh(lists)
      ensures arena.brk == 0 && arena.maxHeap == maxHeap && lists.Length == NUM_CLASSES
    {
      this.variant := variant;
      arena := new Arena(maxHeap);
      lists := new nat[NUM_CLASSES];
      heapListp := 0;
      blocks := [];
      free := [];
    }

    /** PUT(HDRP(bp), PACK(size, alloc)) and then PUT(FTRP(bp), ...): the
        footer address is read back from the header just written. */
    method SetTags(bp: nat, size: nat, alloc: bool)
      requires 0 <= Hdrp(WSIZE, bp) < arena.brk
      requires 0 <= Ftrp(arena.mem[Hdrp(WSIZE, bp) := Pack(size, alloc)], WSIZE, bp) < arena.brk
      modifies arena
      ensures var m1 := old(arena.mem)[Hdrp(WSIZE, bp) := Pack(size, alloc)];
              arena.mem == m1[Ftrp(m1, WSIZE, bp) := Pack(size, alloc)]
      ensures arena.brk == old(arena.brk)
    {
      arena.Put(Hdrp(WSIZE, bp), Pack(size, alloc));
      arena.Put(Ftrp(arena.mem, WSIZE, bp), Pack(size, alloc));
    }

    /** insert_node(bp): push the free block bp, not on any list, onto the
        head of the list of its class. */
    method InsertNode(bp: nat, ghost out: set<int>)
      requires Partial(out) && bp in out && bp in Vacant(WSIZE, blocks)
      modifies this, arena, lists
      ensures Partial(out - {bp}) && blocks == old(blocks) && arena.brk == old(arena.brk)
      ensures free == Push(old(free), SizeClassOf(variant, Vacant(WSIZE, blocks)[bp]), bp)
    {
      ghost var m, heads := arena.mem, lists[..];
      PushHeap(variant, m, arena.brk, heads, blocks, free, out, bp);
      var c := SizeClassOf(variant, GetSize(Word(arena.mem, Hdrp(WSIZE, bp)), DSIZE));
      arena.Put(bp + WSIZE, lists[c]);
      arena.Put(bp, 0);
      if lists[c] != 0 {
        arena.Put(lists[c], bp);
      }
      lists[c] := bp;
      free := Push(free, c, bp);
      assert arena.mem == PushMem(m, heads[c], bp);
      assert lists[..] == heads[c := bp];
    }

    /** remove_node(bp): unlink the listed free block bp from the list of
        its class. mm.c reads PRED(bp) and SUCC(bp) once; mm_seg.c reads
        them again after the first write, which cannot have changed them. */
    method RemoveNode(bp: nat, ghost out: set<int>) returns (ghost k: nat)
      requires Partial(out) && bp in Members(free)
      modifies this, arena, lists
      ensures Partial(out + {bp}) && blocks == old(blocks) && arena.brk == old(arena.brk)
      ensures var c := SizeClassOf(variant, Vacant(WSIZE, blocks)[bp]);
              k < |old(free)[c]| && old(free)[c][k] == bp && free == Unlink(old(free), c, k)
      ensures free == Sift(old(free), {bp})
    {
      ghost var m, heads, fr := arena.mem, lists[..], free;
      ghost var c0;
      c0, k := UnlinkHeap(variant, m, arena.brk, heads, blocks, free, out, bp);
      var c := SizeClassOf(variant, GetSize(Word(arena.mem, Hdrp(WSIZE, bp)), DSIZE));
      var prev := Word(arena.mem, bp);
      var succ := Word(arena.mem, bp + WSIZE);
      if prev != 0 {
        arena.Put(prev + WSIZE, succ);
      } else {
        lists[c] := succ;
      }
      if variant == FirstFit {
        prev := Word(arena.mem, bp);
        succ := Word(arena.mem, bp + WSIZE);
      }
      if succ != 0 {
        arena.Put(succ, prev);
      }
      free := Unlink(free, c, k);
      SiftUnlink(variant, fr, Vacant(WSIZE, blocks), c, k);
      assert arena.mem == UnlinkMem(m, prev, succ);
      assert lists[..] == UnlinkHeads(heads, c, prev, succ);
    }
    /** coalesce case 2, only the next block free: remove_node on it,
        add its size, and PUT the merged size at HDRP(bp) and then at
        FTRP(bp), which now lies at the end of the next block. mm.c takes
        NEXT_BLKP(bp) once before the case split, mm_seg.c reads it again
        after remove_node, which writes link words only. */
    method JoinNext(bp: nat, next: nat, size: nat, ghost i: nat) returns (r: nat)
      requires Partial({bp}) && i < |blocks| && bp == Payload(WSIZE, blocks, i) && !blocks[i].alloc
      requires !PrevFree(blocks, i) && NextFree(blocks, i)
      requires next == Payload(WSIZE, blocks, i + 1) && size == blocks[i].size
      modifies this, arena, lists
      ensures Partial({r}) && arena.brk == old(arena.brk) && free == Sift(old(free), {next})
      ensures blocks == Coalesced(old(blocks), i) && r == bp == Payload(WSIZE, blocks, MergeLo(old(blocks), i))
    {
      ghost var bs := blocks;
      VacantAt(WSIZE, bs, i + 1);
      BlockAt(arena.mem, WSIZE, arena.brk, bs, i);
      ghost var k := RemoveNode(next, {bp});
      ghost var m, heads, fr := arena.mem, lists[..], free;
      JoinNextAddrs(m, arena.brk, bs, i);
      var nb := next;
      if variant == FirstFit {
        nb := NextBlkp(arena.mem, WSIZE, bp);
      }
      var total := size + GetSize(Word(arena.mem, Hdrp(WSIZE, nb)), DSIZE);
      assert Pack(total, false) == Pack(bs[i].size + bs[i + 1].size, false);
      SetTags(bp, total, false);
      JoinNextWrites(variant, m, arena.mem, arena.brk, heads, bs, fr, i);
      blocks := Coalesced(bs, i);
      r := bp;
    }

    /** coalesce case 3's two PUTs of the merged size. mm.c writes FTRP(bp)
        and then the header of the prev it saved; mm_seg.c writes the
        header of PREV_BLKP(bp), then FTRP(bp), and reads PREV_BLKP(bp)
        again for the merged block. */
    method PrevTags(bp: nat, prev: nat, total: nat, ghost bs: seq<Blk>, ghost i: nat) returns (p: nat)
      requires Shaped(arena.mem, WSIZE, arena.brk, bs) && 0 < i < |bs| && bp == Payload(WSIZE, bs, i)
      requires !bs[i].alloc && PrevFree(bs, i) && !NextFree(bs, i)
      requires prev == Payload(WSIZE, bs, i - 1) && total == bs[i - 1].size + bs[i].size
      modifies arena
      ensures arena.brk == old(arena.brk) && p == prev
      ensures Shaped(arena.mem, WSIZE, arena.brk, Coalesced(bs, i))
      ensures SameOutside(old(arena.mem), arena.mem, Hdr(WSIZE, bs, i - 1), Hdr(WSIZE, bs, i + 1))
    {
      ghost var m0, t := arena.mem, Pack(total, false);
      RunBounds(m0, WSIZE, arena.brk, bs, i);
      ghost var a, b;
      if variant == BestFit {
        CoalescePrevPuts(m0, WSIZE, arena.brk, bs, i, t);
        a := Ftrp(arena.mem, WSIZE, bp);
        arena.Put(Ftrp(arena.mem, WSIZE, bp), Pack(total, false));
        b := Hdrp(WSIZE, prev);
        arena.Put(Hdrp(WSIZE, prev), Pack(total, false));
        p := prev;
      } else {
        SegPrevPuts(m0, arena.brk, bs, i, t);
        a := Hdrp(WSIZE, PrevBlkp(arena.mem, WSIZE, bp));
        arena.Put(Hdrp(WSIZE, PrevBlkp(arena.mem, WSIZE, bp)), Pack(total, false));
        b := Ftrp(arena.mem, WSIZE, bp);
        arena.Put(Ftrp(arena.mem, WSIZE, bp), Pack(total, false));
        p := PrevBlkp(arena.mem, WSIZE, bp);
      }
      MergedShape(m0, WSIZE, arena.brk, bs, i - 1, i + 1, false, a, b, t, arena.mem, Coalesced(bs, i));
      TwoWrites(m0, a, b, t, Hdr(WSIZE, bs, i - 1), Hdr(WSIZE, bs, i + 1));
    }

    /** coalesce case 4's two PUTs of the merged size: the header of the
        previous block, then the footer of the next one. mm.c uses the prev
        and next it saved, mm_seg.c reads PREV_BLKP(bp) and NEXT_BLKP(bp)
        afresh each time. */
    method BothTags(bp: nat, prev: nat, next: nat, total: nat, ghost bs: seq<Blk>, ghost i: nat) returns (p: nat)
      requires Shaped(arena.mem, WSIZE, arena.brk, bs) && 0 < i && i + 1 < |bs| && bp == Payload(WSIZE, bs, i)
      requires !bs[i].alloc && PrevFree(bs, i) && NextFree(bs, i)
      requires prev == Payload(WSIZE, bs, i - 1) && next == Payload(WSIZE, bs, i + 1)
      requires total == bs[i - 1].size + bs[i].size + bs[i + 1].size
      modifies arena
      ensures arena.brk == old(arena.brk) && p == prev
      ensures Shaped(arena.mem, WSIZE, arena.brk, Coalesced(bs, i))
      ensures SameOutside(old(arena.mem), arena.mem, Hdr(WSIZE, bs, i - 1), Hdr(WSIZE, bs, i + 2))
    {
      ghost var m0, t := arena.mem, Pack(total, false);
      RunBounds(m0, WSIZE, arena.brk, bs, i);
      BothPuts(m0, arena.brk, bs, i, t);
      ghost var a, b;
      if variant == BestFit {
        a := Hdrp(WSIZE, prev);
        arena.Put(Hdrp(WSIZE, prev), Pack(total, false));
        b := Ftrp(arena.mem, WSIZE, next);
        arena.Put(Ftrp(arena.mem, WSIZE, next), Pack(total, false));
        p := prev;
      } else {
        a := Hdrp(WSIZE, PrevBlkp(arena.mem, WSIZE, bp));
        arena.Put(Hdrp(WSIZE, PrevBlkp(arena.mem, WSIZE, bp)), Pack(total, false));
        b := Ftrp(arena.mem, WSIZE, NextBlkp(arena.mem, WSIZE, bp));
        arena.Put(Ftrp(arena.mem, WSIZE, NextBlkp(arena.mem, WSIZE, bp)), Pack(total, false));
        p := PrevBlkp(arena.mem, WSIZE, bp);
      }
      MergedShape(m0, WSIZE, arena.brk, bs, i - 1, i + 2, false, a, b, t, arena.mem, Coalesced(bs, i));
      TwoWrites(m0, a, b, t, Hdr(WSIZE, bs, i - 1), Hdr(WSIZE, bs, i + 2));
    }

    /** coalesce case 3, only the previous block free: remove_node on it,
        add its size, and PUT the merged size at both ends of the run (see
        PrevTags). mm.c takes PREV_BLKP(bp) once before the case split,
        mm_seg.c reads it again after remove_node. */
    method JoinPrev(bp: nat, prev: nat, size: nat, ghost i: nat) returns (r: nat)
      requires Partial({bp}) && 0 < i < |blocks| && bp == Payload(WSIZE, blocks, i) && !blocks[i].alloc
      requires PrevFree(blocks, i) && !NextFree(blocks, i)
      requires prev == Payload(WSIZE, blocks, i - 1) && size == blocks[i].size
      modifies this, arena, lists
      ensures Partial({r}) && arena.brk == old(arena.brk) && free == Sift(old(free), {prev})
      ensures blocks == Coalesced(old(blocks), i) && r == prev == Payload(WSIZE, blocks, MergeLo(old(blocks), i))
    {
      ghost var bs := blocks;
      VacantAt(WSIZE, bs, i - 1);
      BlockAt(arena.mem, WSIZE, arena.brk, bs, i - 1);
      ghost var k := RemoveNode(prev, {bp});
      ghost var m, heads, fr := arena.mem, lists[..], free;
      NeighbourAt(m, arena.brk, bs, i);
      var p := prev;
      if variant == FirstFit {
        p := PrevBlkp(arena.mem, WSIZE, bp);
      }
      var total := size + GetSize(Word(arena.mem, Hdrp(WSIZE, p)), DSIZE);
      MergeSpan(bs, i);
      r := PrevTags(bp, p, total, bs, i);
      JoinWrites(variant, m, arena.mem, arena.brk, heads, bs, fr, i);
      blocks := Coalesced(bs, i);
    }

    /** coalesce case 4, both neighbours free: remove_node on the previous
        block and then on the next (mm_seg.c reads NEXT_BLKP(bp) again),
        then the rest of the case in BothRest. */
    method JoinBoth(bp: nat, prev: nat, next: nat, size: nat, ghost i: nat) returns (r: nat)
      requires Partial({bp}) && 0 < i && i + 1 < |blocks| && bp == Payload(WSIZE, blocks, i) && !blocks[i].alloc
      requires PrevFree(blocks, i) && NextFree(blocks, i)
      requires prev == Payload(WSIZE, blocks, i - 1) && next == Payload(WSIZE, blocks, i + 1)
      requires size == blocks[i].size
      modifies this, arena, lists
      ensures Partial({r}) && arena.brk == old(arena.brk) && free == Sift(old(free), {prev} + {next})
      ensures blocks == Coalesced(old(blocks), i) && r == prev == Payload(WSIZE, blocks, MergeLo(old(blocks), i))
    {
      ghost var bs, fr := blocks, free;
      VacantAt(WSIZE, bs, i - 1);
      VacantAt(WSIZE, bs, i + 1);
      BlockAt(arena.mem, WSIZE, arena.brk, bs, i - 1);
      BlockAt(arena.mem, WSIZE, arena.brk, bs, i);
      ghost var k1 := RemoveNode(prev, {bp});
      NeighbourAt(arena.mem, arena.brk, bs, i);
      var n := next;
      if variant == FirstFit {
        n := NextBlkp(arena.mem, WSIZE, bp);
      }
      ghost var k2 := RemoveNode(n, {bp} + {prev});
      SiftTwice(fr, {prev}, {next});
      r := BothRest(bp, prev, n, size, i);
    }

    /** The rest of coalesce case 4, both neighbours off their lists: add
        their sizes (mm_seg.c reads PREV_BLKP(bp) and NEXT_BLKP(bp) again)
        and PUT the merged size at both ends of the run (see BothTags). */
    method BothRest(bp: nat, prev: nat, next: nat, size: nat, ghost i: nat) returns (r: nat)
      requires 0 < i && i + 1 < |blocks| && Partial({bp} + {prev} + {next})
      requires bp == Payload(WSIZE, blocks, i) && !blocks[i].alloc && PrevFree(blocks, i) && NextFree(blocks, i)
      requires prev == Payload(WSIZE, blocks, i - 1) && next == Payload(WSIZE, blocks, i + 1)
      requires size == blocks[i].size
      modifies this, arena, lists
      ensures Partial({r}) && arena.brk == old(arena.brk) && free == old(free)
      ensures blocks == Coalesced(old(blocks), i) && r == prev == Payload(WSIZE, blocks, MergeLo(old(blocks), i))
    {
      ghost var bs, m, heads, fr := blocks, arena.mem, lists[..], free;
      NeighbourAt(m, arena.brk, bs, i);
      var p, n := prev, next;
      if variant == FirstFit {
        p, n := PrevBlkp(arena.mem, WSIZE, bp), NextBlkp(arena.mem, WSIZE, bp);
      }
      var total := size + (GetSize(Word(arena.mem, Hdrp(WSIZE, p)), DSIZE) + GetSize(Word(arena.mem, Hdrp(WSIZE, n)), DSIZE));
      MergeSpan(bs, i);
      r := BothTags(bp, p, n, total, bs, i);
      JoinWrites(variant, m, arena.mem, arena.brk, heads, bs, fr, i);
      blocks := Coalesced(bs, i);
    }

    /** coalesce(bp) on the free block i, which is on no list: merge it
        with each free neighbour, push the merged block onto the head of
        the list of its class, and return it. No allocation changes. */
    method Coalesce(bp: nat, ghost i: nat) returns (r: nat)
      requires Partial({bp}) && i < |blocks| && bp == Payload(WSIZE, blocks, i) && !blocks[i].alloc
      modifies this, arena, lists
      ensures Valid() && arena.brk == old(arena.brk) && Allocated() == old(Allocated())
      ensures blocks == Coalesced(old(blocks), i) && r == Payload(WSIZE, blocks, MergeLo(old(blocks), i))
      ensures r in Vacant(WSIZE, blocks) && Head(free[SizeClassOf(variant, Vacant(WSIZE, blocks)[r])]) == r
      ensures free == Relisted(variant, old(blocks), old(free), i)
    {
      ghost var bs := blocks;
      r := Merge(bp, i);
      CoalescedAlloc(WSIZE, 3 * WSIZE, bs, i);
      CoalescedBlock(bs, i);
      VacantAt(WSIZE, blocks, MergeLo(bs, i));
      assert blocks[..MergeLo(bs, i)] == bs[..MergeLo(bs, i)];
      InsertNode(r, {r});
    }

    /** coalesce up to insert_node: read the neighbours' allocated bits
        (mm.c the previous block's footer, mm_seg.c its header after a
        bounds check against the arena) and take the case that applies. */
    method Merge(bp: nat, ghost i: nat) returns (r: nat)
      requires Partial({bp}) && i < |blocks| && bp == Payload(WSIZE, blocks, i) && !blocks[i].alloc
      modifies this, arena, lists
      ensures Partial({r}) && arena.brk == old(arena.brk)
      ensures blocks == Coalesced(old(blocks), i) && r == Payload(WSIZE, blocks, MergeLo(old(blocks), i))
      ensures free == Sift(old(free), Span(old(blocks), MergeLo(old(blocks), i), MergeHi(old(blocks), i)))
    {
      ghost var bs := blocks;
      MergeSift(free, bs, i);
      var prevAlloc, nextAlloc;
      if variant == BestFit {
        NeighbourFlags(arena.mem, WSIZE, arena.brk, bs, i);
        prevAlloc := GetAlloc(Word(arena.mem, Ftrp(arena.mem, WSIZE, PrevBlkp(arena.mem, WSIZE, bp))));
        nextAlloc := GetAlloc(Word(arena.mem, Hdrp(WSIZE, NextBlkp(arena.mem, WSIZE, bp))));
      } else {
        SegFlags(arena.mem, arena.brk, bs, i);
        prevAlloc := PrevBlkp(arena.mem, WSIZE, bp) < arena.HeapLo() ||
                     GetAlloc(Word(arena.mem, Hdrp(WSIZE, PrevBlkp(arena.mem, WSIZE, bp))));
        nextAlloc := NextBlkp(arena.mem, WSIZE, bp) > arena.HeapHi() ||
                     GetAlloc(Word(arena.mem, Hdrp(WSIZE, NextBlkp(arena.mem, WSIZE, bp))));
      }
      NeighbourAt(arena.mem, arena.brk, bs, i);
      var size := GetSize(Word(arena.mem, Hdrp(WSIZE, bp)), DSIZE);
      var next := NextBlkp(arena.mem, WSIZE, bp);
      var prev := PrevBlkp(arena.mem, WSIZE, bp);
      if prevAlloc && nextAlloc {
        CoalesceNone(bs, i);
        r := bp;
      } else if prevAlloc {
        r := JoinNext(bp, next, size, i);
      } else if nextAlloc {
        r := JoinPrev(bp, prev, size, i);
      } else {
        r := JoinBoth(bp, prev, next, size, i);
      }
    }

    /** extend_heap's three PUTs on the space just added: the new block's
        header (over the old epilogue) and footer, then the new epilogue's
        header after it. */
    method GrowTags(bp: nat, size: nat)
      requires size % DSIZE == 0 && size >= 4 * WSIZE && bp >= WSIZE && bp + size == arena.brk
      modifies arena
      ensures arena.brk == old(arena.brk)
      ensures arena.mem == old(arena.mem)[bp - WSIZE := Pack(size, false)][bp + size - DSIZE := Pack(size, false)]
                                         [bp + size - WSIZE := Pack(0, true)]
    {
      ghost var m0, t := arena.mem, Pack(size, false);
      arena.Put(Hdrp(WSIZE, bp), Pack(size, false));
      FtrpAfterHeader(m0, WSIZE, bp, size, false);
      ghost var a2 := Ftrp(arena.mem, WSIZE, bp);
      arena.Put(Ftrp(arena.mem, WSIZE, bp), Pack(size, false));
      NextBlkpFrame(m0[bp - WSIZE := t], WSIZE, bp, a2, t);
      arena.Put(Hdrp(WSIZE, NextBlkp(arena.mem, WSIZE, bp)), Pack(0, true));
    }

    /** extend_heap(words): grow the arena by an even number of words, lay
        one free block over the new space (its header where the epilogue
        was), write a new epilogue after it, and coalesce the block. NULL
        (0) when the arena cannot grow. */
    method ExtendHeap(words: nat) returns (bp: nat)
      requires Valid() && words >= 4
      modifies this, arena, lists
      ensures Valid() && Allocated() == old(Allocated())
      ensures bp == 0 <==> old(arena.brk) + ExtendBytes(words, WSIZE) > arena.maxHeap
      ensures bp == 0 ==> blocks == old(blocks) && free == old(free) && arena.brk == old(arena.brk)
      ensures bp != 0 ==>
                var n, grown := |old(blocks)|, old(blocks) + [Blk(ExtendBytes(words, WSIZE), false)];
                arena.brk == old(arena.brk) + ExtendBytes(words, WSIZE) &&
                blocks == Coalesced(grown, n) && bp == Payload(WSIZE, blocks, MergeLo(grown, n)) &&
                bp in Vacant(WSIZE, blocks) && Head(free[SizeClassOf(variant, Vacant(WSIZE, blocks)[bp])]) == bp &&
                free == Relisted(variant, grown, old(free), n)
    {
      var size := ExtendBytes(words, WSIZE);
      ghost var m0, brk0, bs, heads := arena.mem, arena.brk, blocks, lists[..];
      var ok, p := arena.Sbrk(size);
      if !ok {
        return 0;
      }
      bp := p;
      GrowTags(bp, size);
      ExtendShape(m0, WSIZE, brk0, bs, size, bp - WSIZE, bp + size - DSIZE, bp + size - WSIZE, arena.mem);
      AppendHeap(variant, m0, arena.mem, brk0, heads, bs, free, size);
      blocks := bs + [Blk(size, false)];
      bp := Coalesce(bp, |bs|);
      ghost var j := NodeSize(arena.mem, arena.brk, blocks, bp);
    }

    /** mm_init on a fresh arena: the padding word, the prologue and the
        epilogue (see Prologue), then extend_heap(CHUNKSIZE / WSIZE) and
        extend_heap(4), whose block merges with the first. 0 on success,
        leaving one free block of CHUNKSIZE + 32 bytes alone on its
        class's list; -1 when the arena cannot hold it. */
    method MmInit() returns (r: int)
      requires arena.brk == 0 && lists.Length == NUM_CLASSES && arena.maxHeap < SIZE_MAX
      modifies this, arena, lists
      ensures r == 0 || r == -1
      ensures r == 0 <==> 4 * WSIZE + CHUNKSIZE + 4 * WSIZE <= arena.maxHeap
      ensures r == 0 ==> Valid() && blocks == [Blk(CHUNKSIZE + 4 * WSIZE, false)] && Allocated() == map[]
      ensures r == 0 ==> forall c | 0 <= c < NUM_CLASSES ::
                           free[c] == if c == SizeClassOf(variant, CHUNKSIZE + 4 * WSIZE) then [4 * WSIZE] else []
    {
      var ok := Prologue();
      if !ok {
        return -1;
      }
      InitBlocks();
      var bp := ExtendHeap(CHUNKSIZE / WSIZE);
      if bp == 0 {
        return -1;
      }
      assert [] + [Blk(CHUNKSIZE, false)] == [Blk(CHUNKSIZE, false)];
      r := SmallBlock();
    }

    /** mm_init's extend_heap(4), after the first chunk: its block merges
        with the chunk. */
    method SmallBlock() returns (r: int)
      requires Valid() && blocks == [Blk(CHUNKSIZE, false)] && arena.brk == 4 * WSIZE + CHUNKSIZE
      modifies this, arena, lists
      ensures r == 0 || r == -1
      ensures r == 0 <==> 4 * WSIZE + CHUNKSIZE + 4 * WSIZE <= arena.maxHeap
      ensures r == 0 ==> Valid() && blocks == [Blk(CHUNKSIZE + 4 * WSIZE, false)] && Allocated() == map[]
      ensures r == 0 ==> forall c | 0 <= c < NUM_CLASSES ::
                           free[c] == if c == SizeClassOf(variant, CHUNKSIZE + 4 * WSIZE) then [4 * WSIZE] else []
    {
      InitBlocks();
      var bp := ExtendHeap(4);
      if bp == 0 {
        return -1;
      }
      assert [Blk(CHUNKSIZE, false)] + [Blk(4 * WSIZE, false)] == [Blk(CHUNKSIZE, false), Blk(4 * WSIZE, false)];
      assert blocks == [Blk(CHUNKSIZE + 4 * WSIZE, false)];
      InitLists(variant, arena.mem, arena.brk, lists[..], free);
      return 0;
    }

    /** The start of mm_init: mem_sbrk(4 * WSIZE) for the padding word,
        the prologue's header and footer and the epilogue's header;
        heap_listp moved to the prologue's payload; every list head NULL.
        False, changing nothing, when the arena cannot grow. */
    method Prologue() returns (ok: bool)
      requires arena.brk == 0 && lists.Length == NUM_CLASSES && arena.maxHeap < SIZE_MAX
      modifies this, arena, lists
      ensures ok <==> 4 * WSIZE <= arena.maxHeap
      ensures ok ==> Valid() && blocks == [] && free == NoLists() && arena.brk == 4 * WSIZE
    {
      var p;
      ok, p := arena.Sbrk(4 * WSIZE);
      if !ok {
        return;
      }
      heapListp := p;
      ghost var m0 := arena.mem;
      arena.Put(heapListp, 0);
      arena.Put(heapListp + 1 * WSIZE, Pack(DSIZE, true));
      arena.Put(heapListp + 2 * WSIZE, Pack(DSIZE, true));
      arena.Put(heapListp + 3 * WSIZE, Pack(0, true));
      InitShape(m0, WSIZE, 0, WSIZE, 2 * WSIZE, 3 * WSIZE, arena.mem);
      heapListp := heapListp + 2 * WSIZE;
      for c := 0 to NUM_CLASSES
        modifies lists
        invariant forall d | 0 <= d < c :: lists[d] == 0
      {
        lists[c] := 0;
      }
      EmptyHeap(variant, arena.mem, lists[..]);
      blocks, free := [], NoLists();
    }

    /** find_fit(asize): the lists from the request's class up, each
        walked in turn, until one yields a block. */
    method FindFit(asize: nat) returns (bp: nat)
      requires Valid()
      ensures AllKnown(free, Vacant(WSIZE, blocks))
      ensures bp == Fit.FindFit(variant, free, Vacant(WSIZE, blocks), asize)
    {
      ghost var fm := Vacant(WSIZE, blocks);
      FiledKnown(variant, free, fm);
      var c := SizeClassOf(variant, asize);
      while c < NUM_CLASSES
        invariant Search(variant, free, fm, asize, c) == Fit.FindFit(variant, free, fm, asize)
      {
        bp := ScanList(c, asize);
        if bp != 0 {
          return;
        }
        c := c + 1;
      }
      bp := 0;
    }

    /** One list of find_fit's class loop, walked as the variant does:
        the node Pick chooses, or NULL. */
    method ScanList(c: nat, asize: nat) returns (bp: nat)
      requires Valid() && c < NUM_CLASSES
      ensures AllKnown(free, Vacant(WSIZE, blocks)) && Positive(free)
      ensures var k := Pick(variant, free[c], Vacant(WSIZE, blocks), asize);
              bp == if k == -1 then 0 else free[c][k]
    {
      ghost var fm := Vacant(WSIZE, blocks);
      FiledKnown(variant, free, fm);
      ListAt(variant, arena.mem, arena.brk, lists[..], blocks, free, c);
      if variant == BestFit {
        bp := ScanBest(arena.mem, lists[c], asize, free[c], fm);
      } else {
        bp := ScanFirst(arena.mem, lists[c], asize, free[c], fm);
      }
    }

    /** place's split branch: PUT PACK(asize, 1) at HDRP(bp) and FTRP(bp),
        step to NEXT_BLKP(bp), and PUT the free remainder's tags there;
        next is the remainder's payload. */
    method PlaceSplit(bp: nat, csize: nat, asize: nat, ghost bs: seq<Blk>, ghost i: nat) returns (next: nat)
      requires Shaped(arena.mem, WSIZE, arena.brk, bs) && i < |bs| && bp == Payload(WSIZE, bs, i)
      requires csize == bs[i].size && asize % DSIZE == 0 && 2 * DSIZE <= asize && csize - asize >= 2 * DSIZE
      modifies arena
      ensures arena.brk == old(arena.brk) && next == bp + asize
      ensures Shaped(arena.mem, WSIZE, arena.brk, Placed(WSIZE, bs, i, asize))
      ensures Live(WSIZE, Placed(WSIZE, bs, i, asize)) == Live(WSIZE, bs)[bp := asize]
      ensures SameOutside(old(arena.mem), arena.mem, Hdr(WSIZE, bs, i), Hdr(WSIZE, bs, i + 1))
    {
      ghost var m0 := arena.mem;
      PlaceAddrs(m0, WSIZE, arena.brk, bs, i);
      BlockAt(m0, WSIZE, arena.brk, bs, i);
      SplitAddrs(m0, WSIZE, bp, asize, csize - asize);
      ghost var a1 := Hdrp(WSIZE, bp);
      arena.Put(Hdrp(WSIZE, bp), Pack(asize, true));
      ghost var a2 := Ftrp(arena.mem, WSIZE, bp);
      arena.Put(Ftrp(arena.mem, WSIZE, bp), Pack(asize, true));
      next := NextBlkp(arena.mem, WSIZE, bp);
      ghost var a3 := Hdrp(WSIZE, next);
      arena.Put(Hdrp(WSIZE, next), Pack(csize - asize, false));
      ghost var a4 := Ftrp(arena.mem, WSIZE, next);
      arena.Put(Ftrp(arena.mem, WSIZE, next), Pack(csize - asize, false));
      PlaceSplitShape(m0, WSIZE, arena.brk, bs, i, asize, a1, a2, a3, a4, arena.mem);
      FourWrites(m0, a1, a2, a3, a4, Pack(asize, true), Pack(csize - asize, false), Hdr(WSIZE, bs, i), Hdr(WSIZE, bs, i + 1));
    }

    /** PUT PACK(size, alloc) at HDRP(bp) and FTRP(bp), with size the
        block's own: place's whole-block branch (alloc set) and mm_free
        (alloc clear). */
    method Retag(bp: nat, size: nat, alloc: bool, ghost bs: seq<Blk>, ghost i: nat)
      requires Shaped(arena.mem, WSIZE, arena.brk, bs) && i < |bs| && bp == Payload(WSIZE, bs, i)
      requires size == bs[i].size
      modifies arena
      ensures arena.brk == old(arena.brk)
      ensures Shaped(arena.mem, WSIZE, arena.brk, bs[..i] + [Blk(size, alloc)] + bs[i + 1..])
      ensures Live(WSIZE, bs[..i] + [Blk(size, alloc)] + bs[i + 1..]) ==
              if alloc then Live(WSIZE, bs)[bp := size] else Live(WSIZE, bs) - {bp}
      ensures SameOutside(old(arena.mem), arena.mem, Hdr(WSIZE, bs, i), Hdr(WSIZE, bs, i + 1))
    {
      ghost var m0 := arena.mem;
      BlockAt(m0, WSIZE, arena.brk, bs, i);
      ghost var a := Hdrp(WSIZE, bp);
      arena.Put(Hdrp(WSIZE, bp), Pack(size, alloc));
      FtrpAfterHeader(m0, WSIZE, bp, size, alloc);
      ghost var b := Ftrp(arena.mem, WSIZE, bp);
      arena.Put(Ftrp(arena.mem, WSIZE, bp), Pack(size, alloc));
      assert bs[i..i + 1] == [bs[i]];
      SumOne(bs[i]);
      MergedShape(m0, WSIZE, arena.brk, bs, i, i + 1, alloc, a, b, Pack(size, alloc), arena.mem,
                  bs[..i] + [Blk(size, alloc)] + bs[i + 1..]);
      TwoWrites(m0, a, b, Pack(size, alloc), Hdr(WSIZE, bs, i), Hdr(WSIZE, bs, i + 1));
      LiveOne(WSIZE, bs, i, alloc);
    }

    /** place(bp, asize) on the free block i: take it off its list, then
        split off the remainder as a free block, pushed onto its class's
        list, when it is at least 2*DSIZE, or else allocate the whole
        block. */
    method Place(bp: nat, asize: nat, ghost i: nat)
      requires Valid() && i < |blocks| && bp == Payload(WSIZE, blocks, i) && !blocks[i].alloc
      requires asize % DSIZE == 0 && 2 * DSIZE <= asize <= blocks[i].size
      modifies this, arena, lists
      ensures Valid() && arena.brk == old(arena.brk)
      ensures blocks == Placed(WSIZE, old(blocks), i, asize) && Payload(WSIZE, blocks, i) == bp
      ensures free == PlacedLists(variant, old(free), bp, old(blocks)[i].size, asize)
      ensures Allocated() == old(Allocated())[bp := blocks[i].size]
    {
      ghost var bs, fr := blocks, free;
      VacantAt(WSIZE, bs, i);
      PlaceAddrs(arena.mem, WSIZE, arena.brk, bs, i);
      PlacedFacts(WSIZE, bs, i, asize);
      var csize := GetSize(Word(arena.mem, Hdrp(WSIZE, bp)), DSIZE);
      assert csize == bs[i].size && |fr| == NUM_CLASSES;
      ghost var k := RemoveNode(bp, {});
      if csize - asize >= 2 * DSIZE {
        PlaceRest(bp, csize, asize, i, fr);
      } else {
        PlaceWhole(bp, csize, asize, i, fr);
      }
    }

    /** The whole-block branch of place once block i is off its list:
        PUT PACK(csize, 1) at both ends. */
    method PlaceWhole(bp: nat, csize: nat, asize: nat, ghost i: nat, ghost fr: seq<seq<nat>>)
      requires Partial({} + {bp}) && i < |blocks| && bp == Payload(WSIZE, blocks, i) && !blocks[i].alloc
      requires csize == blocks[i].size && asize <= csize && csize - asize < 2 * DSIZE
      requires |fr| == NUM_CLASSES && free == Sift(fr, {bp})
      modifies this, arena, lists
      ensures Valid() && arena.brk == old(arena.brk)
      ensures blocks == Placed(WSIZE, old(blocks), i, asize) && Payload(WSIZE, blocks, i) == bp
      ensures free == old(free) == PlacedLists(variant, fr, bp, csize, asize)
      ensures Live(WSIZE, blocks) == Live(WSIZE, old(blocks))[bp := csize]
    {
      ghost var bs, m, heads, fr := blocks, arena.mem, lists[..], free;
      Retag(bp, csize, true, bs, i);
      SpanStep(bs, i, i);
      MergedHeap(variant, m, arena.mem, arena.brk, heads, bs, fr, i, i + 1, true);
      blocks := Placed(WSIZE, bs, i, asize);
    }

    /** The split branch of place once block i is off its list. */
    method PlaceRest(bp: nat, csize: nat, asize: nat, ghost i: nat, ghost fr: seq<seq<nat>>)
      requires Partial({} + {bp}) && i < |blocks| && bp == Payload(WSIZE, blocks, i) && !blocks[i].alloc
      requires csize == blocks[i].size && asize % DSIZE == 0 && 2 * DSIZE <= asize && csize - asize >= 2 * DSIZE
      requires |fr| == NUM_CLASSES && free == Sift(fr, {bp})
      modifies this, arena, lists
      ensures Valid() && arena.brk == old(arena.brk)
      ensures blocks == Placed(WSIZE, old(blocks), i, asize) && Payload(WSIZE, blocks, i) == bp
      ensures free == Push(old(free), SizeClassOf(variant, csize - asize), bp + asize)
      ensures free == PlacedLists(variant, fr, bp, csize, asize)
      ensures Live(WSIZE, blocks) == Live(WSIZE, old(blocks))[bp := asize]
    {
      ghost var bs, m, heads, f0 := blocks, arena.mem, lists[..], free;
      var next := PlaceSplit(bp, csize, asize, bs, i);
      SplitHeap(variant, m, arena.mem, arena.brk, heads, bs, f0, i, asize);
      PlacedNext(bs, i, asize);
      blocks := Placed(WSIZE, bs, i, asize);
      VacantAt(WSIZE, blocks, i + 1);
      assert blocks[i + 1].size == csize - asize;
      assert Vacant(WSIZE, blocks)[next] == csize - asize;
      InsertNode(next, {next});
      PlacedSplitLists(variant, fr, f0, free, bp, csize, asize);
    }

    /** place(bp, asize) on the free block k, as both of mm_malloc's
        success paths end: bp becomes a new allocation of at least asize
        bytes, DSIZE-aligned. */
    method PlaceFit(bp: nat, asize: nat, ghost k: nat)
      requires Valid() && k < |blocks| && bp == Payload(WSIZE, blocks, k) && !blocks[k].alloc
      requires asize % DSIZE == 0 && 2 * DSIZE <= asize <= blocks[k].size
      modifies this, arena, lists
      ensures Valid() && arena.brk == old(arena.brk)
      ensures blocks == Placed(WSIZE, old(blocks), k, asize)
      ensures free == PlacedLists(variant, old(free), bp, old(blocks)[k].size, asize)
      ensures Grants(old(Allocated()), Allocated(), bp, asize) && bp % DSIZE == 0
    {
      LiveAt(WSIZE, blocks, k);
      Place(bp, asize, k);
      PlacedFacts(WSIZE, old(blocks), k, asize);
      PayloadAligned(arena.mem, WSIZE, arena.brk, blocks, k);
    }

    /** mm_malloc(size): NULL for size 0; otherwise adjust the request,
        place it in the block find_fit returns, or else extend the heap by
        MAX(asize, CHUNKSIZE) bytes and place it in the block extend_heap
        returns. NULL when no free block fits and the arena cannot grow. */
    method MmMalloc(size: nat) returns (bp: nat)
      requires Valid()
      modifies this, arena, lists
      ensures Valid() && AllKnown(old(free), old(Vacant(WSIZE, blocks)))
      ensures var asize, fm := AdjustSize(size, DSIZE), old(Vacant(WSIZE, blocks));
              bp == 0 <==> size == 0 ||
                           ((forall q | q in fm :: fm[q] < asize) &&
                            old(arena.brk) + ExtendBytes(Max(asize, CHUNKSIZE) / WSIZE, WSIZE) > arena.maxHeap)
      ensures bp == 0 ==> Allocated() == old(Allocated()) && blocks == old(blocks) && free == old(free)
      ensures bp != 0 ==> Grants(old(Allocated()), Allocated(), bp, AdjustSize(size, DSIZE)) && bp % DSIZE == 0
      ensures var asize, fm := AdjustSize(size, DSIZE), old(Vacant(WSIZE, blocks));
              size > 0 && Fit.FindFit(variant, old(free), fm, asize) != 0 ==>
                bp == Fit.FindFit(variant, old(free), fm, asize) && arena.brk == old(arena.brk) &&
                bp in fm &&
                var k := FreeIndex(WSIZE, old(blocks), bp);
                asize <= old(blocks)[k].size && blocks == Placed(WSIZE, old(blocks), k, asize) &&
                free == PlacedLists(variant, old(free), bp, old(blocks)[k].size, asize)
      ensures var asize, fm := AdjustSize(size, DSIZE), old(Vacant(WSIZE, blocks));
              size > 0 && Fit.FindFit(variant, old(free), fm, asize) == 0 && bp != 0 ==>
                var n, grown := |old(blocks)|, old(blocks) + [Blk(ExtendBytes(Max(asize, CHUNKSIZE) / WSIZE, WSIZE), false)];
                var lo := MergeLo(grown, n);
                bp == Payload(WSIZE, grown, lo) && asize <= Coalesced(grown, n)[lo].size &&
                blocks == Placed(WSIZE, Coalesced(grown, n), lo, asize) &&
                free == PlacedLists(variant, Relisted(variant, grown, old(free), n), bp, Coalesced(grown, n)[lo].size, asize)
      ensures bp != 0 ==>
                blocks == Malloced(variant, old(blocks), old(free), AdjustSize(size, DSIZE)) &&
                free == MallocLists(variant, old(blocks), old(free), AdjustSize(size, DSIZE))
    {
      ghost var fm := Vacant(WSIZE, blocks);
      FindFitFound(variant, free, fm, 0);
      if size == 0 {
        return 0;
      }
      var asize: nat;
      if size <= DSIZE {
        asize := 2 * DSIZE;
      } else {
        asize := DSIZE * ((size + DSIZE + (DSIZE - 1)) / DSIZE);
      }
      assert asize == AdjustSize(size, DSIZE);
      FindFitFound(variant, free, fm, asize);
      bp := FindFit(asize);
      if bp != 0 {
        ghost var k := FreeIndex(WSIZE, blocks, bp);
        PlaceFit(bp, asize, k);
        return;
      }
      bp := ExtendPlace(asize);
    }

    /** mm_malloc's last resort: extend_heap(MAX(asize, CHUNKSIZE)/WSIZE)
        and place the request in the block it returns; NULL when the arena
        cannot grow by that much. */
    method ExtendPlace(asize: nat) returns (bp: nat)
      requires Valid() && asize % DSIZE == 0 && 2 * DSIZE <= asize
      modifies this, arena, lists
      ensures Valid()
      ensures bp == 0 <==> old(arena.brk) + ExtendBytes(Max(asize, CHUNKSIZE) / WSIZE, WSIZE) > arena.maxHeap
      ensures bp == 0 ==> Allocated() == old(Allocated()) && blocks == old(blocks) && free == old(free)
      ensures bp != 0 ==> Grants(old(Allocated()), Allocated(), bp, asize) && bp % DSIZE == 0
      ensures bp != 0 ==>
                var n, grown := |old(blocks)|, old(blocks) + [Blk(ExtendBytes(Max(asize, CHUNKSIZE) / WSIZE, WSIZE), false)];
                var lo := MergeLo(grown, n);
                bp == Payload(WSIZE, grown, lo) && asize <= Coalesced(grown, n)[lo].size &&
                blocks == Placed(WSIZE, Coalesced(grown, n), lo, asize) &&
                free == PlacedLists(variant, Relisted(variant, grown, old(free), n), bp, Coalesced(grown, n)[lo].size, asize)
    {
      var extendsize := Max(asize, CHUNKSIZE);
      ghost var n, grown := |blocks|, blocks + [Blk(ExtendBytes(extendsize / WSIZE, WSIZE), false)];
      assert extendsize / WSIZE * WSIZE == extendsize;
      bp := ExtendHeap(extendsize / WSIZE);
      if bp == 0 {
        return 0;
      }
      CoalescedBlock(grown, n);
      assert Coalesced(grown, n)[..MergeLo(grown, n)] == grown[..MergeLo(grown, n)];
      PlaceFit(bp, asize, MergeLo(grown, n));
    }

    /** mm_free's two PUTs on the live block i, which becomes a free block
        on no list. */
    method Release(ptr: nat, ghost i: nat)
      requires Valid() && i < |blocks| && ptr == Payload(WSIZE, blocks, i) && blocks[i].alloc
      modifies this, arena
      ensures Partial({ptr}) && arena.brk == old(arena.brk) && free == old(free)
      ensures blocks == Freed(old(blocks), i)
      ensures Payload(WSIZE, blocks, i) == ptr && Allocated() == old(Allocated()) - {ptr}
    {
      ghost var bs, m, heads, fr := blocks, arena.mem, lists[..], free;
      PlaceAddrs(arena.mem, WSIZE, arena.brk, bs, i);
      var size := GetSize(Word(arena.mem, Hdrp(WSIZE, ptr)), DSIZE);
      Retag(ptr, size, false, bs, i);
      VacantAt(WSIZE, bs, i);
      SpanStep(bs, i, i);
      assert Vacant(WSIZE, bs).Keys - Span(bs, i, i + 1) == Vacant(WSIZE, bs).Keys;
      assert bs[i..i + 1] == [bs[i]];
      SumOne(bs[i]);
      MergedHeap(variant, m, arena.mem, arena.brk, heads, bs, fr, i, i + 1, false);
      blocks := bs[..i] + [Blk(size, false)] + bs[i + 1..];
    }

    /** mm_free(ptr): nothing for NULL; otherwise PUT the block's tags back
        as free and coalesce it, which lists the merged block at the head
        of its class's list. */
    method MmFree(ptr: nat)
      requires Valid() && (ptr == 0 || ptr in Allocated())
      modifies this, arena, lists
      ensures Valid() && arena.brk == old(arena.brk)
      ensures ptr == 0 ==> blocks == old(blocks) && free == old(free)
      ensures Allocated() == old(Allocated()) - {ptr}
      ensures ptr != 0 ==>
                blocks == FreedBlocks(old(blocks), ptr) && free == FreedLists(variant, old(blocks), old(free), ptr)
    {
      if ptr == 0 {
        forall p | p in Allocated() ensures p > 0 {
          AllocInRange(WSIZE, 3 * WSIZE, blocks, p);
        }
        return;
      }
      ghost var i := LiveIndex(WSIZE, blocks, ptr);
      Release(ptr, i);
      var _ := Coalesce(ptr, i);
    }

    /** The PUTs of mm_realloc's in-place case: PACK(total, 1) at HDRP(ptr)
        and then at FTRP(ptr), which now lies at the end of the next block. */
    method AbsorbWrites(ptr: nat, total: nat, ghost bs: seq<Blk>, ghost i: nat)
      requires Shaped(arena.mem, WSIZE, arena.brk, bs) && i + 1 < |bs| && ptr == Payload(WSIZE, bs, i)
      requires total == bs[i].size + bs[i + 1].size
      modifies arena
      ensures arena.brk == old(arena.brk)
      ensures Shaped(arena.mem, WSIZE, arena.brk, Absorbed(bs, i))
      ensures SameOutside(old(arena.mem), arena.mem, Hdr(WSIZE, bs, i), Hdr(WSIZE, bs, i + 2))
    {
      ghost var m0 := arena.mem;
      GrowAddrs(m0, WSIZE, arena.brk, bs, i);
      ghost var a := Hdrp(WSIZE, ptr);
      arena.Put(Hdrp(WSIZE, ptr), Pack(total, true));
      FtrpAfterHeader(m0, WSIZE, ptr, total, true);
      ghost var b := Ftrp(arena.mem, WSIZE, ptr);
      arena.Put(Ftrp(arena.mem, WSIZE, ptr), Pack(total, true));
      TwoWrites(m0, a, b, Pack(total, true), Hdr(WSIZE, bs, i), Hdr(WSIZE, bs, i + 2));
      MergedShape(m0, WSIZE, arena.brk, bs, i, i + 2, true, a, b, Pack(total, true), arena.mem,
                  bs[..i] + [Blk(total, true)] + bs[i + 2..]);
    }

    /** mm_realloc's in-place case: remove_node(next), then the live block
        i takes in the free block after it, whole and without a split. */
    method Absorb(ptr: nat, next: nat, ghost i: nat)
      requires Valid() && i + 1 < |blocks| && ptr == Payload(WSIZE, blocks, i) && blocks[i].alloc
      requires !blocks[i + 1].alloc && next == Payload(WSIZE, blocks, i + 1)
      modifies this, arena, lists
      ensures Valid() && arena.brk == old(arena.brk)
      ensures blocks == Absorbed(old(blocks), i) && free == Sift(old(free), {next})
      ensures Allocated() == old(Allocated())[ptr := blocks[i].size]
    {
      VacantAt(WSIZE, blocks, i + 1);
      ghost var k := RemoveNode(next, {});
      AbsorbRest(ptr, next, i);
    }

    /** The rest of mm_realloc's in-place case once the next block is off
        its list: newsize is read from the two headers and PUT as block
        i's tags. */
    method AbsorbRest(ptr: nat, next: nat, ghost i: nat)
      requires Partial({} + {next}) && i + 1 < |blocks| && blocks[i].alloc && !blocks[i + 1].alloc
      requires ptr == Payload(WSIZE, blocks, i) && next == Payload(WSIZE, blocks, i + 1)
      modifies this, arena
      ensures Valid() && arena.brk == old(arena.brk) && free == old(free)
      ensures blocks == Absorbed(old(blocks), i) && blocks[i].size == old(blocks)[i].size + old(blocks)[i + 1].size
      ensures Live(WSIZE, blocks) == Live(WSIZE, old(blocks))[ptr := blocks[i].size]
    {
      ghost var bs, m, heads, fr := blocks, arena.mem, lists[..], free;
      PlaceAddrs(arena.mem, WSIZE, arena.brk, bs, i);
      PlaceAddrs(arena.mem, WSIZE, arena.brk, bs, i + 1);
      var oldsize := GetSize(Word(arena.mem, Hdrp(WSIZE, ptr)), DSIZE);
      var newsize := oldsize + GetSize(Word(arena.mem, Hdrp(WSIZE, next)), DSIZE);
      AbsorbWrites(ptr, newsize, bs, i);
      AbsorbHeap(variant, m, arena.mem, arena.brk, heads, bs, fr, i);
      blocks := Absorbed(bs, i);
      assert blocks[i].size == newsize;
    }

    /** mm_realloc's last case: mm_malloc a new block, copy the smaller of
        the old payload and size bytes into it, and free the old block;
        when mm_malloc fails, keep the old block and return NULL. copy is
        the number of bytes memcpy copies. */
    method ReallocMove(ptr: nat, size: nat, oldPayload: nat) returns (r: nat, copy: nat)
      requires Valid() && ptr in Allocated() && size > 0 && oldPayload + DSIZE == Allocated()[ptr]
      modifies this, arena, lists
      ensures Valid()
      ensures r == 0 ==> copy == 0 && Allocated() == old(Allocated())
      ensures r != 0 ==> r != ptr && Moves(old(Allocated()), Allocated(), ptr, r, AdjustSize(size, DSIZE)) &&
                         copy == (if oldPayload < size then oldPayload else size) &&
                         copy + DSIZE <= Allocated()[r]
      ensures AllKnown(old(free), old(Vacant(WSIZE, blocks)))
      ensures var asize, fm := AdjustSize(size, DSIZE), old(Vacant(WSIZE, blocks));
              r == 0 <==> (forall q | q in fm :: fm[q] < asize) &&
                          old(arena.brk) + ExtendBytes(Max(asize, CHUNKSIZE) / WSIZE, WSIZE) > arena.maxHeap
      ensures r == 0 ==> blocks == old(blocks) && free == old(free)
      ensures var asize, fm := AdjustSize(size, DSIZE), old(Vacant(WSIZE, blocks));
              Fit.FindFit(variant, old(free), fm, asize) != 0 ==> r == Fit.FindFit(variant, old(free), fm, asize)
      ensures r != 0 ==>
                var asize := AdjustSize(size, DSIZE);
                var g := Malloced(variant, old(blocks), old(free), asize);
                ptr in Live(WSIZE, g) && blocks == FreedBlocks(g, ptr) &&
                free == FreedLists(variant, g, MallocLists(variant, old(blocks), old(free), asize), ptr)
    {
      var newPtr := MmMalloc(size);
      if newPtr == 0 {
        return 0, 0;
      }
      copy := if oldPayload < size then oldPayload else size;
      ghost var grown := Allocated();
      MmFree(ptr);
      GrantThenRelease(old(Allocated()), grown, Allocated(), ptr, newPtr, AdjustSize(size, DSIZE));
      return newPtr, copy;
    }

    /** mm_realloc on a live block and a positive size: keep the block when
        the adjusted size fits it, take in a free next block when the two
        together suffice, and otherwise move. */
    method ReallocBlock(ptr: nat, size: nat) returns (r: nat, copy: nat)
      requires Valid() && ptr in Allocated() && size > 0
      modifies this, arena, lists
      ensures Valid()
      ensures AdjustSize(size, DSIZE) <= old(Allocated())[ptr] ==>
                r == ptr && blocks == old(blocks) && free == old(free)
      ensures r == 0 ==> copy == 0 && Allocated() == old(Allocated())
      ensures r == ptr ==> copy == 0 && Resizes(old(Allocated()), Allocated(), ptr, AdjustSize(size, DSIZE))
      ensures r != 0 && r != ptr ==>
                Moves(old(Allocated()), Allocated(), ptr, r, AdjustSize(size, DSIZE)) &&
                copy == (if old(Allocated())[ptr] - DSIZE < size then old(Allocated())[ptr] - DSIZE else size) &&
                copy + DSIZE <= Allocated()[r]
      ensures AllKnown(old(free), old(Vacant(WSIZE, blocks)))
      ensures var bs, i, asize := old(blocks), LiveIndex(WSIZE, old(blocks), ptr), AdjustSize(size, DSIZE);
              GrowsInPlace(bs, i, asize) ==>
                r == ptr && blocks == Absorbed(bs, i) && free == Sift(old(free), {Payload(WSIZE, bs, i + 1)})
      ensures var bs, i, asize := old(blocks), LiveIndex(WSIZE, old(blocks), ptr), AdjustSize(size, DSIZE);
              var fm := old(Vacant(WSIZE, blocks));
              r == 0 <==> asize > bs[i].size && !GrowsInPlace(bs, i, asize) &&
                          (forall q | q in fm :: fm[q] < asize) &&
                          old(arena.brk) + ExtendBytes(Max(asize, CHUNKSIZE) / WSIZE, WSIZE) > arena.maxHeap
      ensures r == 0 ==> blocks == old(blocks) && free == old(free)
      ensures var bs, i, asize := old(blocks), LiveIndex(WSIZE, old(blocks), ptr), AdjustSize(size, DSIZE);
              var f := Fit.FindFit(variant, old(free), old(Vacant(WSIZE, blocks)), asize);
              asize > bs[i].size && !GrowsInPlace(bs, i, asize) && f != 0 ==> r == f
      ensures var bs, i, asize := old(blocks), LiveIndex(WSIZE, old(blocks), ptr), AdjustSize(size, DSIZE);
              asize > bs[i].size && !GrowsInPlace(bs, i, asize) && r != 0 ==>
                var g := Malloced(variant, bs, old(free), asize);
                ptr in Live(WSIZE, g) && blocks == FreedBlocks(g, ptr) &&
                free == FreedLists(variant, g, MallocLists(variant, bs, old(free), asize), ptr)
    {
      ghost var bs := blocks;
      ghost var i := LiveIndex(WSIZE, bs, ptr);
      PlaceAddrs(arena.mem, WSIZE, arena.brk, bs, i);
      var oldsize := GetSize(Word(arena.mem, Hdrp(WSIZE, ptr)), DSIZE);
      var asize: nat;
      if size <= DSIZE {
        asize := 2 * DSIZE;
      } else {
        asize := DSIZE * ((size + DSIZE + (DSIZE - 1)) / DSIZE);
      }
      assert asize == AdjustSize(size, DSIZE);
      if asize <= oldsize {
        return ptr, 0;
      }
      var next := NextBlkp(arena.mem, WSIZE, ptr);
      NeighbourFlags(arena.mem, WSIZE, arena.brk, bs, i);
      CoalesceSizes(arena.mem, WSIZE, arena.brk, bs, i);
      if !GetAlloc(Word(arena.mem, Hdrp(WSIZE, next))) &&
         oldsize + GetSize(Word(arena.mem, Hdrp(WSIZE, next)), DSIZE) >= asize {
        NextBlkpAt(arena.mem, WSIZE, arena.brk, bs, i);
        Absorb(ptr, next, i);
        return ptr, 0;
      }
      r, copy := ReallocMove(ptr, size, oldsize - DSIZE);
    }

    /** mm_realloc(ptr, size): mm_malloc for a NULL ptr, mm_free and NULL
        for size 0, and otherwise ReallocBlock. */
    method MmRealloc(ptr: nat, size: nat) returns (r: nat, copy: nat)
      requires Valid() && (ptr == 0 || ptr in Allocated())
      modifies this, arena, lists
      ensures Valid()
      ensures r == 0 && (ptr == 0 || size > 0) ==> Allocated() == old(Allocated())
      ensures ptr == 0 && r != 0 ==> Grants(old(Allocated()), Allocated(), r, AdjustSize(size, DSIZE))
      ensures ptr != 0 && size == 0 ==> r == 0 && Allocated() == old(Allocated()) - {ptr}
      ensures ptr != 0 && size > 0 && AdjustSize(size, DSIZE) <= old(Allocated())[ptr] ==>
                r == ptr && blocks == old(blocks) && free == old(free)
      ensures ptr != 0 && r == ptr ==> Resizes(old(Allocated()), Allocated(), ptr, AdjustSize(size, DSIZE))
      ensures ptr != 0 && r != 0 && r != ptr ==>
                Moves(old(Allocated()), Allocated(), ptr, r, AdjustSize(size, DSIZE)) &&
                copy == (if old(Allocated())[ptr] - DSIZE < size then old(Allocated())[ptr] - DSIZE else size) &&
                copy + DSIZE <= Allocated()[r]
      ensures r == 0 || r == ptr ==> copy == 0
      ensures AllKnown(old(free), old(Vacant(WSIZE, blocks)))
      ensures var asize, fm := AdjustSize(size, DSIZE), old(Vacant(WSIZE, blocks));
              ptr == 0 ==> (r == 0 <==> size == 0 ||
                                         ((forall q | q in fm :: fm[q] < asize) &&
                                          old(arena.brk) + ExtendBytes(Max(asize, CHUNKSIZE) / WSIZE, WSIZE) > arena.maxHeap))
      ensures var asize, fm := AdjustSize(size, DSIZE), old(Vacant(WSIZE, blocks));
              var f := Fit.FindFit(variant, old(free), fm, asize);
              ptr == 0 && size > 0 && f != 0 ==> r == f
      ensures ptr == 0 && r != 0 ==>
                blocks == Malloced(variant, old(blocks), old(free), AdjustSize(size, DSIZE)) &&
                free == MallocLists(variant, old(blocks), old(free), AdjustSize(size, DSIZE))
      ensures ptr != 0 && size == 0 ==>
                blocks == FreedBlocks(old(blocks), ptr) && free == FreedLists(variant, old(blocks), old(free), ptr)
      ensures ptr != 0 && size > 0 ==>
                var bs, i, asize := old(blocks), LiveIndex(WSIZE, old(blocks), ptr), AdjustSize(size, DSIZE);
                var fm := old(Vacant(WSIZE, blocks));
                var f := Fit.FindFit(variant, old(free), fm, asize);
                (GrowsInPlace(bs, i, asize) ==>
                   r == ptr && blocks == Absorbed(bs, i) && free == Sift(old(free), {Payload(WSIZE, bs, i + 1)})) &&
                (r == 0 <==> asize > bs[i].size && !GrowsInPlace(bs, i, asize) &&
                             (forall q | q in fm :: fm[q] < asize) &&
                             old(arena.brk) + ExtendBytes(Max(asize, CHUNKSIZE) / WSIZE, WSIZE) > arena.maxHeap) &&
                (asize > bs[i].size && !GrowsInPlace(bs, i, asize) && f != 0 ==> r == f) &&
                (asize > bs[i].size && !GrowsInPlace(bs, i, asize) && r != 0 ==>
                   var g := Malloced(variant, bs, old(free), asize);
                   ptr in Live(WSIZE, g) && blocks == FreedBlocks(g, ptr) &&
                   free == FreedLists(variant, g, MallocLists(variant, bs, old(free), asize), ptr))
      ensures r == 0 && size > 0 ==> blocks == old(blocks) && free == old(free)
    {
      ghost var fm := Vacant(WSIZE, blocks);
      FiledKnown(variant, free, fm);
      if ptr == 0 {
        r := MmMalloc(size);
        return r, 0;
      }
      if size == 0 {
        MmFree(ptr);
        return 0, 0;
      }
      r, copy := ReallocBlock(ptr, size);
    }
  }
}
