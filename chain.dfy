/** The block layer common to the three allocators: the address macros
    HDRP, FTRP, NEXT_BLKP and PREV_BLKP over the arena's words, and the shape
    every allocator keeps its arena in:

      address 0        padding word (0)
      address w        prologue header PACK(DSIZE, 1)
      address 2w       prologue footer PACK(DSIZE, 1); heap_listp points here
      address 3w       header of the first regular block
      ...              the regular blocks, back to back
      address brk - w  epilogue header PACK(0, 1)

    with DSIZE = 2w: w = 4 in sdfs.c (8-byte alignment) and w = 8 in mm.c and
    mm_seg.c (16-byte alignment). Each lemma below says what one macro or one
    group of PUTs does to that shape. */
module Chain {
  import opened Block
  import opened Layout

  predicate WordSize(w: nat) {
    w == 4 || w == 8
  }

  /** HDRP(bp): the header is the word before the payload. */
  function Hdrp(w: nat, bp: int): int {
    bp - w
  }

  /** FTRP(bp) = bp + GET_SIZE(HDRP(bp)) - DSIZE. */
  function Ftrp(m: map<int, nat>, w: nat, bp: int): int
    requires WordSize(w)
  {
    bp + GetSize(Word(m, Hdrp(w, bp)), 2 * w) - 2 * w
  }

  /** NEXT_BLKP(bp) = bp + GET_SIZE(HDRP(bp)). */
  function NextBlkp(m: map<int, nat>, w: nat, bp: int): int
    requires WordSize(w)
  {
    bp + GetSize(Word(m, Hdrp(w, bp)), 2 * w)
  }

  /** PREV_BLKP(bp) = bp - GET_SIZE(bp - DSIZE): reads the previous block's
      footer. */
  function PrevBlkp(m: map<int, nat>, w: nat, bp: int): int
    requires WordSize(w)
  {
    bp - GetSize(Word(m, bp - 2 * w), 2 * w)
  }

  /** Every regular block size is a multiple of DSIZE. */
  ghost predicate Aligned(w: nat, bs: seq<Blk>) {
    WordSize(w) && forall i :: 0 <= i < |bs| ==> bs[i].size % (2 * w) == 0
  }

  /** Header address of regular block i; i == |bs| gives the epilogue. */
  ghost function Hdr(w: nat, bs: seq<Blk>, i: nat): int
    requires i <= |bs|
  {
    3 * w + Sum(bs[..i])
  }

  /** Payload address (the block pointer bp) of regular block i. */
  ghost function Payload(w: nat, bs: seq<Blk>, i: nat): int
    requires i <= |bs|
  {
    Hdr(w, bs, i) + w
  }

  /** The arena [0, brk) is the padding word, the prologue, the regular
      blocks bs tiled back to back with matching header and footer, and the
      epilogue header. */
  ghost predicate Shaped(m: map<int, nat>, w: nat, brk: int, bs: seq<Blk>) {
    WordSize(w) && Sized(w, bs) && Aligned(w, bs) &&
    brk == 4 * w + Sum(bs) &&
    Word(m, 0) == 0 &&
    Word(m, w) == Pack(2 * w, true) && Word(m, 2 * w) == Pack(2 * w, true) &&
    Tiled(m, w, 3 * w, bs) &&
    Word(m, 3 * w + Sum(bs)) == Pack(0, true)
  }

  /** The live allocations: payload address to block size. */
  ghost function Live(w: nat, bs: seq<Blk>): map<int, nat> {
    AllocIn(w, 3 * w, bs)
  }

  lemma AlignedPack(w: nat, size: nat, alloc: bool)
    requires WordSize(w) && size % (2 * w) == 0
    ensures GetSize(Pack(size, alloc), 2 * w) == size
    ensures GetAlloc(Pack(size, alloc)) == alloc
  {
    PackRoundTrip(size, alloc, 2 * w);
  }

  /** The tags of regular block i and where it ends. */
  lemma BlockAt(m: map<int, nat>, w: nat, brk: int, bs: seq<Blk>, i: nat)
    requires Shaped(m, w, brk, bs) && i < |bs|
    ensures Word(m, Hdr(w, bs, i)) == Tag(bs[i])
    ensures Word(m, Hdr(w, bs, i) + bs[i].size - w) == Tag(bs[i])
    ensures GetSize(Tag(bs[i]), 2 * w) == bs[i].size && GetAlloc(Tag(bs[i])) == bs[i].alloc
    ensures Hdr(w, bs, i + 1) == Hdr(w, bs, i) + bs[i].size
    ensures 3 * w <= Hdr(w, bs, i) && Hdr(w, bs, i + 1) <= brk - w
    ensures bs[i].size >= 4 * w
  {
    TiledAt(m, w, 3 * w, bs, i);
    AlignedPack(w, bs[i].size, bs[i].alloc);
    SumPrefixStep(bs, i);
    SumPrefixBound(bs, i + 1);
  }

  /** The epilogue header closes the chain at brk - w. */
  lemma EpilogueAt(m: map<int, nat>, w: nat, brk: int, bs: seq<Blk>)
    requires Shaped(m, w, brk, bs)
    ensures Hdr(w, bs, |bs|) == brk - w && Payload(w, bs, |bs|) == brk
    ensures Word(m, brk - w) == Pack(0, true)
    ensures GetSize(Pack(0, true), 2 * w) == 0 && GetAlloc(Pack(0, true))
  {
    assert bs[..|bs|] == bs;
    AlignedPack(w, 0, true);
  }

  /** NEXT_BLKP and FTRP of block i's payload. */
  lemma NextBlkpAt(m: map<int, nat>, w: nat, brk: int, bs: seq<Blk>, i: nat)
    requires Shaped(m, w, brk, bs) && i < |bs|
    ensures NextBlkp(m, w, Payload(w, bs, i)) == Payload(w, bs, i + 1)
    ensures Ftrp(m, w, Payload(w, bs, i)) == Hdr(w, bs, i) + bs[i].size - w
  {
    BlockAt(m, w, brk, bs, i);
  }

  /** PREV_BLKP of block i's payload: block i - 1, or the prologue (whose
      payload is heap_listp = 2w) before the first block. */
  lemma PrevBlkpAt(m: map<int, nat>, w: nat, brk: int, bs: seq<Blk>, i: nat)
    requires Shaped(m, w, brk, bs) && i < |bs|
    ensures i == 0 ==> PrevBlkp(m, w, Payload(w, bs, i)) == 2 * w
    ensures i > 0 ==> PrevBlkp(m, w, Payload(w, bs, i)) == Payload(w, bs, i - 1)
  {
    if i == 0 {
      assert bs[..0] == [];
      AlignedPack(w, 2 * w, true);
    } else {
      BlockAt(m, w, brk, bs, i - 1);
    }
  }

  /** The allocated bits coalesce reads for block i's neighbours: through
      the previous block's footer (sdfs.c, mm.c) or header (mm_seg.c), and
      the next block's header. The sentinels read as allocated. */
  lemma NeighbourFlags(m: map<int, nat>, w: nat, brk: int, bs: seq<Blk>, i: nat)
    requires Shaped(m, w, brk, bs) && i < |bs|
    ensures var p := Payload(w, bs, i);
      GetAlloc(Word(m, Ftrp(m, w, PrevBlkp(m, w, p)))) == !PrevFree(bs, i) &&
      GetAlloc(Word(m, Hdrp(w, PrevBlkp(m, w, p)))) == !PrevFree(bs, i) &&
      GetAlloc(Word(m, Hdrp(w, NextBlkp(m, w, p)))) == !NextFree(bs, i)
  {
    PrevFlag(m, w, brk, bs, i);
    NextFlag(m, w, brk, bs, i);
  }

  lemma PrevFlag(m: map<int, nat>, w: nat, brk: int, bs: seq<Blk>, i: nat)
    requires Shaped(m, w, brk, bs) && i < |bs|
    ensures var q := PrevBlkp(m, w, Payload(w, bs, i));
      GetAlloc(Word(m, Ftrp(m, w, q))) == !PrevFree(bs, i) &&
      GetAlloc(Word(m, Hdrp(w, q))) == !PrevFree(bs, i)
  {
    PrevBlkpAt(m, w, brk, bs, i);
    if i == 0 {
      AlignedPack(w, 2 * w, true);
    } else {
      NextBlkpAt(m, w, brk, bs, i - 1);
      BlockAt(m, w, brk, bs, i - 1);
    }
  }

  lemma NextFlag(m: map<int, nat>, w: nat, brk: int, bs: seq<Blk>, i: nat)
    requires Shaped(m, w, brk, bs) && i < |bs|
    ensures GetAlloc(Word(m, Hdrp(w, NextBlkp(m, w, Payload(w, bs, i))))) == !NextFree(bs, i)
  {
    NextBlkpAt(m, w, brk, bs, i);
    if i + 1 < |bs| {
      BlockAt(m, w, brk, bs, i + 1);
    } else {
      EpilogueAt(m, w, brk, bs);
    }
  }

  lemma {:induction false} AlignedSum(w: nat, bs: seq<Blk>)
    requires Aligned(w, bs)
    ensures Sum(bs) % (2 * w) == 0
    decreases |bs|
  {
    if bs != [] {
      assert Aligned(w, bs[1..]) by {
        forall k | 0 <= k < |bs[1..]| ensures bs[1..][k].size % (2 * w) == 0 {
          assert bs[1..][k] == bs[k + 1];
        }
      }
      AlignedSum(w, bs[1..]);
      AlignedAdd(w, bs[0].size, Sum(bs[1..]));
    }
  }

  lemma AlignedAdd(w: nat, x: nat, y: nat)
    requires WordSize(w) && x % (2 * w) == 0 && y % (2 * w) == 0
    ensures (x + y) % (2 * w) == 0
  {
    var d := 2 * w;
    assert x == d * (x / d) && y == d * (y / d);
    assert x + y == d * (x / d + y / d);
  }

  lemma AlignedDiff(w: nat, x: nat, y: nat)
    requires WordSize(w) && x % (2 * w) == 0 && y % (2 * w) == 0 && y <= x
    ensures (x - y) % (2 * w) == 0
  {
    var d := 2 * w;
    assert x == d * (x / d) && y == d * (y / d);
    assert x - y == d * (x / d - y / d);
  }

  lemma SumAtLeastFirst(bs: seq<Blk>)
    requires bs != []
    ensures Sum(bs) >= bs[0].size
  {
  }

  /** The header of block lo and of the block after a run both follow from
      the prefix sums. */
  lemma HdrOfRun(w: nat, bs: seq<Blk>, lo: nat, hi: nat)
    requires lo <= hi <= |bs|
    ensures Hdr(w, bs, hi) == Hdr(w, bs, lo) + Sum(bs[lo..hi])
  {
    assert bs[..hi] == bs[..lo] + bs[lo..hi];
    SumConcat(bs[..lo], bs[lo..hi]);
  }

  /** Both block-size rules hold of a chain put together from three runs
      that each keep them. */
  lemma RulesConcat(w: nat, xs: seq<Blk>, r: seq<Blk>, ys: seq<Blk>)
    requires Sized(w, xs) && Sized(w, r) && Sized(w, ys)
    requires Aligned(w, xs) && Aligned(w, r) && Aligned(w, ys)
    ensures Sized(w, xs + r + ys) && Aligned(w, xs + r + ys)
  {
    var bs := xs + r + ys;
    forall k | 0 <= k < |bs| ensures bs[k].size >= 4 * w && bs[k].size % (2 * w) == 0 {
      if k < |xs| { assert bs[k] == xs[k]; }
      else if k < |xs| + |r| { assert bs[k] == r[k - |xs|]; }
      else { assert bs[k] == ys[k - |xs| - |r|]; }
    }
  }

  /** The rules hold of the parts of a chain that keeps them. */
  lemma RulesParts(w: nat, bs: seq<Blk>, lo: nat, hi: nat)
    requires Sized(w, bs) && Aligned(w, bs) && lo <= hi <= |bs|
    ensures Sized(w, bs[..lo]) && Aligned(w, bs[..lo])
    ensures Sized(w, bs[hi..]) && Aligned(w, bs[hi..])
  {
    assert forall k :: 0 <= k < lo ==> bs[..lo][k] == bs[k];
    assert forall k :: 0 <= k < |bs| - hi ==> bs[hi..][k] == bs[hi + k];
  }

  /** Replacing a run moves no header before it and ends at the same place. */
  lemma HdrReplace(w: nat, bs: seq<Blk>, lo: nat, hi: nat, r': seq<Blk>)
    requires lo <= hi <= |bs| && Sum(r') == Sum(bs[lo..hi])
    ensures forall k :: 0 <= k <= lo ==> Hdr(w, bs[..lo] + r' + bs[hi..], k) == Hdr(w, bs, k)
    ensures Hdr(w, bs[..lo] + r' + bs[hi..], lo + |r'|) == Hdr(w, bs, hi)
    ensures Sum(bs[..lo] + r' + bs[hi..]) == Sum(bs)
  {
    var xs, ys := bs[..lo], bs[hi..];
    var bs' := xs + r' + ys;
    forall k | 0 <= k <= lo ensures Hdr(w, bs', k) == Hdr(w, bs, k) {
      PrefixBefore(xs, r', r', ys, k);
      assert xs[..k] == bs[..k];
    }
    assert Sum(bs'[..lo + |r'|]) == Sum(bs[..hi]) by {
      assert bs'[..lo + |r'|] == xs + r';
      SumConcat(xs, r');
      HdrOfRun(w, bs, lo, hi);
    }
    assert Sum(bs') == Sum(bs) by {
      Cut(bs, lo, hi);
      ReplaceSum(xs, bs[lo..hi], r', ys);
    }
  }

  /** Only the tiling of a chain can change when a run is rewritten in place. */
  lemma TiledReplace(m: map<int, nat>, m': map<int, nat>, w: nat, bs: seq<Blk>,
                     lo: nat, hi: nat, r': seq<Blk>)
    requires WordSize(w) && Sized(w, bs) && lo <= hi <= |bs| && Tiled(m, w, 3 * w, bs)
    requires Sum(r') == Sum(bs[lo..hi])
    requires SameOutside(m, m', Hdr(w, bs, lo), Hdr(w, bs, hi))
    requires Tiled(m', w, Hdr(w, bs, lo), r')
    ensures Tiled(m', w, 3 * w, bs[..lo] + r' + bs[hi..])
  {
    Cut(bs, lo, hi);
    HdrOfRun(w, bs, lo, hi);
    RulesSized(w, bs, lo, hi);
    ReplaceRun(m, m', w, 3 * w, bs[..lo], bs[lo..hi], r', bs[hi..]);
  }

  /** The shape after a run [lo, hi) is replaced by the run r' of the same
      total size, provided r' is tiled in the new words, the words outside
      the run are unchanged, and r' keeps the size and alignment rules. */
  lemma ReplaceShaped(m: map<int, nat>, m': map<int, nat>, w: nat, brk: int, bs: seq<Blk>,
                      lo: nat, hi: nat, r': seq<Blk>)
    requires Shaped(m, w, brk, bs) && lo <= hi <= |bs|
    requires Sum(r') == Sum(bs[lo..hi]) && Sized(w, r') && Aligned(w, r')
    requires SameOutside(m, m', Hdr(w, bs, lo), Hdr(w, bs, hi))
    requires Tiled(m', w, Hdr(w, bs, lo), r')
    ensures Shaped(m', w, brk, bs[..lo] + r' + bs[hi..])
    ensures forall k :: 0 <= k <= lo ==> Hdr(w, bs[..lo] + r' + bs[hi..], k) == Hdr(w, bs, k)
    ensures Hdr(w, bs[..lo] + r' + bs[hi..], lo + |r'|) == Hdr(w, bs, hi)
  {
    var bs' := bs[..lo] + r' + bs[hi..];
    HdrReplace(w, bs, lo, hi, r');
    assert Tiled(m', w, 3 * w, bs') by {
      TiledReplace(m, m', w, bs, lo, hi, r');
    }
    assert Sized(w, bs') && Aligned(w, bs') by {
      RulesParts(w, bs, lo, hi);
      RulesConcat(w, bs[..lo], r', bs[hi..]);
    }
    assert Hdr(w, bs, hi) <= brk - w by {
      SumPrefixBound(bs, hi);
    }
    SentinelsKept(m, m', w, Hdr(w, bs, lo), Hdr(w, bs, hi));
    assert Word(m', brk - w) == Pack(0, true);
    EpilogueWord(m', w, bs', brk - w);
  }

  /** The epilogue header, found at the address the caller computed. */
  lemma EpilogueWord(m: map<int, nat>, w: nat, bs: seq<Blk>, e: int)
    requires e == 3 * w + Sum(bs) && Word(m, e) == Pack(0, true)
    ensures Word(m, 3 * w + Sum(bs)) == Pack(0, true)
  {
  }

  /** The run [lo, hi) spans Sum(bs[lo..hi]) bytes from block lo's header,
      at least one minimum block and a whole number of double words. */
  lemma RunFacts(m: map<int, nat>, w: nat, brk: int, bs: seq<Blk>, lo: nat, hi: nat)
    requires Shaped(m, w, brk, bs) && lo < hi <= |bs|
    ensures Hdr(w, bs, hi) == Hdr(w, bs, lo) + Sum(bs[lo..hi])
    ensures Sum(bs[lo..hi]) >= 4 * w && Sum(bs[lo..hi]) % (2 * w) == 0
  {
    var r := bs[lo..hi];
    HdrOfRun(w, bs, lo, hi);
    assert r[0] == bs[lo];
    SumAtLeastFirst(r);
    assert Aligned(w, r) by {
      forall k | 0 <= k < |r| ensures r[k].size % (2 * w) == 0 {
        assert r[k] == bs[lo + k];
      }
    }
    AlignedSum(w, r);
  }

  /** Writing one tag at the header and one at the footer end of the run
      [lo, hi), in either order, makes the run a single block: this is how
      coalesce merges, how place marks a whole block allocated, how mm_free
      marks one free, and how mm_realloc absorbs its next block. */
  lemma MergedShape(m: map<int, nat>, w: nat, brk: int, bs: seq<Blk>, lo: nat, hi: nat, alloc: bool,
                    a: int, b: int, t: nat, m': map<int, nat>, bs': seq<Blk>)
    requires Shaped(m, w, brk, bs) && lo < hi <= |bs|
    requires (a == Hdr(w, bs, lo) && b == Hdr(w, bs, hi) - w) || (a == Hdr(w, bs, hi) - w && b == Hdr(w, bs, lo))
    requires t == Pack(Sum(bs[lo..hi]), alloc)
    requires bs' == bs[..lo] + [Blk(Sum(bs[lo..hi]), alloc)] + bs[hi..]
    requires m' == m[a := t][b := t]
    ensures Shaped(m', w, brk, bs')
  {
    var blk := Blk(Sum(bs[lo..hi]), alloc);
    var h := Hdr(w, bs, lo);
    RunFacts(m, w, brk, bs, lo, hi);
    WriteSwap(m, Hdr(w, bs, hi) - w, h, t);
    assert m' == m[h := Tag(blk)][h + blk.size - w := Tag(blk)];
    TiledOne(m', w, h, blk);
    SumOne(blk);
    ReplaceShaped(m, m', w, brk, bs, lo, hi, [blk]);
  }

  lemma TiledOne(m: map<int, nat>, w: nat, h: int, b: Blk)
    requires Word(m, h) == Tag(b) && Word(m, h + b.size - w) == Tag(b)
    ensures Tiled(m, w, h, [b])
  {
    assert [b][1..] == [];
  }

  lemma TiledPair(m: map<int, nat>, w: nat, h: int, b1: Blk, b2: Blk)
    requires Word(m, h) == Tag(b1) && Word(m, h + b1.size - w) == Tag(b1)
    requires Word(m, h + b1.size) == Tag(b2) && Word(m, h + b1.size + b2.size - w) == Tag(b2)
    ensures Tiled(m, w, h, [b1, b2])
  {
    TiledOne(m, w, h + b1.size, b2);
    assert [b1, b2][1..] == [b2];
  }

  /** The words of block i of the chain lie in [Hdr(i), Hdr(i+1)). */
  lemma BlockSpan(m: map<int, nat>, w: nat, brk: int, bs: seq<Blk>, i: nat)
    requires Shaped(m, w, brk, bs) && i < |bs|
    ensures Sum(bs[i..i + 1]) == bs[i].size
    ensures Hdr(w, bs, i + 1) == Hdr(w, bs, i) + bs[i].size
  {
    HdrOfRun(w, bs, i, i + 1);
    assert bs[i..i + 1] == [bs[i]];
    SumOne(bs[i]);
  }

  /** The four PUTs of a split, in the order place issues them. */
  lemma SplitWords(m: map<int, nat>, m': map<int, nat>, w: nat, h: int, b1: Blk, b2: Blk)
    requires w > 0 && b1.size >= 4 * w && b2.size >= 4 * w
    requires m' == m[h := Tag(b1)][h + b1.size - w := Tag(b1)][h + b1.size := Tag(b2)][h + b1.size + b2.size - w := Tag(b2)]
    ensures Tiled(m', w, h, [b1, b2])
    ensures SameOutside(m, m', h, h + b1.size + b2.size)
  {
    TiledPair(m', w, h, b1, b2);
  }

  /** The run that replaces block i in a split, and the words it is
      written to, meet what ReplaceShaped asks of them. */
  lemma SplitRun(m: map<int, nat>, m': map<int, nat>, w: nat, brk: int, bs: seq<Blk>, i: nat, b1: Blk, b2: Blk)
    requires Shaped(m, w, brk, bs) && i < |bs|
    requires b1.size % (2 * w) == 0 && b1.size >= 4 * w && b2.size >= 4 * w && b1.size + b2.size == bs[i].size
    requires var h := Hdr(w, bs, i);
             m' == m[h := Tag(b1)][h + b1.size - w := Tag(b1)][h + b1.size := Tag(b2)][h + bs[i].size - w := Tag(b2)]
    ensures Sum([b1, b2]) == Sum(bs[i..i + 1]) && Sized(w, [b1, b2]) && Aligned(w, [b1, b2])
    ensures SameOutside(m, m', Hdr(w, bs, i), Hdr(w, bs, i + 1))
    ensures Tiled(m', w, Hdr(w, bs, i), [b1, b2])
    ensures Hdr(w, bs, i + 1) == Hdr(w, bs, i) + bs[i].size
  {
    BlockSpan(m, w, brk, bs, i);
    AlignedDiff(w, bs[i].size, b1.size);
    SplitWords(m, m', w, Hdr(w, bs, i), b1, b2);
    SumTwo(b1, b2);
  }

  /** Writes at or above the first block's header leave the padding word
      and the prologue as they were. */
  lemma SentinelsKept(m: map<int, nat>, m': map<int, nat>, w: nat, lo: int, hi: int)
    requires WordSize(w) && 3 * w <= lo && SameOutside(m, m', lo, hi)
    requires Word(m, 0) == 0 && Word(m, w) == Pack(2 * w, true) && Word(m, 2 * w) == Pack(2 * w, true)
    ensures Word(m', 0) == 0 && Word(m', w) == Pack(2 * w, true) && Word(m', 2 * w) == Pack(2 * w, true)
  {
    assert Word(m', 0) == Word(m, 0) && Word(m', w) == Word(m, w) && Word(m', 2 * w) == Word(m, 2 * w);
  }

  lemma ExtendTiled(m: map<int, nat>, m': map<int, nat>, w: nat, brk: int, bs: seq<Blk>, b: Blk)
    requires Shaped(m, w, brk, bs) && b.size >= 4 * w
    requires m' == m[brk - w := Tag(b)][brk + b.size - 2 * w := Tag(b)][brk + b.size - w := Pack(0, true)]
    ensures Tiled(m', w, 3 * w, bs + [b])
  {
    TiledFrame(m, m', w, 3 * w, bs);
    TiledOne(m', w, 3 * w + Sum(bs), b);
    TiledConcat(m', w, 3 * w, bs, [b]);
  }

  lemma ExtendRules(w: nat, bs: seq<Blk>, b: Blk)
    requires Sized(w, bs) && Aligned(w, bs) && b.size >= 4 * w && b.size % (2 * w) == 0
    ensures Sized(w, bs + [b]) && Aligned(w, bs + [b])
  {
    assert Sized(w, [b]) && Aligned(w, [b]);
    RulesConcat(w, bs, [b], []);
    assert bs + [b] + [] == bs + [b];
  }

  /** A new free block adds no live allocation. */
  lemma ExtendLive(w: nat, bs: seq<Blk>, b: Blk)
    requires !b.alloc
    ensures Live(w, bs + [b]) == Live(w, bs)
  {
    AllocInConcat(w, 3 * w, bs, [b]);
    AllocInFree(w, 3 * w + Sum(bs), [b]);
    assert AllocIn(w, 3 * w, bs) + map[] == AllocIn(w, 3 * w, bs);
  }

  /** Writing the first two payload words of a block (where the free-list
      links PRED and SUCC live) leaves every tag in place. */
  lemma CellWrite(m: map<int, nat>, w: nat, brk: int, bs: seq<Blk>, i: nat, x: int, v: nat)
    requires Shaped(m, w, brk, bs) && i < |bs|
    requires Payload(w, bs, i) <= x <= Payload(w, bs, i) + w
    ensures Shaped(m[x := v], w, brk, bs)
    ensures 0 <= x < brk
  {
    BlockAt(m, w, brk, bs, i);
    HdrOfRun(w, bs, i, i + 1);
    assert bs[i..i + 1] == [bs[i]];
    SumOne(bs[i]);
    var m' := m[x := v];
    assert [bs[i]][1..] == [];
    assert Tiled(m', w, Hdr(w, bs, i), [bs[i]]);
    ReplaceShaped(m, m', w, brk, bs, i, i + 1, [bs[i]]);
    assert bs[..i] + [bs[i]] + bs[i + 1..] == bs;
  }

  lemma MapSwap(ax: map<int, nat>, ar: map<int, nat>, ar': map<int, nat>, ay: map<int, nat>, h: int, e: int)
    requires forall k :: k in ax ==> k < h
    requires forall k :: k in ar ==> h <= k < e
    requires forall k :: k in ar' ==> h <= k < e
    requires forall k :: k in ay ==> e <= k
    ensures ax + ar' + ay == (ax + ar + ay) - ar.Keys + ar'
  {
    var l, r := ax + ar' + ay, (ax + ar + ay) - ar.Keys + ar';
    assert forall k :: k in l <==> k in r;
    assert forall k :: k in l ==> l[k] == r[k];
  }

  lemma AllocKeysBelow(w: nat, a: int, bs: seq<Blk>)
    requires WordSize(w) && Sized(w, bs)
    ensures forall k :: k in AllocIn(w, a, bs) ==> a + w <= k < a + Sum(bs)
  {
    forall k | k in AllocIn(w, a, bs) ensures a + w <= k < a + Sum(bs) {
      var i := AllocIndex(w, a, bs, k);
      SumPrefixMono(bs, i, |bs|);
      assert bs[..|bs|] == bs;
    }
  }

  /** The live allocations of a chain put together from three runs, the
      second starting at header address h and the third at e: those of each
      run, in disjoint address ranges. */
  lemma LiveConcat3(w: nat, xs: seq<Blk>, r: seq<Blk>, ys: seq<Blk>, h: int, e: int)
    requires WordSize(w) && Sized(w, xs) && Sized(w, r) && Sized(w, ys)
    requires h == 3 * w + Sum(xs) && e == h + Sum(r)
    ensures var ax, ar, ay := AllocIn(w, 3 * w, xs), AllocIn(w, h, r), AllocIn(w, e, ys);
            Live(w, xs + r + ys) == ax + ar + ay &&
            (forall k :: k in ax ==> k < h) &&
            (forall k :: k in ar ==> h <= k < e) &&
            (forall k :: k in ay ==> e <= k)
  {
    assert e == 3 * w + Sum(xs + r) by {
      SumConcat(xs, r);
    }
    AllocInJoin(w, 3 * w, xs + r, e, ys);
    AllocInJoin(w, 3 * w, xs, h, r);
    AllocKeysBelow(w, 3 * w, xs);
    AllocKeysBelow(w, h, r);
    AllocKeysBelow(w, e, ys);
  }

  /** The live allocations of a chain split at the run [lo, hi): those
      before it, those in it and those after it, in disjoint address ranges. */
  lemma LiveParts(w: nat, bs: seq<Blk>, lo: nat, hi: nat)
    requires WordSize(w) && Sized(w, bs) && lo <= hi <= |bs|
    ensures var h, e := Hdr(w, bs, lo), Hdr(w, bs, hi);
            var ax, ar, ay := AllocIn(w, 3 * w, bs[..lo]), AllocIn(w, h, bs[lo..hi]), AllocIn(w, e, bs[hi..]);
            Live(w, bs) == ax + ar + ay &&
            (forall k :: k in ax ==> k < h) &&
            (forall k :: k in ar ==> h <= k < e) &&
            (forall k :: k in ay ==> e <= k)
  {
    Cut(bs, lo, hi);
    HdrOfRun(w, bs, lo, hi);
    RulesSized(w, bs, lo, hi);
    LiveConcat3(w, bs[..lo], bs[lo..hi], bs[hi..], Hdr(w, bs, lo), Hdr(w, bs, hi));
  }

  lemma RulesSized(w: nat, bs: seq<Blk>, lo: nat, hi: nat)
    requires Sized(w, bs) && lo <= hi <= |bs|
    ensures Sized(w, bs[..lo]) && Sized(w, bs[lo..hi]) && Sized(w, bs[hi..])
  {
    assert forall k :: 0 <= k < hi - lo ==> bs[lo..hi][k] == bs[lo + k];
    assert forall k :: 0 <= k < |bs| - hi ==> bs[hi..][k] == bs[hi + k];
  }

  /** The live allocations after the run [lo, hi) is replaced by r': those
      of the rest of the chain stay, those of the run give way to those of
      r'. Any live payload inside the run is one of the run's own. */
  lemma LiveReplace(w: nat, bs: seq<Blk>, lo: nat, hi: nat, r': seq<Blk>)
    requires WordSize(w) && Sized(w, bs) && Sized(w, r') && lo <= hi <= |bs|
    requires Sum(r') == Sum(bs[lo..hi])
    ensures Live(w, bs[..lo] + r' + bs[hi..]) ==
            (Live(w, bs) - AllocIn(w, Hdr(w, bs, lo), bs[lo..hi]).Keys) + AllocIn(w, Hdr(w, bs, lo), r')
    ensures forall k :: k in Live(w, bs) && Hdr(w, bs, lo) <= k < Hdr(w, bs, hi) ==>
                        k in AllocIn(w, Hdr(w, bs, lo), bs[lo..hi])
  {
    var xs, r, ys := bs[..lo], bs[lo..hi], bs[hi..];
    var h, e := Hdr(w, bs, lo), Hdr(w, bs, hi);
    HdrOfRun(w, bs, lo, hi);
    RulesSized(w, bs, lo, hi);
    LiveParts(w, bs, lo, hi);
    LiveConcat3(w, xs, r', ys, h, e);
    MapSwap(AllocIn(w, 3 * w, xs), AllocIn(w, h, r), AllocIn(w, h, r'), AllocIn(w, e, ys), h, e);
  }

  lemma AllocInOne(w: nat, h: int, b: Blk)
    ensures AllocIn(w, h, [b]) == if b.alloc then map[h + w := b.size] else map[]
  {
    assert [b][1..] == [];
  }

  lemma AllocInTwo(w: nat, h: int, b1: Blk, b2: Blk)
    requires !b2.alloc
    ensures AllocIn(w, h, [b1, b2]) == AllocIn(w, h, [b1])
  {
    assert [b1, b2][1..] == [b2];
    AllocInOne(w, h + b1.size, b2);
    assert [b1][1..] == [];
  }

  /** Rewriting block i's tags with the flag alloc allocates its payload
      (mm_malloc's whole-block place) or frees it (mm_free). */
  lemma LiveOne(w: nat, bs: seq<Blk>, i: nat, alloc: bool)
    requires WordSize(w) && Sized(w, bs) && i < |bs|
    ensures var bs' := bs[..i] + [Blk(bs[i].size, alloc)] + bs[i + 1..];
            Live(w, bs') == if alloc then Live(w, bs)[Payload(w, bs, i) := bs[i].size]
                            else Live(w, bs) - {Payload(w, bs, i)}
  {
    var b := Blk(bs[i].size, alloc);
    var h, l, p := Hdr(w, bs, i), Live(w, bs), Payload(w, bs, i);
    var ar := AllocIn(w, h, bs[i..i + 1]);
    assert bs[i..i + 1] == [bs[i]];
    SumOne(bs[i]);
    SumOne(b);
    LiveReplace(w, bs, i, i + 1, [b]);
    HdrOfRun(w, bs, i, i + 1);
    AllocInOne(w, h, bs[i]);
    AllocInOne(w, h, b);
    if alloc {
      MapPut(l, ar, p, bs[i].size);
    } else {
      MapDrop(l, ar, p);
    }
  }

  lemma MapDrop(l: map<int, nat>, ar: map<int, nat>, p: int)
    requires ar.Keys <= {p} && (p in l ==> p in ar)
    ensures (l - ar.Keys) + map[] == l - {p}
  {
    var x, y := (l - ar.Keys) + map[], l - {p};
    assert forall k :: k in x <==> k in y;
  }

  /** place's split: the payload of block i now holds an allocation of the
      first asize bytes, and the rest is a free block. */
  lemma LiveSplit(w: nat, bs: seq<Blk>, i: nat, asize: nat)
    requires WordSize(w) && Sized(w, bs) && i < |bs|
    requires asize >= 4 * w && bs[i].size >= asize + 4 * w
    ensures var bs' := bs[..i] + [Blk(asize, true), Blk(bs[i].size - asize, false)] + bs[i + 1..];
            Live(w, bs') == Live(w, bs)[Payload(w, bs, i) := asize]
  {
    var b1, b2 := Blk(asize, true), Blk(bs[i].size - asize, false);
    assert bs[i..i + 1] == [bs[i]];
    SumOne(bs[i]);
    SumTwo(b1, b2);
    LiveReplace(w, bs, i, i + 1, [b1, b2]);
    AllocInOne(w, Hdr(w, bs, i), bs[i]);
    AllocInTwo(w, Hdr(w, bs, i), b1, b2);
    AllocInOne(w, Hdr(w, bs, i), b1);
    MapPut(Live(w, bs), AllocIn(w, Hdr(w, bs, i), bs[i..i + 1]), Payload(w, bs, i), asize);
  }

  lemma MapPut(l: map<int, nat>, ar: map<int, nat>, p: int, v: nat)
    requires ar.Keys <= {p}
    ensures (l - ar.Keys) + map[p := v] == l[p := v]
  {
    var x, y := (l - ar.Keys) + map[p := v], l[p := v];
    assert forall k :: k in x <==> k in y;
    assert forall k :: k in x ==> x[k] == y[k];
  }

  /** mm_realloc growing in place: the allocated block i absorbs the free
      block after it, and the allocation at its payload grows to the sum. */
  lemma LiveAbsorb(w: nat, bs: seq<Blk>, i: nat)
    requires WordSize(w) && Sized(w, bs) && i + 1 < |bs| && !bs[i + 1].alloc
    ensures var b := Blk(bs[i].size + bs[i + 1].size, true);
            Live(w, bs[..i] + [b] + bs[i + 2..]) == Live(w, bs)[Payload(w, bs, i) := b.size]
  {
    var b := Blk(bs[i].size + bs[i + 1].size, true);
    var h := Hdr(w, bs, i);
    var ar := AllocIn(w, h, bs[i..i + 2]);
    assert ar.Keys <= {h + w} by {
      assert bs[i..i + 2] == [bs[i], bs[i + 1]];
      AllocInTwo(w, h, bs[i], bs[i + 1]);
      AllocInOne(w, h, bs[i]);
    }
    assert Sum([b]) == Sum(bs[i..i + 2]) by {
      assert bs[i..i + 2] == [bs[i], bs[i + 1]];
      SumTwo(bs[i], bs[i + 1]);
      SumOne(b);
    }
    LiveReplace(w, bs, i, i + 2, [b]);
    AllocInOne(w, h, b);
    MapPut(Live(w, bs), ar, h + w, b.size);
  }


  /** Coalescing a free block with no free neighbour changes nothing. */
  lemma CoalesceNone(bs: seq<Blk>, i: nat)
    requires i < |bs| && !bs[i].alloc && !PrevFree(bs, i) && !NextFree(bs, i)
    ensures Coalesced(bs, i) == bs
  {
    assert bs[i..i + 1] == [bs[i]];
    SumOne(bs[i]);
    assert bs == bs[..i] + [bs[i]] + bs[i + 1..];
  }

  /** The sizes coalesce adds up are those of the blocks it merges: block
      i's own through HDRP(bp), the previous block's through
      HDRP(PREV_BLKP(bp)), and the next block's through HDRP(NEXT_BLKP(bp))
      (case 2) or through FTRP(NEXT_BLKP(bp)) (case 4). */
  lemma CoalesceSizes(m: map<int, nat>, w: nat, brk: int, bs: seq<Blk>, i: nat)
    requires Shaped(m, w, brk, bs) && i < |bs|
    ensures var bp := Payload(w, bs, i);
            GetSize(Word(m, Hdrp(w, bp)), 2 * w) == bs[i].size &&
            (i > 0 ==> GetSize(Word(m, Hdrp(w, PrevBlkp(m, w, bp))), 2 * w) == bs[i - 1].size) &&
            (i + 1 < |bs| ==> GetSize(Word(m, Hdrp(w, NextBlkp(m, w, bp))), 2 * w) == bs[i + 1].size &&
                              GetSize(Word(m, Ftrp(m, w, NextBlkp(m, w, bp))), 2 * w) == bs[i + 1].size)
  {
    BlockAt(m, w, brk, bs, i);
    PrevBlkpAt(m, w, brk, bs, i);
    NextBlkpAt(m, w, brk, bs, i);
    if i > 0 {
      BlockAt(m, w, brk, bs, i - 1);
    }
    if i + 1 < |bs| {
      BlockAt(m, w, brk, bs, i + 1);
      NextBlkpAt(m, w, brk, bs, i + 1);
    }
  }

  /** The headers and footers of the run [lo, hi) that coalesce merges, with
      the merged size, and where the run lies in the arena. */
  lemma RunBounds(m: map<int, nat>, w: nat, brk: int, bs: seq<Blk>, i: nat)
    requires Shaped(m, w, brk, bs) && i < |bs|
    ensures var lo, hi := MergeLo(bs, i), MergeHi(bs, i);
            Sum(bs[lo..hi]) == bs[i].size + (if PrevFree(bs, i) then bs[i - 1].size else 0)
                               + (if NextFree(bs, i) then bs[i + 1].size else 0) &&
            Hdr(w, bs, hi) == Hdr(w, bs, lo) + Sum(bs[lo..hi]) &&
            Sum(bs[lo..hi]) % (2 * w) == 0 &&
            3 * w <= Hdr(w, bs, lo) && Hdr(w, bs, hi) <= brk - w &&
            Hdr(w, bs, i + 1) == Hdr(w, bs, i) + bs[i].size &&
            (i > 0 ==> Hdr(w, bs, i) == Hdr(w, bs, i - 1) + bs[i - 1].size && bs[i - 1].size >= 4 * w) &&
            bs[i].size >= 4 * w
  {
    var lo, hi := MergeLo(bs, i), MergeHi(bs, i);
    MergedSize(bs, i);
    RunFacts(m, w, brk, bs, lo, hi);
    HdrBounds(m, w, brk, bs, lo);
    HdrBounds(m, w, brk, bs, hi);
    BlockAt(m, w, brk, bs, i);
    if i > 0 {
      BlockAt(m, w, brk, bs, i - 1);
    }
  }

  /** coalesce case 3 writes FTRP(bp) first: the previous block's footer,
      which PREV_BLKP(bp) reads, is untouched by it, and so is it by the
      header write that follows. */
  lemma CoalescePrevPuts(m: map<int, nat>, w: nat, brk: int, bs: seq<Blk>, i: nat, t: nat)
    requires Shaped(m, w, brk, bs) && 0 < i < |bs|
    ensures var bp := Payload(w, bs, i);
            var m1 := m[Ftrp(m, w, bp) := t];
            Ftrp(m, w, bp) == Hdr(w, bs, i + 1) - w &&
            PrevBlkp(m1, w, bp) == Payload(w, bs, i - 1) &&
            PrevBlkp(m1[Hdrp(w, PrevBlkp(m1, w, bp)) := t], w, bp) == Payload(w, bs, i - 1)
  {
    var bp := Payload(w, bs, i);
    NextBlkpAt(m, w, brk, bs, i);
    PrevBlkpAt(m, w, brk, bs, i);
    BlockAt(m, w, brk, bs, i);
    BlockAt(m, w, brk, bs, i - 1);
    PrevBlkpFrame(m, w, bp, Ftrp(m, w, bp), t);
    PrevBlkpFrame(m[Ftrp(m, w, bp) := t], w, bp, Hdr(w, bs, i - 1), t);
  }

  /** coalesce case 4 writes the previous block's header first: FTRP of
      NEXT_BLKP(bp) still reads the next block's header and lands on the
      last word of the run, and PREV_BLKP(bp) still reads the previous
      block's footer after both writes. */
  lemma CoalesceBothPuts(m: map<int, nat>, w: nat, brk: int, bs: seq<Blk>, i: nat, t: nat)
    requires Shaped(m, w, brk, bs) && 0 < i && i + 1 < |bs|
    ensures var bp := Payload(w, bs, i);
            var m1 := m[Hdrp(w, PrevBlkp(m, w, bp)) := t];
            var m2 := m1[Ftrp(m1, w, NextBlkp(m1, w, bp)) := t];
            Hdrp(w, PrevBlkp(m, w, bp)) == Hdr(w, bs, i - 1) &&
            Ftrp(m1, w, NextBlkp(m1, w, bp)) == Hdr(w, bs, i + 2) - w &&
            PrevBlkp(m2, w, bp) == Payload(w, bs, i - 1)
  {
    var bp := Payload(w, bs, i);
    var next := Payload(w, bs, i + 1);
    PrevBlkpAt(m, w, brk, bs, i);
    NextBlkpAt(m, w, brk, bs, i);
    NextBlkpAt(m, w, brk, bs, i + 1);
    BlockAt(m, w, brk, bs, i - 1);
    BlockAt(m, w, brk, bs, i);
    BlockAt(m, w, brk, bs, i + 1);
    var h := Hdr(w, bs, i - 1);
    NextBlkpFrame(m, w, bp, h, t);
    NextBlkpFrame(m, w, next, h, t);
    PrevBlkpFrame(m, w, bp, h, t);
    PrevBlkpFrame(m[h := t], w, bp, Hdr(w, bs, i + 2) - w, t);
  }

  /** What place reads and where its PUTs land: csize is block i's size,
      and the footer and the remainder it writes lie at the block's end. */
  lemma PlaceAddrs(m: map<int, nat>, w: nat, brk: int, bs: seq<Blk>, i: nat)
    requires Shaped(m, w, brk, bs) && i < |bs|
    ensures var bp := Payload(w, bs, i);
            GetSize(Word(m, Hdrp(w, bp)), 2 * w) == bs[i].size && bs[i].size % (2 * w) == 0 &&
            Hdrp(w, bp) == Hdr(w, bs, i) && 3 * w <= Hdr(w, bs, i) &&
            Hdr(w, bs, i) + bs[i].size <= brk - w
  {
    BlockAt(m, w, brk, bs, i);
  }

  /** The split PUTs of place: FTRP(bp) after the new header, NEXT_BLKP(bp)
      after both, and the remainder's FTRP after its header. */
  lemma SplitAddrs(m: map<int, nat>, w: nat, bp: int, asize: nat, rest: nat)
    requires WordSize(w) && asize % (2 * w) == 0 && asize >= 4 * w && rest % (2 * w) == 0
    ensures var t := Pack(asize, true);
            var m1 := m[Hdrp(w, bp) := t];
            var m2 := m1[Ftrp(m1, w, bp) := t];
            var next := NextBlkp(m2, w, bp);
            Ftrp(m1, w, bp) == bp + asize - 2 * w && next == bp + asize &&
            Ftrp(m2[Hdrp(w, next) := Pack(rest, false)], w, next) == bp + asize + rest - 2 * w
  {
    var t := Pack(asize, true);
    var m1 := m[Hdrp(w, bp) := t];
    FtrpAfterHeader(m, w, bp, asize, true);
    NextBlkpFrame(m1, w, bp, Ftrp(m1, w, bp), t);
    FtrpAfterHeader(m1[Ftrp(m1, w, bp) := t], w, bp + asize, rest, false);
  }

  /** Where mm_realloc's second case writes: the pair [i, i + 2] spans
      its two sizes, from block i's header to the next pair's. */
  lemma GrowAddrs(m: map<int, nat>, w: nat, brk: int, bs: seq<Blk>, i: nat)
    requires Shaped(m, w, brk, bs) && i + 1 < |bs|
    ensures var total := bs[i].size + bs[i + 1].size;
            Sum(bs[i..i + 2]) == total && total % (2 * w) == 0 &&
            Hdr(w, bs, i + 2) == Hdr(w, bs, i) + total &&
            3 * w <= Hdr(w, bs, i) && Hdr(w, bs, i + 2) <= brk - w
  {
    BlockAt(m, w, brk, bs, i);
    BlockAt(m, w, brk, bs, i + 1);
    assert bs[i..i + 2] == [bs[i], bs[i + 1]];
    SumTwo(bs[i], bs[i + 1]);
    AlignedAdd(w, bs[i].size, bs[i + 1].size);
  }

  /** The block pointer of block k, with k == -1 standing for the prologue
      (whose payload is heap_listp) and k == |bs| for the epilogue. */
  ghost function BlockPtr(w: nat, bs: seq<Blk>, k: int): int
    requires -1 <= k <= |bs|
  {
    if k < 0 then 2 * w else Payload(w, bs, k)
  }

  /** Block pointers increase strictly along the chain. */
  lemma PtrOrder(m: map<int, nat>, w: nat, brk: int, bs: seq<Blk>, j: int, k: int)
    requires Shaped(m, w, brk, bs) && -1 <= j <= |bs| && -1 <= k <= |bs|
    ensures BlockPtr(w, bs, j) < BlockPtr(w, bs, k) <==> j < k
  {
    if 0 <= j < k {
      SumPrefixMono(bs, j, k);
    } else if 0 <= k < j {
      SumPrefixMono(bs, k, j);
    }
  }

  /** NEXT_BLKP steps from each block pointer (the prologue included) to
      the next one, and the header it reads is that block's tag, or the
      epilogue's. */
  lemma PtrNext(m: map<int, nat>, w: nat, brk: int, bs: seq<Blk>, k: int)
    requires Shaped(m, w, brk, bs) && -1 <= k < |bs|
    ensures NextBlkp(m, w, BlockPtr(w, bs, k)) == BlockPtr(w, bs, k + 1)
    ensures k < 0 ==> Word(m, Hdrp(w, BlockPtr(w, bs, k))) == Pack(2 * w, true)
    ensures k >= 0 ==> Word(m, Hdrp(w, BlockPtr(w, bs, k))) == Tag(bs[k])
  {
    if k < 0 {
      assert bs[..0] == [];
      AlignedPack(w, 2 * w, true);
    } else {
      NextBlkpAt(m, w, brk, bs, k);
      BlockAt(m, w, brk, bs, k);
    }
  }

  /** After the run [lo, hi) is replaced by r', the blocks after the run
      keep their addresses under shifted indices. */
  lemma PtrShift(w: nat, bs: seq<Blk>, lo: nat, hi: nat, r': seq<Blk>, k: nat)
    requires lo <= hi <= k <= |bs| && Sum(r') == Sum(bs[lo..hi])
    ensures k - hi + lo + |r'| <= |bs[..lo] + r' + bs[hi..]|
    ensures Hdr(w, bs[..lo] + r' + bs[hi..], k - hi + lo + |r'|) == Hdr(w, bs, k)
  {
    var xs, r, ys := bs[..lo], bs[lo..hi], bs[hi..];
    assert bs == xs + r + ys;
    PrefixAfter(xs, r, r', ys, k - hi);
    assert (xs + r + ys)[..|xs| + |r| + (k - hi)] == bs[..k];
  }

  /** FTRP of a block pointer whose header was just rewritten follows the
      new size. */
  lemma FtrpAfterHeader(m: map<int, nat>, w: nat, bp: int, size: nat, alloc: bool)
    requires WordSize(w) && size % (2 * w) == 0
    ensures Ftrp(m[Hdrp(w, bp) := Pack(size, alloc)], w, bp) == bp + size - 2 * w
    ensures NextBlkp(m[Hdrp(w, bp) := Pack(size, alloc)], w, bp) == bp + size
  {
    AlignedPack(w, size, alloc);
  }

  /** A write away from the word a macro reads leaves the macro's value
      unchanged. */
  lemma PrevBlkpFrame(m: map<int, nat>, w: nat, bp: int, a: int, v: nat)
    requires WordSize(w) && a != bp - 2 * w
    ensures PrevBlkp(m[a := v], w, bp) == PrevBlkp(m, w, bp)
  {
    assert Word(m[a := v], bp - 2 * w) == Word(m, bp - 2 * w);
  }

  lemma NextBlkpFrame(m: map<int, nat>, w: nat, bp: int, a: int, v: nat)
    requires WordSize(w) && a != Hdrp(w, bp)
    ensures NextBlkp(m[a := v], w, bp) == NextBlkp(m, w, bp)
    ensures Ftrp(m[a := v], w, bp) == Ftrp(m, w, bp)
  {
    assert Word(m[a := v], Hdrp(w, bp)) == Word(m, Hdrp(w, bp));
  }

  /** Two writes of the same word commute. */
  lemma WriteSwap(m: map<int, nat>, a: int, b: int, t: nat)
    ensures m[a := t][b := t] == m[b := t][a := t]
  {
    var x, y := m[a := t][b := t], m[b := t][a := t];
    assert forall k :: k in x <==> k in y;
    assert forall k :: k in x ==> x[k] == y[k];
  }

  /** The chain after place(bp, asize) on block i: split into an allocated
      block of asize and a free remainder when the remainder is at least
      the minimum block 2*DSIZE = 4w, otherwise the whole block allocated. */
  function Placed(w: nat, bs: seq<Blk>, i: nat, asize: nat): seq<Blk>
    requires i < |bs| && asize <= bs[i].size
  {
    if bs[i].size - asize >= 4 * w
    then bs[..i] + [Blk(asize, true), Blk(bs[i].size - asize, false)] + bs[i + 1..]
    else bs[..i] + [Blk(bs[i].size, true)] + bs[i + 1..]
  }

  /** place conserves the bytes of the chain, allocates block i with at
      least asize bytes, and leaves every other block where it was. */
  lemma PlacedFacts(w: nat, bs: seq<Blk>, i: nat, asize: nat)
    requires i < |bs| && asize <= bs[i].size
    ensures var ps := Placed(w, bs, i, asize);
            Sum(ps) == Sum(bs) && i < |ps| && ps[i].alloc && asize <= ps[i].size <= bs[i].size &&
            ps[..i] == bs[..i] &&
            (bs[i].size - asize >= 4 * w ==> ps[i].size == asize && |ps| == |bs| + 1 && !ps[i + 1].alloc) &&
            (bs[i].size - asize < 4 * w ==> ps[i].size == bs[i].size && |ps| == |bs|)
  {
    assert bs[i..i + 1] == [bs[i]];
    SumOne(bs[i]);
    var c := bs[i].size;
    if c - asize >= 4 * w {
      SumTwo(Blk(asize, true), Blk(c - asize, false));
      ReplaceSum(bs[..i], [bs[i]], [Blk(asize, true), Blk(c - asize, false)], bs[i + 1..]);
    } else {
      SumOne(Blk(c, true));
      ReplaceSum(bs[..i], [bs[i]], [Blk(c, true)], bs[i + 1..]);
    }
    assert bs == bs[..i] + [bs[i]] + bs[i + 1..];
  }

  /** Every header address of the chain lies between the prologue and the
      epilogue. */
  lemma HdrBounds(m: map<int, nat>, w: nat, brk: int, bs: seq<Blk>, k: nat)
    requires Shaped(m, w, brk, bs) && k <= |bs|
    ensures 3 * w <= Hdr(w, bs, k) <= brk - w
  {
    SumPrefixBound(bs, k);
  }

  /** place with a split: the four tags, at the addresses the caller names,
      make block i an allocated block of asize bytes and a free remainder. */
  lemma PlaceSplitShape(m: map<int, nat>, w: nat, brk: int, bs: seq<Blk>, i: nat, asize: nat,
                        a1: int, a2: int, a3: int, a4: int, m': map<int, nat>)
    requires Shaped(m, w, brk, bs) && i < |bs| && asize <= bs[i].size && bs[i].size - asize >= 4 * w
    requires asize % (2 * w) == 0 && asize >= 4 * w
    requires var h := Hdr(w, bs, i);
             a1 == h && a2 == h + asize - w && a3 == h + asize && a4 == h + bs[i].size - w
    requires var c := bs[i].size;
             m' == m[a1 := Pack(asize, true)][a2 := Pack(asize, true)][a3 := Pack(c - asize, false)][a4 := Pack(c - asize, false)]
    ensures Shaped(m', w, brk, Placed(w, bs, i, asize))
    ensures Live(w, Placed(w, bs, i, asize)) == Live(w, bs)[Payload(w, bs, i) := asize]
  {
    var c := bs[i].size;
    var b1, b2 := Blk(asize, true), Blk(c - asize, false);
    SplitRun(m, m', w, brk, bs, i, b1, b2);
    ReplaceShaped(m, m', w, brk, bs, i, i + 1, [b1, b2]);
    LiveSplit(w, bs, i, asize);
  }

  /** extend_heap's three PUTs, at the addresses the caller names, append a
      free block of size bytes at the old break. */
  lemma ExtendShape(m: map<int, nat>, w: nat, brk: int, bs: seq<Blk>, size: nat,
                    a1: int, a2: int, a3: int, m': map<int, nat>)
    requires Shaped(m, w, brk, bs) && size % (2 * w) == 0 && size >= 4 * w
    requires a1 == brk - w && a2 == brk + size - 2 * w && a3 == brk + size - w
    requires m' == m[a1 := Pack(size, false)][a2 := Pack(size, false)][a3 := Pack(0, true)]
    ensures Shaped(m', w, brk + size, bs + [Blk(size, false)])
    ensures Payload(w, bs + [Blk(size, false)], |bs|) == brk
    ensures Live(w, bs + [Blk(size, false)]) == Live(w, bs)
  {
    var b := Blk(size, false);
    assert Sum(bs + [b]) == Sum(bs) + size by {
      SumConcat(bs, [b]);
      SumOne(b);
    }
    assert Tiled(m', w, 3 * w, bs + [b]) by {
      ExtendTiled(m, m', w, brk, bs, b);
    }
    assert Sized(w, bs + [b]) && Aligned(w, bs + [b]) by {
      ExtendRules(w, bs, b);
    }
    SentinelsKept(m, m', w, brk - w, brk + size);
    EpilogueWord(m', w, bs + [b], a3);
    assert Payload(w, bs + [b], |bs|) == brk by {
      assert (bs + [b])[..|bs|] == bs;
    }
    ExtendLive(w, bs, b);
  }

  /** Appending a block moves no block pointer. */
  lemma PtrAppend(w: nat, bs: seq<Blk>, b: Blk, k: int)
    requires -1 <= k <= |bs|
    ensures BlockPtr(w, bs + [b], k) == BlockPtr(w, bs, k)
  {
    if k >= 0 {
      assert (bs + [b])[..k] == bs[..k];
    }
  }

  /** mm_init's four PUTs lay out the padding word, the prologue and the
      epilogue of an empty chain. */
  lemma InitShape(m: map<int, nat>, w: nat, a0: int, a1: int, a2: int, a3: int, m': map<int, nat>)
    requires WordSize(w) && a0 == 0 && a1 == w && a2 == 2 * w && a3 == 3 * w
    requires m' == m[a0 := 0][a1 := Pack(2 * w, true)][a2 := Pack(2 * w, true)][a3 := Pack(0, true)]
    ensures Shaped(m', w, 4 * w, [])
    ensures Live(w, []) == map[]
  {
  }

  /** Every payload address is a multiple of DSIZE: the alignment malloc
      promises. */
  lemma PayloadAligned(m: map<int, nat>, w: nat, brk: int, bs: seq<Blk>, k: nat)
    requires Shaped(m, w, brk, bs) && k <= |bs|
    ensures Payload(w, bs, k) % (2 * w) == 0
  {
    RulesParts(w, bs, k, k);
    AlignedSum(w, bs[..k]);
  }

  /** A block's payload is live exactly when the block is allocated, and
      then with the block's size. */
  lemma LiveAt(w: nat, bs: seq<Blk>, i: nat)
    requires WordSize(w) && Sized(w, bs) && i < |bs|
    ensures Payload(w, bs, i) in Live(w, bs) <==> bs[i].alloc
    ensures bs[i].alloc ==> Live(w, bs)[Payload(w, bs, i)] == bs[i].size
  {
    LiveOne(w, bs, i, bs[i].alloc);
    assert bs[..i] + [Blk(bs[i].size, bs[i].alloc)] + bs[i + 1..] == bs;
  }

  lemma LiveIndexExists(w: nat, bs: seq<Blk>, p: int)
    requires p in Live(w, bs)
    ensures exists i: nat :: i < |bs| && bs[i].alloc && Payload(w, bs, i) == p && Live(w, bs)[p] == bs[i].size
  {
    var i := AllocIndex(w, 3 * w, bs, p);
    assert Payload(w, bs, i) == p;
  }

  /** The index of the allocated block whose payload is the live pointer
      p: the block mm_free and mm_realloc reach through HDRP(ptr). */
  ghost function LiveIndex(w: nat, bs: seq<Blk>, p: int): (i: nat)
    requires p in Live(w, bs)
    ensures i < |bs| && bs[i].alloc && Payload(w, bs, i) == p && Live(w, bs)[p] == bs[i].size
  {
    LiveIndexExists(w, bs, p);
    var i: nat :| i < |bs| && bs[i].alloc && Payload(w, bs, i) == p && Live(w, bs)[p] == bs[i].size;
    i
  }

  /** Rewriting one block's flag moves no block pointer. */
  lemma PtrRetag(w: nat, bs: seq<Blk>, i: nat, alloc: bool, k: int)
    requires i < |bs| && -1 <= k <= |bs|
    ensures var bs' := bs[..i] + [Blk(bs[i].size, alloc)] + bs[i + 1..];
            |bs'| == |bs| && BlockPtr(w, bs', k) == BlockPtr(w, bs, k)
  {
    var b := Blk(bs[i].size, alloc);
    assert bs[i..i + 1] == [bs[i]];
    SumOne(bs[i]);
    SumOne(b);
    HdrReplace(w, bs, i, i + 1, [b]);
    if k > i {
      PtrShift(w, bs, i, i + 1, [b], k);
    }
  }

  /** Where a block pointer lands after the run [lo, hi) merges into one
      block: onto the merged block if it was inside the run, one index per
      swallowed block lower if it was after it. */
  function MergedRover(lo: nat, hi: nat, j: int): (r: int)
    requires lo < hi
    ensures j < lo ==> r == j
    ensures lo <= j ==> lo <= r <= j
  {
    if lo <= j < hi then lo else if j >= hi then j - (hi - lo - 1) else j
  }

  /** After a merge of [lo, hi), the merged block keeps the payload of the
      run's first block, and the rover's new index names the merged block
      when the old pointer lay strictly inside the run, and otherwise the
      very address it had. */
  lemma MergedRoverPtr(m: map<int, nat>, w: nat, brk: int, bs: seq<Blk>, lo: nat, hi: nat, alloc: bool, j: int)
    requires Shaped(m, w, brk, bs) && lo < hi <= |bs| && -1 <= j < |bs|
    ensures var bs' := bs[..lo] + [Blk(Sum(bs[lo..hi]), alloc)] + bs[hi..];
            var p, f := Payload(w, bs, lo), BlockPtr(w, bs, j);
            |bs'| == |bs| - (hi - lo - 1) && -1 <= MergedRover(lo, hi, j) < |bs'| &&
            Payload(w, bs', lo) == p &&
            BlockPtr(w, bs', MergedRover(lo, hi, j)) == if p < f < BlockPtr(w, bs, hi) then p else f
  {
    var b := Blk(Sum(bs[lo..hi]), alloc);
    SumOne(b);
    HdrReplace(w, bs, lo, hi, [b]);
    PtrOrder(m, w, brk, bs, lo, j);
    PtrOrder(m, w, brk, bs, j, hi);
    if j >= hi {
      PtrShift(w, bs, lo, hi, [b], j);
    }
  }

  /** The allocations after a successful malloc of n bytes at bp: one new
      live payload bp, of at least n bytes, and every other allocation as
      it was. */
  ghost predicate Grants(before: map<int, nat>, after: map<int, nat>, bp: int, n: nat) {
    bp !in before && bp in after && n <= after[bp] && after == before[bp := after[bp]]
  }

  /** The allocations after realloc grows or shrinks p in place to a block
      of at least n bytes: every other allocation as it was. */
  ghost predicate Resizes(before: map<int, nat>, after: map<int, nat>, p: int, n: nat) {
    p in after && n <= after[p] && after == before[p := after[p]]
  }

  /** The allocations after realloc moves p to the new block q of at least
      n bytes: p is gone, q is new, and every other allocation as it was. */
  ghost predicate Moves(before: map<int, nat>, after: map<int, nat>, p: int, q: int, n: nat) {
    q !in before && q in after && n <= after[q] && after == (before - {p})[q := after[q]]
  }

  /** A grant of q followed by the release of p is a move of p to q. */
  lemma GrantThenRelease(before: map<int, nat>, mid: map<int, nat>, after: map<int, nat>, p: int, q: int, n: nat)
    requires p in before && Grants(before, mid, q, n) && after == mid - {p}
    ensures p != q && Moves(before, after, p, q, n)
  {
    assert after == (before - {p})[q := after[q]];
  }
}
