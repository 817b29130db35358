/** The block chain of an arena, shared by all three allocators.

    The arena is a map from byte address to machine word (addresses are
    offsets from mem_heap_lo). The regular blocks between the prologue and
    the epilogue are abstracted as a sequence of (size, allocated) pairs that
    lie back to back: a block whose header is at address h has its payload at
    h + w and its footer at h + size - w, and the next block's header is at
    h + size (NEXT_BLKP). The word size w is 4 in sdfs.c and 8 in mm.c and
    mm_seg.c. */
module Layout {
  import opened Block

  datatype Blk = Blk(size: nat, alloc: bool)

  /** The word at address a; a word never written reads as 0. */
  function Word(m: map<int, nat>, a: int): nat {
    if a in m then m[a] else 0
  }

  /** The boundary tag of a block: PACK(size, alloc). */
  function Tag(b: Blk): nat {
    Pack(b.size, b.alloc)
  }

  /** Total bytes spanned by a run of blocks. */
  function Sum(bs: seq<Blk>): nat
    decreases |bs|
  {
    if bs == [] then 0 else bs[0].size + Sum(bs[1..])
  }

  lemma {:induction false} SumConcat(xs: seq<Blk>, ys: seq<Blk>)
    ensures Sum(xs + ys) == Sum(xs) + Sum(ys)
    decreases |xs|
  {
    if xs == [] {
      assert xs + ys == ys;
    } else {
      assert (xs + ys)[1..] == xs[1..] + ys;
      SumConcat(xs[1..], ys);
    }
  }

  /** Sum over a prefix grows by one block at a time. */
  lemma SumPrefixStep(bs: seq<Blk>, i: nat)
    requires i < |bs|
    ensures Sum(bs[..i + 1]) == Sum(bs[..i]) + bs[i].size
  {
    assert bs[..i + 1] == bs[..i] + [bs[i]];
    SumConcat(bs[..i], [bs[i]]);
  }

  /** A block after block i starts no earlier than block i ends. */
  lemma {:induction false} SumPrefixMono(bs: seq<Blk>, i: nat, j: nat)
    requires i < j <= |bs|
    ensures Sum(bs[..i]) + bs[i].size <= Sum(bs[..j])
    decreases j - i
  {
    SumPrefixStep(bs, i);
    if i + 1 < j {
      SumPrefixMono(bs, i + 1, j);
      SumPrefixStep(bs, i + 1);
    }
  }

  lemma SumPrefixBound(bs: seq<Blk>, i: nat)
    requires i <= |bs|
    ensures Sum(bs[..i]) <= Sum(bs)
  {
    assert bs == bs[..i] + bs[i..];
    SumConcat(bs[..i], bs[i..]);
  }

  /** Every block of the run is at least four words: header, footer and
      room for the two free-list links (the 2*DSIZE minimum block). */
  ghost predicate Sized(w: nat, bs: seq<Blk>) {
    forall i :: 0 <= i < |bs| ==> bs[i].size >= 4 * w
  }

  /** The blocks bs lie back to back from header address a, each with its
      header at its first word and an equal footer at its last word. */
  ghost predicate Tiled(m: map<int, nat>, w: nat, a: int, bs: seq<Blk>)
    decreases |bs|
  {
    bs == [] ||
    (Word(m, a) == Tag(bs[0]) &&
     Word(m, a + bs[0].size - w) == Tag(bs[0]) &&
     Tiled(m, w, a + bs[0].size, bs[1..]))
  }

  /** m' equals m at every address outside [lo, hi). */
  ghost predicate SameOutside(m: map<int, nat>, m': map<int, nat>, lo: int, hi: int) {
    forall x :: (x < lo || hi <= x) ==> Word(m', x) == Word(m, x)
  }

  lemma {:induction false} TiledConcat(m: map<int, nat>, w: nat, a: int, xs: seq<Blk>, ys: seq<Blk>)
    ensures Tiled(m, w, a, xs + ys) <==> Tiled(m, w, a, xs) && Tiled(m, w, a + Sum(xs), ys)
    decreases |xs|
  {
    if xs == [] {
      assert xs + ys == ys;
    } else {
      assert (xs + ys)[0] == xs[0];
      assert (xs + ys)[1..] == xs[1..] + ys;
      TiledConcat(m, w, a + xs[0].size, xs[1..], ys);
    }
  }

  /** The two directions of TiledConcat, with the join address named. */
  lemma TiledJoin(m: map<int, nat>, w: nat, a: int, xs: seq<Blk>, c: int, ys: seq<Blk>)
    requires c == a + Sum(xs)
    requires Tiled(m, w, a, xs) && Tiled(m, w, c, ys)
    ensures Tiled(m, w, a, xs + ys)
  {
    TiledConcat(m, w, a, xs, ys);
  }

  lemma TiledSplit(m: map<int, nat>, w: nat, a: int, xs: seq<Blk>, c: int, ys: seq<Blk>)
    requires c == a + Sum(xs)
    requires Tiled(m, w, a, xs + ys)
    ensures Tiled(m, w, a, xs) && Tiled(m, w, c, ys)
  {
    TiledConcat(m, w, a, xs, ys);
  }

  /** Tiling depends only on the words inside the run. */
  lemma {:induction false} TiledFrame(m: map<int, nat>, m': map<int, nat>, w: nat, a: int, bs: seq<Blk>)
    requires 0 < w && Sized(w, bs)
    requires forall x :: a <= x < a + Sum(bs) ==> Word(m', x) == Word(m, x)
    requires Tiled(m, w, a, bs)
    ensures Tiled(m', w, a, bs)
    decreases |bs|
  {
    if bs != [] {
      assert Word(m', a) == Word(m, a);
      assert Word(m', a + bs[0].size - w) == Word(m, a + bs[0].size - w);
      TiledFrame(m, m', w, a + bs[0].size, bs[1..]);
    }
  }

  /** Replacing a run r of a tiled chain by a run r' of the same total size,
      after rewriting only words inside the run, keeps the chain tiled. This
      is what every split and merge does. */
  lemma ReplaceRun(m: map<int, nat>, m': map<int, nat>, w: nat, a: int,
                   xs: seq<Blk>, r: seq<Blk>, r': seq<Blk>, ys: seq<Blk>)
    requires 0 < w && Sized(w, xs) && Sized(w, ys)
    requires Tiled(m, w, a, xs + r + ys)
    requires Sum(r') == Sum(r)
    requires SameOutside(m, m', a + Sum(xs), a + Sum(xs) + Sum(r))
    requires Tiled(m', w, a + Sum(xs), r')
    ensures Tiled(m', w, a, xs + r' + ys)
  {
    var b := a + Sum(xs);
    var c := b + Sum(r);
    OutsideRun(m, m', w, a, xs, r, ys, b, c);
    TiledJoin(m', w, a, xs, b, r');
    assert c == a + Sum(xs + r') by { SumConcat(xs, r'); }
    TiledJoin(m', w, a, xs + r', c, ys);
  }

  /** The runs on either side of a rewritten run stay tiled. */
  lemma OutsideRun(m: map<int, nat>, m': map<int, nat>, w: nat, a: int,
                   xs: seq<Blk>, r: seq<Blk>, ys: seq<Blk>, b: int, c: int)
    requires 0 < w && Sized(w, xs) && Sized(w, ys)
    requires b == a + Sum(xs) && c == b + Sum(r)
    requires Tiled(m, w, a, xs + r + ys)
    requires SameOutside(m, m', b, c)
    ensures Tiled(m', w, a, xs) && Tiled(m', w, c, ys)
  {
    SumConcat(xs, r);
    TiledSplit(m, w, a, xs + r, c, ys);
    TiledSplit(m, w, a, xs, b, r);
    TiledFrame(m, m', w, a, xs);
    TiledFrame(m, m', w, c, ys);
  }

  /** The tags of block i of a tiled chain. */
  lemma TiledAt(m: map<int, nat>, w: nat, a: int, bs: seq<Blk>, i: nat)
    requires i < |bs| && Tiled(m, w, a, bs)
    ensures Word(m, a + Sum(bs[..i])) == Tag(bs[i])
    ensures Word(m, a + Sum(bs[..i]) + bs[i].size - w) == Tag(bs[i])
  {
    assert bs == bs[..i] + bs[i..];
    TiledConcat(m, w, a, bs[..i], bs[i..]);
    assert bs[i..][0] == bs[i];
  }

  /** The allocated blocks of a run, as a map from payload address to block
      size: the live allocations of the arena. */
  ghost function AllocIn(w: nat, a: int, bs: seq<Blk>): map<int, nat>
    decreases |bs|
  {
    if bs == [] then map[]
    else (if bs[0].alloc then map[a + w := bs[0].size] else map[]) + AllocIn(w, a + bs[0].size, bs[1..])
  }

  /** Every live payload lies inside the run. */
  lemma {:induction false} AllocInRange(w: nat, a: int, bs: seq<Blk>, p: int)
    requires Sized(w, bs) && 0 < w
    requires p in AllocIn(w, a, bs)
    ensures a + w <= p && p + AllocIn(w, a, bs)[p] - w <= a + Sum(bs)
    decreases |bs|
  {
    if bs != [] {
      var tail := AllocIn(w, a + bs[0].size, bs[1..]);
      if p in tail {
        AllocInRange(w, a + bs[0].size, bs[1..], p);
      }
    }
  }

  lemma {:induction false} AllocInConcat(w: nat, a: int, xs: seq<Blk>, ys: seq<Blk>)
    ensures AllocIn(w, a, xs + ys) == AllocIn(w, a, xs) + AllocIn(w, a + Sum(xs), ys)
    decreases |xs|
  {
    if xs == [] {
      assert xs + ys == ys;
      MapUnionEmpty(AllocIn(w, a, ys));
    } else {
      var b, t := a + xs[0].size, xs[1..];
      var h := if xs[0].alloc then map[a + w := xs[0].size] else map[];
      assert b + Sum(t) == a + Sum(xs);
      assert AllocIn(w, a, xs + ys) == h + AllocIn(w, b, t + ys) by {
        assert (xs + ys)[0] == xs[0];
        assert (xs + ys)[1..] == t + ys;
      }
      AllocInConcat(w, b, t, ys);
      MapUnionAssoc(h, AllocIn(w, b, t), AllocIn(w, b + Sum(t), ys));
    }
  }

  lemma MapUnionEmpty(x: map<int, nat>)
    ensures map[] + x == x
  {
    assert forall k :: k in map[] + x <==> k in x;
  }

  lemma MapUnionAssoc(x: map<int, nat>, y: map<int, nat>, z: map<int, nat>)
    ensures x + (y + z) == (x + y) + z
  {
    var l, r := x + (y + z), (x + y) + z;
    assert forall k :: k in l <==> k in r;
    assert forall k :: k in l ==> l[k] == r[k];
  }

  /** No two live allocations overlap: distinct live payloads are at least
      one whole block apart. */
  lemma {:induction false} AllocDisjoint(w: nat, a: int, bs: seq<Blk>, p: int, q: int)
    requires Sized(w, bs) && 0 < w
    requires p in AllocIn(w, a, bs) && q in AllocIn(w, a, bs) && p < q
    ensures p + AllocIn(w, a, bs)[p] <= q
    decreases |bs|
  {
    if bs != [] {
      var tail := AllocIn(w, a + bs[0].size, bs[1..]);
      if p in tail {
        AllocInRange(w, a + bs[0].size, bs[1..], p);
        assert q in tail;
        AllocDisjoint(w, a + bs[0].size, bs[1..], p, q);
      } else {
        assert p == a + w && bs[0].alloc;
        assert q in tail;
        AllocInRange(w, a + bs[0].size, bs[1..], q);
      }
    }
  }

  /** The live payload p is the payload of some allocated block i. */
  lemma {:induction false} AllocIndex(w: nat, a: int, bs: seq<Blk>, p: int) returns (i: nat)
    requires p in AllocIn(w, a, bs)
    ensures i < |bs| && bs[i].alloc
    ensures p == a + Sum(bs[..i]) + w && AllocIn(w, a, bs)[p] == bs[i].size
    decreases |bs|
  {
    var tail := AllocIn(w, a + bs[0].size, bs[1..]);
    if p in tail {
      var j := AllocIndex(w, a + bs[0].size, bs[1..], p);
      i := j + 1;
      assert bs[..i] == [bs[0]] + bs[1..][..j];
      SumConcat([bs[0]], bs[1..][..j]);
    } else {
      i := 0;
    }
  }

  /** A run of free blocks holds no live allocation. */
  lemma {:induction false} AllocInFree(w: nat, a: int, bs: seq<Blk>)
    requires forall i :: 0 <= i < |bs| ==> !bs[i].alloc
    ensures AllocIn(w, a, bs) == map[]
    decreases |bs|
  {
    if bs != [] {
      AllocInFree(w, a + bs[0].size, bs[1..]);
    }
  }

  /** The neighbours coalesce looks at when block i becomes free: the
      previous block is the prologue when i == 0 and the next one is the
      epilogue when i is last, and both sentinels read as allocated. */
  function PrevFree(bs: seq<Blk>, i: nat): bool
    requires i < |bs|
  {
    i > 0 && !bs[i - 1].alloc
  }

  function NextFree(bs: seq<Blk>, i: nat): bool
    requires i < |bs|
  {
    i + 1 < |bs| && !bs[i + 1].alloc
  }

  /** The run [MergeLo, MergeHi) of blocks that coalescing block i merges. */
  function MergeLo(bs: seq<Blk>, i: nat): (lo: nat)
    requires i < |bs|
    ensures lo <= i
  {
    if PrevFree(bs, i) then i - 1 else i
  }

  function MergeHi(bs: seq<Blk>, i: nat): (hi: nat)
    requires i < |bs|
    ensures i < hi <= |bs|
  {
    if NextFree(bs, i) then i + 2 else i + 1
  }

  /** The chain after coalescing the free block i with each free
      neighbour: the run becomes one free block spanning all of it. */
  function Coalesced(bs: seq<Blk>, i: nat): seq<Blk>
    requires i < |bs|
  {
    var lo, hi := MergeLo(bs, i), MergeHi(bs, i);
    bs[..lo] + [Blk(Sum(bs[lo..hi]), false)] + bs[hi..]
  }

  lemma SumOne(b: Blk)
    ensures Sum([b]) == b.size
  {
    assert [b][1..] == [];
  }

  lemma SumTwo(b: Blk, c: Blk)
    ensures Sum([b, c]) == b.size + c.size
  {
    assert [b, c][1..] == [c];
    SumOne(c);
  }

  lemma SumThree(b: Blk, c: Blk, d: Blk)
    ensures Sum([b, c, d]) == b.size + c.size + d.size
  {
    assert [b, c, d][1..] == [c, d];
    SumTwo(c, d);
  }

  /** The merged block spans the freed block plus each free neighbour. */
  lemma MergedSize(bs: seq<Blk>, i: nat)
    requires i < |bs|
    ensures Sum(bs[MergeLo(bs, i)..MergeHi(bs, i)]) ==
            bs[i].size
            + (if PrevFree(bs, i) then bs[i - 1].size else 0)
            + (if NextFree(bs, i) then bs[i + 1].size else 0)
  {
    var lo, hi := MergeLo(bs, i), MergeHi(bs, i);
    if PrevFree(bs, i) && NextFree(bs, i) {
      assert bs[lo..hi] == [bs[i - 1], bs[i], bs[i + 1]];
      SumThree(bs[i - 1], bs[i], bs[i + 1]);
    } else if PrevFree(bs, i) {
      assert bs[lo..hi] == [bs[i - 1], bs[i]];
      SumTwo(bs[i - 1], bs[i]);
    } else if NextFree(bs, i) {
      assert bs[lo..hi] == [bs[i], bs[i + 1]];
      SumTwo(bs[i], bs[i + 1]);
    } else {
      assert bs[lo..hi] == [bs[i]];
      SumOne(bs[i]);
    }
  }

  /** Replacing a run by another of equal total size moves no block before
      or after it. */
  lemma {:induction false} PrefixBefore(xs: seq<Blk>, r: seq<Blk>, r': seq<Blk>, ys: seq<Blk>, k: nat)
    requires k <= |xs|
    ensures (xs + r + ys)[..k] == (xs + r' + ys)[..k] == xs[..k]
  {
  }

  lemma PrefixAfter(xs: seq<Blk>, r: seq<Blk>, r': seq<Blk>, ys: seq<Blk>, k: nat)
    requires Sum(r) == Sum(r') && k <= |ys|
    ensures Sum((xs + r' + ys)[..|xs| + |r'| + k]) == Sum((xs + r + ys)[..|xs| + |r| + k])
  {
    assert (xs + r' + ys)[..|xs| + |r'| + k] == xs + r' + ys[..k];
    assert (xs + r + ys)[..|xs| + |r| + k] == xs + r + ys[..k];
    SumConcat(xs + r', ys[..k]);
    SumConcat(xs, r');
    SumConcat(xs + r, ys[..k]);
    SumConcat(xs, r);
  }

  lemma ReplaceSum(xs: seq<Blk>, r: seq<Blk>, r': seq<Blk>, ys: seq<Blk>)
    requires Sum(r) == Sum(r')
    ensures Sum(xs + r' + ys) == Sum(xs + r + ys)
  {
    SumConcat(xs + r, ys);
    SumConcat(xs, r);
    SumConcat(xs + r', ys);
    SumConcat(xs, r');
  }

  /** The chain around the run [lo, hi), cut into its three parts. */
  lemma Cut(bs: seq<Blk>, lo: nat, hi: nat)
    requires lo <= hi <= |bs|
    ensures bs == bs[..lo] + bs[lo..hi] + bs[hi..]
  {
  }

  /** The coalesced chain is the merged block between the untouched parts. */
  lemma CoalescedParts(bs: seq<Blk>, i: nat)
    requires i < |bs|
    ensures var lo, hi := MergeLo(bs, i), MergeHi(bs, i);
            Coalesced(bs, i) == bs[..lo] + [Blk(Sum(bs[lo..hi]), false)] + bs[hi..] &&
            bs == bs[..lo] + bs[lo..hi] + bs[hi..]
  {
    Cut(bs, MergeLo(bs, i), MergeHi(bs, i));
  }

  /** Coalescing conserves the bytes of the chain. */
  lemma CoalescedSum(bs: seq<Blk>, i: nat)
    requires i < |bs|
    ensures Sum(Coalesced(bs, i)) == Sum(bs)
  {
    var lo, hi := MergeLo(bs, i), MergeHi(bs, i);
    var m := Blk(Sum(bs[lo..hi]), false);
    CoalescedParts(bs, i);
    SumOne(m);
    ReplaceSum(bs[..lo], bs[lo..hi], [m], bs[hi..]);
  }

  lemma AllocInJoin(w: nat, a: int, xs: seq<Blk>, c: int, ys: seq<Blk>)
    requires c == a + Sum(xs)
    ensures AllocIn(w, a, xs + ys) == AllocIn(w, a, xs) + AllocIn(w, c, ys)
  {
    AllocInConcat(w, a, xs, ys);
  }

  lemma MapUnionEmptyRight(x: map<int, nat>)
    ensures x + map[] == x
  {
  }

  /** Replacing a run of free blocks by another of the same total size
      leaves the live allocations as they were. */
  lemma ReplaceFree(w: nat, a: int, xs: seq<Blk>, r: seq<Blk>, r': seq<Blk>, ys: seq<Blk>)
    requires Sum(r) == Sum(r')
    requires forall k :: 0 <= k < |r| ==> !r[k].alloc
    requires forall k :: 0 <= k < |r'| ==> !r'[k].alloc
    ensures AllocIn(w, a, xs + r' + ys) == AllocIn(w, a, xs + r + ys)
  {
    var b := a + Sum(xs);
    var c := b + Sum(r);
    assert AllocIn(w, a, xs + r) == AllocIn(w, a, xs) by {
      AllocInFree(w, b, r);
      AllocInJoin(w, a, xs, b, r);
      MapUnionEmptyRight(AllocIn(w, a, xs));
    }
    assert AllocIn(w, a, xs + r') == AllocIn(w, a, xs) by {
      AllocInFree(w, b, r');
      AllocInJoin(w, a, xs, b, r');
      MapUnionEmptyRight(AllocIn(w, a, xs));
    }
    assert c == a + Sum(xs + r) by { SumConcat(xs, r); }
    assert c == a + Sum(xs + r') by { SumConcat(xs, r'); }
    AllocInJoin(w, a, xs + r, c, ys);
    AllocInJoin(w, a, xs + r', c, ys);
  }

  /** Coalescing frees no live allocation and allocates nothing. */
  lemma CoalescedAlloc(w: nat, a: int, bs: seq<Blk>, i: nat)
    requires i < |bs| && !bs[i].alloc
    ensures AllocIn(w, a, Coalesced(bs, i)) == AllocIn(w, a, bs)
  {
    var lo, hi := MergeLo(bs, i), MergeHi(bs, i);
    var m := Blk(Sum(bs[lo..hi]), false);
    CoalescedParts(bs, i);
    SumOne(m);
    ReplaceFree(w, a, bs[..lo], bs[lo..hi], [m], bs[hi..]);
  }

  /** The merged block sits at MergeLo, free, and is at least as large as
      the freed block. */
  lemma CoalescedBlock(bs: seq<Blk>, i: nat)
    requires i < |bs|
    ensures var lo, hi := MergeLo(bs, i), MergeHi(bs, i);
            lo < |Coalesced(bs, i)| && Coalesced(bs, i)[lo] == Blk(Sum(bs[lo..hi]), false) &&
            Sum(bs[lo..hi]) >= bs[i].size
  {
    MergedSize(bs, i);
  }

  /** The chain after mm_free retags the allocated block i as free,
      before coalescing: block i keeps its size and every other block is
      as it was. */
  function Freed(bs: seq<Blk>, i: nat): (r: seq<Blk>)
    requires i < |bs|
    ensures |r| == |bs| && r[i] == Blk(bs[i].size, false)
    ensures forall k :: 0 <= k < |bs| && k != i ==> r[k] == bs[k]
  {
    bs[..i] + [Blk(bs[i].size, false)] + bs[i + 1..]
  }

  /** The chain after mm_realloc's in-place case: the allocated block i
      takes in the whole block after it, the blocks before i keep their
      index, the blocks after the pair move down by one, and no byte is
      gained or lost. */
  function Absorbed(bs: seq<Blk>, i: nat): (r: seq<Blk>)
    requires i + 1 < |bs|
    ensures |r| == |bs| - 1 && r[i] == Blk(bs[i].size + bs[i + 1].size, true)
    ensures forall k :: 0 <= k < i ==> r[k] == bs[k]
    ensures forall k :: i < k < |r| ==> r[k] == bs[k + 1]
    ensures Sum(r) == Sum(bs)
  {
    var b := Blk(bs[i].size + bs[i + 1].size, true);
    assert bs[i..i + 2] == [bs[i], bs[i + 1]];
    SumTwo(bs[i], bs[i + 1]);
    SumOne(b);
    Cut(bs, i, i + 2);
    ReplaceSum(bs[..i], bs[i..i + 2], [b], bs[i + 2..]);
    bs[..i] + [b] + bs[i + 2..]
  }

  /** mm_realloc's second case applies to the allocated block i and an
      adjusted request of asize bytes: the block alone is too small, the
      next block is free, and the two together are large enough. */
  predicate GrowsInPlace(bs: seq<Blk>, i: nat, asize: nat)
    requires i < |bs|
  {
    asize > bs[i].size && NextFree(bs, i) && bs[i].size + bs[i + 1].size >= asize
  }
}
