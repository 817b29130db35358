/** The free blocks of a chain, as a map from payload address to block
    size: what the segregated allocators must keep on their free lists. It
    is the map of live allocations of the same chain with every allocated
    bit inverted, so the facts proved about live allocations carry over. */
module FreeMap {
  import opened Block
  import opened Layout
  import opened Chain

  /** The chain with every allocated bit inverted. */
  function Flip(bs: seq<Blk>): (fs: seq<Blk>)
    ensures |fs| == |bs|
    ensures forall k :: 0 <= k < |bs| ==> fs[k] == Blk(bs[k].size, !bs[k].alloc)
  {
    seq(|bs|, k requires 0 <= k < |bs| => Blk(bs[k].size, !bs[k].alloc))
  }

  /** The free blocks: payload address to block size. */
  ghost function Vacant(w: nat, bs: seq<Blk>): map<int, nat> {
    AllocIn(w, 3 * w, Flip(bs))
  }

  lemma {:induction false} FlipSum(bs: seq<Blk>)
    ensures Sum(Flip(bs)) == Sum(bs)
    decreases |bs|
  {
    if bs != [] {
      assert Flip(bs)[1..] == Flip(bs[1..]);
      FlipSum(bs[1..]);
    }
  }

  /** Flipping keeps every header address and the size rule. */
  lemma FlipHdr(w: nat, bs: seq<Blk>, k: nat)
    requires k <= |bs|
    ensures Hdr(w, Flip(bs), k) == Hdr(w, bs, k)
  {
    assert Flip(bs)[..k] == Flip(bs[..k]);
    FlipSum(bs[..k]);
  }

  lemma FlipSized(w: nat, bs: seq<Blk>)
    requires Sized(w, bs)
    ensures Sized(w, Flip(bs))
  {
  }

  lemma FlipJoin(xs: seq<Blk>, r: seq<Blk>, ys: seq<Blk>)
    ensures Flip(xs + r + ys) == Flip(xs) + Flip(r) + Flip(ys)
  {
  }

  /** Every free payload is the payload of a free block i, mapped to that
      block's size. */
  lemma VacantIndex(w: nat, bs: seq<Blk>, p: int) returns (i: nat)
    requires p in Vacant(w, bs)
    ensures i < |bs| && !bs[i].alloc
    ensures p == Payload(w, bs, i) && Vacant(w, bs)[p] == bs[i].size
  {
    i := AllocIndex(w, 3 * w, Flip(bs), p);
    FlipHdr(w, bs, i);
  }

  lemma FreeIndexExists(w: nat, bs: seq<Blk>, p: int)
    requires p in Vacant(w, bs)
    ensures exists i: nat :: i < |bs| && !bs[i].alloc && Payload(w, bs, i) == p && Vacant(w, bs)[p] == bs[i].size
  {
    var i := VacantIndex(w, bs, p);
  }

  /** The index of the free block whose payload is p. */
  ghost function FreeIndex(w: nat, bs: seq<Blk>, p: int): (i: nat)
    requires p in Vacant(w, bs)
    ensures i < |bs| && !bs[i].alloc && Payload(w, bs, i) == p && Vacant(w, bs)[p] == bs[i].size
  {
    FreeIndexExists(w, bs, p);
    var i: nat :| i < |bs| && !bs[i].alloc && Payload(w, bs, i) == p && Vacant(w, bs)[p] == bs[i].size;
    i
  }

  /** A block's payload is free exactly when the block is, and then maps
      to the block's size. */
  lemma VacantAt(w: nat, bs: seq<Blk>, i: nat)
    requires WordSize(w) && Sized(w, bs) && i < |bs|
    ensures Payload(w, bs, i) in Vacant(w, bs) <==> !bs[i].alloc
    ensures !bs[i].alloc ==> Vacant(w, bs)[Payload(w, bs, i)] == bs[i].size
  {
    FlipSized(w, bs);
    LiveAt(w, Flip(bs), i);
    FlipHdr(w, bs, i);
  }

  /** The free blocks after the run [lo, hi), which spans [h, e), is
      replaced by r': those outside [h, e) stay with their sizes, those
      inside give way to the free blocks of r', which lie in [h, e). */
  lemma VacantReplace(w: nat, bs: seq<Blk>, lo: nat, hi: nat, r': seq<Blk>)
    requires WordSize(w) && Sized(w, bs) && Sized(w, r') && lo <= hi <= |bs|
    requires Sum(r') == Sum(bs[lo..hi])
    ensures var h, e := Hdr(w, bs, lo), Hdr(w, bs, hi);
            var nv, ov, rv := Vacant(w, bs[..lo] + r' + bs[hi..]), Vacant(w, bs), AllocIn(w, h, Flip(r'));
            (forall q :: q in nv <==> (q in ov && !(h <= q < e)) || q in rv) &&
            (forall q :: q in rv ==> h <= q < e && nv[q] == rv[q]) &&
            (forall q :: q in ov && !(h <= q < e) ==> q in nv && nv[q] == ov[q])
  {
    var fb := Flip(bs);
    var h, e := Hdr(w, bs, lo), Hdr(w, bs, hi);
    assert Flip(bs[..lo] + r' + bs[hi..]) == fb[..lo] + Flip(r') + fb[hi..] by {
      FlipJoin(bs[..lo], r', bs[hi..]);
      assert Flip(bs[..lo]) == fb[..lo] && Flip(bs[hi..]) == fb[hi..];
    }
    assert Sum(Flip(r')) == Sum(fb[lo..hi]) by {
      FlipSum(r');
      assert fb[lo..hi] == Flip(bs[lo..hi]);
      FlipSum(bs[lo..hi]);
    }
    FlipHdr(w, bs, lo);
    FlipHdr(w, bs, hi);
    FlipSized(w, bs);
    FlipSized(w, r');
    LiveReplace(w, fb, lo, hi, Flip(r'));
    HdrOfRun(w, fb, lo, hi);
    RulesSized(w, fb, lo, hi);
    AllocKeysBelow(w, h, fb[lo..hi]);
    AllocKeysBelow(w, h, Flip(r'));
  }

  /** Rewriting block i's flag: freeing it adds its payload, allocating
      it takes the payload away. */
  lemma VacantRetag(w: nat, bs: seq<Blk>, i: nat, alloc: bool)
    requires WordSize(w) && Sized(w, bs) && i < |bs|
    ensures var bs' := bs[..i] + [Blk(bs[i].size, alloc)] + bs[i + 1..];
            Vacant(w, bs') == if alloc then Vacant(w, bs) - {Payload(w, bs, i)}
                              else Vacant(w, bs)[Payload(w, bs, i) := bs[i].size]
  {
    var fb := Flip(bs);
    assert Flip(bs[..i] + [Blk(bs[i].size, alloc)] + bs[i + 1..]) ==
           fb[..i] + [Blk(fb[i].size, !alloc)] + fb[i + 1..];
    FlipSized(w, bs);
    LiveOne(w, fb, i, !alloc);
    FlipHdr(w, bs, i);
  }

  /** A block appended at the end of the chain is free with its size. */
  lemma VacantAppend(w: nat, bs: seq<Blk>, b: Blk)
    requires !b.alloc
    ensures Vacant(w, bs + [b]) == Vacant(w, bs)[3 * w + Sum(bs) + w := b.size]
  {
    var fb, fbl := Flip(bs), Blk(b.size, true);
    assert Flip(bs + [b]) == fb + [fbl];
    AllocInConcat(w, 3 * w, fb, [fbl]);
    AllocInOne(w, 3 * w + Sum(fb), fbl);
    FlipSum(bs);
    MapUnionOne(Vacant(w, bs), 3 * w + Sum(bs) + w, b.size);
  }

  lemma MapUnionOne(x: map<int, nat>, p: int, v: nat)
    ensures x + map[p := v] == x[p := v]
  {
    var l, r := x + map[p := v], x[p := v];
    assert forall k :: k in l <==> k in r;
    assert forall k :: k in l ==> l[k] == r[k];
  }
}
