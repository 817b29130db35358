/** Boundary-tag encoding shared by the three allocators (sdfs.c, mm.c and
    mm_seg.c). A header or footer word packs a block size, which is always a
    multiple of the alignment, with the allocated flag in bit 0. */
module Block {

  /** PACK(size, alloc) is the bitwise `size | alloc`, and every call site
      passes the literal 0 or 1 for alloc. */
  function Pack(size: nat, alloc: bool): (r: nat)
    ensures alloc ==> r % 2 == 1
    ensures !alloc ==> r == size
    ensures size % 2 == 0 ==> r == size + (if alloc then 1 else 0)
  {
    if alloc && size % 2 == 0 then size + 1 else size
  }

  /** GET_SIZE clears the bits below the alignment: `w & ~0x7` in sdfs.c and
      `w & ~0xF` in mm.c and mm_seg.c. The result is the largest multiple of
      the alignment that does not exceed the word. */
  function GetSize(w: nat, align: nat): (r: nat)
    requires align == 8 || align == 16
    ensures r <= w && r % align == 0 && w - r < align
  {
    w - w % align
  }

  /** GET_ALLOC is `w & 0x1`. */
  function GetAlloc(w: nat): (r: bool)
    ensures r <==> w % 2 == 1
  {
    w % 2 == 1
  }

  /** Unpacking a packed tag gives back the size and the flag, as long as
      the size is aligned. */
  lemma PackRoundTrip(size: nat, alloc: bool, align: nat)
    requires align == 8 || align == 16
    requires size % align == 0
    ensures GetSize(Pack(size, alloc), align) == size
    ensures GetAlloc(Pack(size, alloc)) == alloc
  {
    if align == 8 {
      assert size % 2 == 0;
      assert (size + 1) % 8 == 1;
    } else {
      assert size % 2 == 0;
      assert (size + 1) % 16 == 1;
    }
  }


  /** The request adjustment of mm_malloc and mm_realloc, with DSIZE = dsize:
      the minimum block 2*DSIZE for small requests, otherwise the request
      plus the header/footer overhead rounded up to a multiple of DSIZE. */
  function AdjustSize(size: nat, dsize: nat): (asize: nat)
    requires dsize == 8 || dsize == 16
    ensures asize % dsize == 0
    ensures asize >= 2 * dsize
    ensures asize >= size + dsize
    ensures size > dsize ==> asize < size + 2 * dsize
  {
    if size <= dsize then 2 * dsize
    else RoundDown(size + dsize + (dsize - 1), dsize); dsize * ((size + dsize + (dsize - 1)) / dsize)
  }

  /** MAX(x, y) */
  function Max(x: nat, y: nat): (r: nat)
    ensures r >= x && r >= y && (r == x || r == y)
  {
    if x > y then x else y
  }

  /** extend_heap rounds the word count up to an even number before scaling
      it to bytes, so the new block keeps double-word alignment. */
  function ExtendBytes(words: nat, wsize: nat): (size: nat)
    requires wsize == 4 || wsize == 8
    ensures size % (2 * wsize) == 0
    ensures words * wsize <= size < words * wsize + 2 * wsize
  {
    var even := if words % 2 == 1 then words + 1 else words;
    EvenTimes(even, wsize);
    even * wsize
  }

  /** An even number of words is a whole number of double words. */
  lemma EvenTimes(k: nat, wsize: nat)
    requires wsize == 4 || wsize == 8
    requires k % 2 == 0
    ensures (k * wsize) % (2 * wsize) == 0
  {
    var d := 2 * wsize;
    assert k * wsize == d * (k / 2);
  }

  /** d * (n / d) is the largest multiple of d that does not exceed n. */
  lemma RoundDown(n: nat, d: nat)
    requires d == 8 || d == 16
    ensures (d * (n / d)) % d == 0 && d * (n / d) <= n < d * (n / d) + d
  {
    if d == 8 {
      assert d * (n / d) == 8 * (n / 8);
    } else {
      assert d * (n / d) == 16 * (n / 16);
    }
  }
}
