/** sdfs.c's roving pointer as the code writes it. coalesce moves last_fitp
    only when nothing merges, and mm_realloc's grow-in-place case never
    moves it, so a merge can leave last_fitp inside a bigger block. The
    functions here follow those C paths PUT by PUT over the arena's words;
    the two lemmas at the end run them on small arenas to show where the
    stale pointer leads. Implicit.ImplicitHeap.Coalesce and
    Implicit.ImplicitHeap.Absorb are the corrected versions, which move
    last_fitp to the merged block. */
module Finding {
  import opened Block
  import opened Layout
  import opened Chain

  const W: nat := 4
  const DSIZE: nat := 8
  /** heap_listp once mm_init has run: the prologue's payload. */
  const HEAP_LISTP: int := 2 * W

  datatype Option<T> = None | Some(value: T)

  /** The allocator's state: the arena's words and last_fitp. */
  datatype Heap = Heap(mem: map<int, nat>, lastFitp: int)

  /** A state together with the block pointer a C function returned. */
  datatype Out = Out(heap: Heap, bp: int)

  function SizeAt(m: map<int, nat>, a: int): nat {
    GetSize(Word(m, a), DSIZE)
  }

  function AllocAt(m: map<int, nat>, a: int): bool {
    GetAlloc(Word(m, a))
  }

  /** The test both find_fit loops apply to the header of bp. */
  predicate FitsAt(m: map<int, nat>, bp: int, asize: nat) {
    !AllocAt(m, Hdrp(W, bp)) && asize <= SizeAt(m, Hdrp(W, bp))
  }

  /** coalesce(bp) as written: only case 1 (both neighbours allocated)
      sets last_fitp; cases 2 to 4 merge and leave it where it was. */
  function CoalesceAsWritten(h: Heap, bp: int): (r: Out)
    ensures r.heap.lastFitp == h.lastFitp || r.heap.lastFitp == bp
    ensures r.heap.lastFitp != h.lastFitp ==> r.bp == bp && r.heap.mem == h.mem
  {
    var m := h.mem;
    var prevAlloc := AllocAt(m, Ftrp(m, W, PrevBlkp(m, W, bp)));
    var nextAlloc := AllocAt(m, Hdrp(W, NextBlkp(m, W, bp)));
    var size := SizeAt(m, Hdrp(W, bp));
    if prevAlloc && nextAlloc then
      Out(h.(lastFitp := bp), bp)
    else if prevAlloc then
      var size := size + SizeAt(m, Hdrp(W, NextBlkp(m, W, bp)));
      var m1 := m[Hdrp(W, bp) := Pack(size, false)];
      var m2 := m1[Ftrp(m1, W, bp) := Pack(size, false)];
      Out(h.(mem := m2), bp)
    else if nextAlloc then
      var size := size + SizeAt(m, Hdrp(W, PrevBlkp(m, W, bp)));
      var m1 := m[Ftrp(m, W, bp) := Pack(size, false)];
      var m2 := m1[Hdrp(W, PrevBlkp(m1, W, bp)) := Pack(size, false)];
      Out(h.(mem := m2), PrevBlkp(m2, W, bp))
    else
      var size := size + SizeAt(m, Hdrp(W, PrevBlkp(m, W, bp))) +
                  SizeAt(m, Ftrp(m, W, NextBlkp(m, W, bp)));
      var m1 := m[Hdrp(W, PrevBlkp(m, W, bp)) := Pack(size, false)];
      var m2 := m1[Ftrp(m1, W, NextBlkp(m1, W, bp)) := Pack(size, false)];
      Out(h.(mem := m2), PrevBlkp(m2, W, bp))
  }

  /** mm_free(ptr) as written: PUT the block's size back as free at its
      header and footer, then coalesce. */
  function FreeAsWritten(h: Heap, ptr: int): (r: Out)
    ensures r.heap.lastFitp == h.lastFitp || r.heap.lastFitp == ptr
  {
    var m := h.mem;
    var size := SizeAt(m, Hdrp(W, ptr));
    var m1 := m[Hdrp(W, ptr) := Pack(size, false)];
    var m2 := m1[Ftrp(m1, W, ptr) := Pack(size, false)];
    CoalesceAsWritten(h.(mem := m2), ptr)
  }

  /** find_fit's first loop, from bp up to the first header of size 0: the
      first bp whose header passes the fit test, 0 when the loop ends
      without one, None when fuel steps do not reach either. */
  function ScanToEnd(m: map<int, nat>, bp: int, asize: nat, fuel: nat): (r: Option<int>)
    ensures r.Some? && r.value != bp && r.value != 0 ==> bp < r.value
    ensures r.Some? && r.value != 0 ==> FitsAt(m, r.value, asize)
    decreases fuel
  {
    if fuel == 0 then None
    else if SizeAt(m, Hdrp(W, bp)) == 0 then Some(0)
    else if FitsAt(m, bp, asize) then Some(bp)
    else ScanToEnd(m, NextBlkp(m, W, bp), asize, fuel - 1)
  }

  /** find_fit's second loop, from bp while bp < stop. */
  function ScanToStop(m: map<int, nat>, bp: int, stop: int, asize: nat, fuel: nat): (r: Option<int>)
    ensures r.Some? && r.value != 0 ==> bp <= r.value < stop && FitsAt(m, r.value, asize)
    decreases fuel
  {
    if fuel == 0 then None
    else if !(bp < stop) then Some(0)
    else if FitsAt(m, bp, asize) then Some(bp)
    else ScanToStop(m, NextBlkp(m, W, bp), stop, asize, fuel - 1)
  }

  /** find_fit(asize) as written: the first loop from NEXT_BLKP(last_fitp),
      then the second from heap_listp up to last_fitp; a block found
      becomes last_fitp. */
  function FindFitAsWritten(h: Heap, asize: nat, fuel: nat): (r: Option<Out>)
    ensures r.Some? && r.value.bp != 0 ==> FitsAt(h.mem, r.value.bp, asize) &&
                                           r.value.heap == h.(lastFitp := r.value.bp)
    ensures r.Some? && r.value.bp == 0 ==> r.value.heap == h
  {
    var m := h.mem;
    match ScanToEnd(m, NextBlkp(m, W, h.lastFitp), asize, fuel)
    case None => None
    case Some(p) =>
      if p != 0 then Some(Out(h.(lastFitp := p), p))
      else
        match ScanToStop(m, HEAP_LISTP, h.lastFitp, asize, fuel)
        case None => None
        case Some(q) =>
          if q != 0 then Some(Out(h.(lastFitp := q), q)) else Some(Out(h, 0))
  }

  /** place(bp, asize) as written: split off a free remainder of at least
      2*DSIZE bytes, or else mark the whole block allocated. */
  function PlaceAsWritten(m: map<int, nat>, bp: int, asize: nat): (r: map<int, nat>)
    requires asize >= 2 * DSIZE && asize % DSIZE == 0
    ensures AllocAt(r, Hdrp(W, bp))
  {
    var csize := SizeAt(m, Hdrp(W, bp));
    if csize - asize >= 2 * DSIZE then
      var m1 := m[Hdrp(W, bp) := Pack(asize, true)];
      var m2 := m1[Ftrp(m1, W, bp) := Pack(asize, true)];
      var next := NextBlkp(m2, W, bp);
      var m3 := m2[Hdrp(W, next) := Pack(csize - asize, false)];
      m3[Ftrp(m3, W, next) := Pack(csize - asize, false)]
    else
      var m1 := m[Hdrp(W, bp) := Pack(csize, true)];
      assert Hdrp(W, bp) != Ftrp(m1, W, bp) || csize == DSIZE;
      m1[Ftrp(m1, W, bp) := Pack(csize, true)]
  }

  /** mm_malloc(size) as written, on its find_fit path: 0 for size 0, and
      otherwise place the request in the block find_fit returns, which
      becomes last_fitp. A bp of 0 for a positive size means find_fit found
      nothing and mm_malloc would go on to extend_heap, which this function
      does not follow (Implicit.ImplicitHeap.MmMalloc does). */
  function MallocAsWritten(h: Heap, size: nat, fuel: nat): (r: Option<Out>)
    ensures r.Some? && r.value.bp != 0 ==> size > 0 && r.value.heap.lastFitp == r.value.bp &&
                                           AllocAt(r.value.heap.mem, Hdrp(W, r.value.bp))
  {
    if size == 0 then Some(Out(h, 0))
    else
      var asize := AdjustSize(size, DSIZE);
      match FindFitAsWritten(h, asize, fuel)
      case None => None
      case Some(f) =>
        if f.bp == 0 then Some(f)
        else Some(Out(Heap(PlaceAsWritten(h.mem, f.bp, asize), f.bp), f.bp))
  }

  /** The block mm_realloc places into on its in-place paths, as written:
      the block at ptr itself when the adjusted size fits it, or the block
      grown by PUTting its size plus its free successor's at HDRP(ptr) and
      FTRP(ptr). None when mm_realloc would have to move the block. */
  function InPlaceAsWritten(m: map<int, nat>, ptr: int, newAsize: nat): (r: Option<map<int, nat>>)
    ensures r.Some? ==> newAsize <= SizeAt(r.value, Hdrp(W, ptr))
  {
    var oldBlock := SizeAt(m, Hdrp(W, ptr));
    if newAsize <= oldBlock then Some(m)
    else
      var next := NextBlkp(m, W, ptr);
      if !AllocAt(m, Hdrp(W, next)) && oldBlock + SizeAt(m, Hdrp(W, next)) >= newAsize then
        var total := oldBlock + SizeAt(m, Hdrp(W, next));
        var m1 := m[Hdrp(W, ptr) := Pack(total, true)];
        assert SizeAt(m1, Hdrp(W, ptr)) == total by { AlignedTotal(oldBlock, SizeAt(m, Hdrp(W, next))); }
        var m2 := m1[Ftrp(m1, W, ptr) := Pack(total, true)];
        assert Ftrp(m1, W, ptr) != Hdrp(W, ptr) || SizeAt(m2, Hdrp(W, ptr)) == total;
        Some(m2)
      else
        None
  }

  /** A sum of two aligned sizes packs and unpacks to itself. */
  lemma AlignedTotal(x: nat, y: nat)
    requires x % DSIZE == 0 && y % DSIZE == 0
    ensures GetSize(Pack(x + y, true), DSIZE) == x + y
  {
    PackRoundTrip(x + y, true, DSIZE);
  }

  /** mm_realloc(ptr, size) as written, on its two in-place paths for a
      positive size: place(ptr, new_asize) in the block InPlaceAsWritten
      gives. None when mm_realloc would have to move the block instead.
      Neither path touches last_fitp. */
  function ReallocInPlaceAsWritten(h: Heap, ptr: int, size: nat): (r: Option<Heap>)
    requires size > 0
    ensures r.Some? ==> r.value.lastFitp == h.lastFitp && AllocAt(r.value.mem, Hdrp(W, ptr))
  {
    var newAsize := AdjustSize(size, DSIZE);
    match InPlaceAsWritten(h.mem, ptr, newAsize)
    case None => None
    case Some(m) => Some(h.(mem := PlaceAsWritten(m, ptr, newAsize)))
  }

  /** A run one block longer: the block b at header address a, then the
      run rest, with the tiling, the size rules and the total. */
  lemma RunOn(m: map<int, nat>, a: int, b: Blk, rest: seq<Blk>)
    requires Word(m, a) == Tag(b) && Word(m, a + b.size - W) == Tag(b)
    requires Tiled(m, W, a + b.size, rest) && Sized(W, rest) && Aligned(W, rest)
    requires b.size >= 4 * W && b.size % DSIZE == 0
    ensures Tiled(m, W, a, [b] + rest) && Sized(W, [b] + rest) && Aligned(W, [b] + rest)
    ensures Sum([b] + rest) == b.size + Sum(rest)
  {
    assert ([b] + rest)[1..] == rest;
  }

  /** Five blocks, 16 bytes each but the last of 32: free, allocated,
      free, allocated, free, with last_fitp on the third (payload 48). */
  const BLOCKS1: seq<Blk> := [Blk(16, false), Blk(16, true), Blk(16, false), Blk(16, true), Blk(32, false)]
  const MEM1: map<int, nat> :=
    map[0 := 0, 4 := 9, 8 := 9,
        12 := 16, 24 := 16, 28 := 17, 40 := 17, 44 := 16, 56 := 16,
        60 := 17, 72 := 17, 76 := 32, 104 := 32, 108 := 1]
  /** mm_free(32)'s two PUTs, before coalesce. */
  const MEM1A: map<int, nat> := MEM1[28 := 16][40 := 16]
  /** After mm_free(32): one free block of 48 bytes at payload 16. */
  const MEM1B: map<int, nat> := MEM1A[12 := 48][56 := 48]
  /** mm_free(64)'s two PUTs, before coalesce. */
  const MEM1B2: map<int, nat> := MEM1B[60 := 16][72 := 16]
  /** After mm_free(64): one free block of 96 bytes at payload 16. */
  const MEM1C: map<int, nat> := MEM1B2[12 := 96][104 := 96]
  /** After mm_malloc(8): the stale block at 64 marked allocated. */
  const MEM1D: map<int, nat> := MEM1C[60 := 17][72 := 17]

  /** The run of BLOCKS1 from block k on, at header address a, tiled in
      MEM1 and keeping the size rules. */
  ghost predicate Run1From(k: nat, a: int)
    requires k <= |BLOCKS1|
  {
    Tiled(MEM1, W, a, BLOCKS1[k..]) && Sized(W, BLOCKS1[k..]) && Aligned(W, BLOCKS1[k..])
  }

  lemma Run1Step(k: nat, a: int)
    requires k < |BLOCKS1| && Run1From(k + 1, a + BLOCKS1[k].size)
    requires Word(MEM1, a) == Tag(BLOCKS1[k]) && Word(MEM1, a + BLOCKS1[k].size - W) == Tag(BLOCKS1[k])
    requires BLOCKS1[k].size >= 4 * W && BLOCKS1[k].size % DSIZE == 0
    ensures Run1From(k, a) && Sum(BLOCKS1[k..]) == BLOCKS1[k].size + Sum(BLOCKS1[k + 1..])
  {
    assert BLOCKS1[k..] == [BLOCKS1[k]] + BLOCKS1[k + 1..];
    RunOn(MEM1, a, BLOCKS1[k], BLOCKS1[k + 1..]);
  }

  lemma Run1Tail()
    ensures Run1From(3, 60) && Sum(BLOCKS1[3..]) == 48
  {
    assert BLOCKS1[5..] == [];
    Run1Step(4, 76);
    Run1Step(3, 60);
  }

  lemma Run1()
    ensures Tiled(MEM1, W, 12, BLOCKS1) && Sized(W, BLOCKS1) && Aligned(W, BLOCKS1) && Sum(BLOCKS1) == 96
  {
    Run1Tail();
    Run1Step(2, 44);
    Run1Step(1, 28);
    Run1Step(0, 12);
    assert BLOCKS1[0..] == BLOCKS1;
  }

  /** The arena's shape from its parts: the padding and prologue words,
      the run of blocks from address 12 and the epilogue word. */
  lemma ShapedOf(m: map<int, nat>, brk: int, bs: seq<Blk>)
    requires Word(m, 0) == 0 && Word(m, 4) == 9 && Word(m, 8) == 9 && Word(m, brk - 4) == 1
    requires Tiled(m, W, 12, bs) && Sized(W, bs) && Aligned(W, bs) && brk == 16 + Sum(bs)
    ensures Shaped(m, W, brk, bs)
  {
  }

  lemma Sentinels1()
    ensures Word(MEM1, 0) == 0 && Word(MEM1, 4) == 9 && Word(MEM1, 8) == 9 && Word(MEM1, 108) == 1
  {
  }

  lemma Shaped1()
    ensures Shaped(MEM1, W, 112, BLOCKS1) && BlockPtr(W, BLOCKS1, 2) == 48
  {
    Run1();
    Sentinels1();
    ShapedOf(MEM1, 112, BLOCKS1);
    assert BLOCKS1[..2] == [Blk(16, false), Blk(16, true)];
  }

  lemma FreeFirstPuts()
    ensures FreeAsWritten(Heap(MEM1, 48), 32) == CoalesceAsWritten(Heap(MEM1A, 48), 32)
  {
    assert SizeAt(MEM1, 28) == 16;
    assert Ftrp(MEM1[28 := 16], W, 32) == 40;
  }

  lemma FreeFirstReads()
    ensures PrevBlkp(MEM1A, W, 32) == 16 && Ftrp(MEM1A, W, 16) == 24 && !AllocAt(MEM1A, 24)
    ensures NextBlkp(MEM1A, W, 32) == 48 && !AllocAt(MEM1A, 44)
    ensures SizeAt(MEM1A, 28) == 16 && SizeAt(MEM1A, 12) == 16
    ensures Ftrp(MEM1A, W, 48) == 56 && SizeAt(MEM1A, 56) == 16
  {
  }

  lemma FreeFirstWrites()
    ensures NextBlkp(MEM1A[12 := 48], W, 32) == 48 && Ftrp(MEM1A[12 := 48], W, 48) == 56
    ensures PrevBlkp(MEM1B, W, 32) == 16
  {
  }

  lemma FreeFirst()
    ensures FreeAsWritten(Heap(MEM1, 48), 32) == Out(Heap(MEM1B, 48), 16)
  {
    FreeFirstPuts();
    FreeFirstReads();
    FreeFirstWrites();
  }

  lemma FreeSecondPuts()
    ensures FreeAsWritten(Heap(MEM1B, 48), 64) == CoalesceAsWritten(Heap(MEM1B2, 48), 64)
  {
    assert SizeAt(MEM1B, 60) == 16;
    assert Ftrp(MEM1B[60 := 16], W, 64) == 72;
  }

  lemma FreeSecondReads()
    ensures PrevBlkp(MEM1B2, W, 64) == 16 && Ftrp(MEM1B2, W, 16) == 56 && !AllocAt(MEM1B2, 56)
    ensures NextBlkp(MEM1B2, W, 64) == 80 && !AllocAt(MEM1B2, 76)
    ensures SizeAt(MEM1B2, 60) == 16 && SizeAt(MEM1B2, 12) == 48
    ensures Ftrp(MEM1B2, W, 80) == 104 && SizeAt(MEM1B2, 104) == 32
  {
  }

  lemma FreeSecondWrites()
    ensures NextBlkp(MEM1B2[12 := 96], W, 64) == 80 && Ftrp(MEM1B2[12 := 96], W, 80) == 104
    ensures PrevBlkp(MEM1C, W, 64) == 16
  {
  }

  lemma FreeSecond()
    ensures FreeAsWritten(Heap(MEM1B, 48), 64) == Out(Heap(MEM1C, 48), 16)
  {
    FreeSecondPuts();
    FreeSecondReads();
    FreeSecondWrites();
  }

  lemma Shaped1C()
    ensures Shaped(MEM1C, W, 112, [Blk(96, false)])
  {
    RunOn(MEM1C, 12, Blk(96, false), []);
    assert [Blk(96, false)] + [] == [Blk(96, false)];
  }

  lemma ScanFromStale()
    ensures NextBlkp(MEM1C, W, 48) == 64 && ScanToEnd(MEM1C, 64, 16, 4) == Some(64)
  {
    assert SizeAt(MEM1C, 44) == 16 && Word(MEM1C, 60) == 16;
  }

  lemma PlaceStale()
    ensures PlaceAsWritten(MEM1C, 64, 16) == MEM1D
  {
    assert SizeAt(MEM1C, 60) == 16;
    assert Ftrp(MEM1C[60 := 17], W, 64) == 72;
  }

  lemma MallocStale()
    ensures MallocAsWritten(Heap(MEM1C, 48), 8, 4) == Some(Out(Heap(MEM1D, 64), 64))
  {
    assert AdjustSize(8, DSIZE) == 16;
    ScanFromStale();
    PlaceStale();
  }

  lemma ScanEndAfterStale()
    ensures NextBlkp(MEM1D, W, 64) == 80 && ScanToEnd(MEM1D, 80, 96, 4) == Some(0)
  {
    assert NextBlkp(MEM1D, W, 80) == 112 && Word(MEM1D, 108) == 1;
  }

  lemma HeaderWords1D()
    ensures Word(MEM1D, 4) == 9 && Word(MEM1D, 12) == 96
  {
  }

  lemma PrologueMisses()
    ensures !FitsAt(MEM1D, 8, 96) && NextBlkp(MEM1D, W, 8) == 16
  {
    HeaderWords1D();
  }

  lemma WholeFits()
    ensures ScanToStop(MEM1D, 16, 64, 96, 3) == Some(16)
  {
    HeaderWords1D();
  }

  lemma ScanWrapToWhole()
    ensures ScanToStop(MEM1D, 8, 64, 96, 4) == Some(16)
  {
    PrologueMisses();
    WholeFits();
  }

  lemma PlaceWhole()
    ensures PlaceAsWritten(MEM1D, 16, 96) == MEM1D[12 := 97][104 := 97]
  {
    assert SizeAt(MEM1D, 12) == 96;
    assert Ftrp(MEM1D[12 := 97], W, 16) == 104;
  }

  lemma MallocWhole()
    ensures MallocAsWritten(Heap(MEM1D, 64), 88, 4) == Some(Out(Heap(MEM1D[12 := 97][104 := 97], 16), 16))
  {
    assert AdjustSize(88, DSIZE) == 96;
    ScanEndAfterStale();
    ScanWrapToWhole();
    PlaceWhole();
  }

  /** Freeing the payloads 32 and 64 merges everything into one free block
      of 96 bytes (coalesce case 4 twice), but last_fitp stays at 48, and
      the stale header at 44 still reads a free block of 16 bytes.
      mm_malloc(8) then starts its scan there and returns 64, inside the
      free block; mm_malloc(88) next finds the whole 96-byte block free and
      returns 16, so the two live payloads overlap. */
  lemma StaleRoverOverlaps()
    ensures Shaped(MEM1, W, 112, BLOCKS1) && BlockPtr(W, BLOCKS1, 2) == 48
    ensures var h1 := FreeAsWritten(Heap(MEM1, 48), 32).heap;
            var h2 := FreeAsWritten(h1, 64).heap;
            Shaped(h2.mem, W, 112, [Blk(96, false)]) && h2.lastFitp == 48 &&
            var a := MallocAsWritten(h2, 8, 4);
            a.Some? && a.value.bp == 64 &&
            var b := MallocAsWritten(a.value.heap, 88, 4);
            b.Some? && b.value.bp == 16 &&
            b.value.bp < a.value.bp && a.value.bp + 8 <= b.value.bp + 96 - DSIZE
  {
    Shaped1();
    FreeFirst();
    FreeSecond();
    Shaped1C();
    MallocStale();
    MallocWhole();
  }

  /** An allocated block of 16 bytes followed by a free one of 32, with
      last_fitp on the free one (payload 32). */
  const BLOCKS2: seq<Blk> := [Blk(16, true), Blk(32, false)]
  const MEM2: map<int, nat> :=
    map[0 := 0, 4 := 9, 8 := 9, 12 := 17, 24 := 17, 28 := 32, 56 := 32, 60 := 1]
  /** mm_realloc's two PUTs of the merged size, before place. */
  const MEM2A: map<int, nat> := MEM2[12 := 49][56 := 49]
  /** After mm_realloc(16, 16): the merged 48 bytes, split into an
      allocated block of 24 and a free block of 24 at payload 40. */
  const MEM2B: map<int, nat> := MEM2A[12 := 25][32 := 25][36 := 24][56 := 24]

  lemma Shaped2()
    ensures Shaped(MEM2, W, 64, BLOCKS2) && BlockPtr(W, BLOCKS2, 1) == 32
  {
    RunOn(MEM2, 28, Blk(32, false), []);
    RunOn(MEM2, 12, Blk(16, true), [Blk(32, false)]);
    assert BLOCKS2 == [Blk(16, true)] + [Blk(32, false)];
    assert BLOCKS2[..1] == [Blk(16, true)];
  }

  lemma Shaped2B()
    ensures Shaped(MEM2B, W, 64, [Blk(24, true), Blk(24, false)])
  {
    RunOn(MEM2B, 36, Blk(24, false), []);
    RunOn(MEM2B, 12, Blk(24, true), [Blk(24, false)]);
    assert [Blk(24, false)] + [] == [Blk(24, false)];
  }

  lemma GrowReads()
    ensures SizeAt(MEM2, 12) == 16 && NextBlkp(MEM2, W, 16) == 32
    ensures !AllocAt(MEM2, 28) && SizeAt(MEM2, 28) == 32
    ensures Ftrp(MEM2[12 := 49], W, 16) == 56
  {
  }

  lemma GrowPlace()
    ensures PlaceAsWritten(MEM2A, 16, 24) == MEM2B
  {
    assert SizeAt(MEM2A, 12) == 48;
    assert Ftrp(MEM2A[12 := 25], W, 16) == 32;
    assert NextBlkp(MEM2A[12 := 25][32 := 25], W, 16) == 40;
    assert Ftrp(MEM2A[12 := 25][32 := 25][36 := 24], W, 40) == 56;
  }

  lemma GrowPath()
    ensures InPlaceAsWritten(MEM2, 16, 24) == Some(MEM2A)
  {
    GrowReads();
  }

  lemma GrowStale()
    ensures ReallocInPlaceAsWritten(Heap(MEM2, 32), 16, 16) == Some(Heap(MEM2B, 32))
  {
    assert AdjustSize(16, DSIZE) == 24;
    GrowPath();
    GrowPlace();
  }

  lemma EndAfterStale()
    ensures NextBlkp(MEM2B, W, 32) == 64 && ScanToEnd(MEM2B, 64, 16, 4) == Some(0)
  {
    assert Word(MEM2B, 28) == 32 && Word(MEM2B, 60) == 1;
  }

  lemma WrapBelowStale()
    ensures ScanToStop(MEM2B, 8, 32, 16, 4) == Some(0)
  {
    assert Word(MEM2B, 4) == 9 && NextBlkp(MEM2B, W, 8) == 16;
    assert Word(MEM2B, 12) == 25 && NextBlkp(MEM2B, W, 16) == 40;
  }

  lemma MissAfterGrow()
    ensures FindFitAsWritten(Heap(MEM2B, 32), 16, 4) == Some(Out(Heap(MEM2B, 32), 0))
  {
    EndAfterStale();
    WrapBelowStale();
  }

  /** mm_realloc(16, 16) grows the first block into the second (24 bytes
      needed) and splits the 48 bytes into an allocated 24 and a free 24 at
      payload 40. last_fitp stays at 32, inside the allocated block; the
      next find_fit(16) steps from its stale header straight to the
      epilogue, wraps around below 32 and returns NULL, although the free
      24-byte block fits. */
  lemma StaleRoverMisses()
    ensures Shaped(MEM2, W, 64, BLOCKS2) && BlockPtr(W, BLOCKS2, 1) == 32
    ensures var h1 := ReallocInPlaceAsWritten(Heap(MEM2, 32), 16, 16);
            h1.Some? && h1.value.lastFitp == 32 &&
            Shaped(h1.value.mem, W, 64, [Blk(24, true), Blk(24, false)]) &&
            FitsAt(h1.value.mem, 40, 16) &&
            FindFitAsWritten(h1.value, 16, 4) == Some(Out(h1.value, 0))
  {
    Shaped2();
    GrowStale();
    Shaped2B();
    assert FitsAt(MEM2B, 40, 16);
    MissAfterGrow();
  }
}
