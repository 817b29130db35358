/** find_size_class of the two segregated-list allocators. Both keep
    NUM_CLASSES = 10 free lists; a block of size bytes goes on the list of
    the first class whose upper bound is at least size, and class 9 takes
    every size above the last bound. mm.c bounds the classes by
    32, 64, ..., 8192 and mm_seg.c by 9, 16, 32, ..., 2048. */
module SizeClass {
  const NUM_CLASSES: nat := 10

  /** Which allocator: mm.c searches its lists best-fit, mm_seg.c
      first-fit; the two also differ in their class bounds and in how
      coalesce tells a neighbour is allocated. */
  datatype Variant = BestFit | FirstFit

  /** The upper bounds of classes 0 to 8. */
  function Bounds(v: Variant): (b: seq<nat>)
    ensures |b| == NUM_CLASSES - 1
  {
    match v
    case BestFit => [32, 64, 128, 256, 512, 1024, 2048, 4096, 8192]
    case FirstFit => [9, 16, 32, 64, 128, 256, 512, 1024, 2048]
  }

  /** The bounds rise, so each size falls in exactly one class. */
  lemma BoundsRise(v: Variant, i: nat, j: nat)
    requires i <= j < NUM_CLASSES - 1
    ensures Bounds(v)[i] <= Bounds(v)[j]
  {
  }

  /** find_size_class in mm.c. */
  function MmSizeClass(size: nat): (c: nat)
    ensures c < NUM_CLASSES
    ensures c == 0 || Bounds(BestFit)[c - 1] < size
    ensures c == NUM_CLASSES - 1 || size <= Bounds(BestFit)[c]
  {
    if size <= 32 then 0
    else if size <= 64 then 1
    else if size <= 128 then 2
    else if size <= 256 then 3
    else if size <= 512 then 4
    else if size <= 1024 then 5
    else if size <= 2048 then 6
    else if size <= 4096 then 7
    else if size <= 8192 then 8
    else 9
  }

  /** find_size_class in mm_seg.c. */
  function SegSizeClass(size: nat): (c: nat)
    ensures c < NUM_CLASSES
    ensures c == 0 || Bounds(FirstFit)[c - 1] < size
    ensures c == NUM_CLASSES - 1 || size <= Bounds(FirstFit)[c]
  {
    if size <= 9 then 0
    else if size <= 16 then 1
    else if size <= 32 then 2
    else if size <= 64 then 3
    else if size <= 128 then 4
    else if size <= 256 then 5
    else if size <= 512 then 6
    else if size <= 1024 then 7
    else if size <= 2048 then 8
    else 9
  }

  /** find_size_class of either allocator: the class whose interval holds
      size, above the bound of the class below it and at most its own. */
  function SizeClassOf(v: Variant, size: nat): (c: nat)
    ensures c < NUM_CLASSES
    ensures c == 0 || Bounds(v)[c - 1] < size
    ensures c == NUM_CLASSES - 1 || size <= Bounds(v)[c]
  {
    match v
    case BestFit => MmSizeClass(size)
    case FirstFit => SegSizeClass(size)
  }

  /** Any class whose interval holds size is the class of size. */
  lemma SizeClassUnique(v: Variant, size: nat, c: nat)
    requires c < NUM_CLASSES
    requires c == 0 || Bounds(v)[c - 1] < size
    requires c == NUM_CLASSES - 1 || size <= Bounds(v)[c]
    ensures SizeClassOf(v, size) == c
  {
    var d := SizeClassOf(v, size);
    if d < c {
      BoundsRise(v, d, c - 1);
    } else if c < d {
      BoundsRise(v, c, d - 1);
    }
  }

  /** find_size_class never decreases as the size grows: a block large
      enough for a request is never in a class below the request's. */
  lemma SizeClassMonotone(v: Variant, x: nat, y: nat)
    requires x <= y
    ensures SizeClassOf(v, x) <= SizeClassOf(v, y)
  {
    var cx, cy := SizeClassOf(v, x), SizeClassOf(v, y);
    if cy < cx {
      BoundsRise(v, cy, cx - 1);
    }
  }

  /** mm_seg.c asks for classes of adjusted sizes only, which are at least
      32 bytes: they never fall in its classes 0 and 1. */
  lemma SegRequestClass(asize: nat)
    requires asize >= 32
    ensures SegSizeClass(asize) >= 2
  {
  }
}
