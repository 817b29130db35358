/** find_fit of the segregated allocators, as a search over the abstract
    free lists: starting at the class of the request, each list is searched
    in turn, and the first list that holds a block of at least asize bytes
    supplies the answer. mm.c takes from that list the first block of the
    smallest fitting size (best fit), mm_seg.c the first fitting block
    (first fit). fm maps each free payload to its block size. */
module Fit {
  import opened SizeClass
  import opened FreeLists

  /** Every node of s is a free payload. */
  ghost predicate Known(s: seq<nat>, fm: map<int, nat>) {
    forall k | 0 <= k < |s| :: s[k] in fm
  }

  /** The first node at or after i whose block holds asize bytes, or -1. */
  function FirstFrom(s: seq<nat>, fm: map<int, nat>, asize: nat, i: nat): (k: int)
    requires Known(s, fm) && i <= |s|
    ensures k == -1 <==> forall j | i <= j < |s| :: fm[s[j]] < asize
    ensures k != -1 ==> i <= k < |s| && fm[s[k]] >= asize && forall j | i <= j < k :: fm[s[j]] < asize
    decreases |s| - i
  {
    if i == |s| then -1
    else if fm[s[i]] >= asize then i
    else FirstFrom(s, fm, asize, i + 1)
  }

  /** Among the nodes at or after i that fit, the first of the smallest
      size, or -1 when none fits. */
  function BestFrom(s: seq<nat>, fm: map<int, nat>, asize: nat, i: nat): (k: int)
    requires Known(s, fm) && i <= |s|
    ensures k == -1 <==> forall j | i <= j < |s| :: fm[s[j]] < asize
    ensures k != -1 ==> i <= k < |s| && fm[s[k]] >= asize &&
                        (forall j | i <= j < |s| && fm[s[j]] >= asize :: fm[s[k]] <= fm[s[j]]) &&
                        (forall j | i <= j < k && fm[s[j]] >= asize :: fm[s[k]] < fm[s[j]])
    decreases |s| - i
  {
    if i == |s| then -1
    else
      var r := BestFrom(s, fm, asize, i + 1);
      if fm[s[i]] >= asize && (r == -1 || fm[s[i]] <= fm[s[r]]) then i else r
  }

  /** k is the first node of s of the smallest size that fits. */
  ghost predicate IsBest(s: seq<nat>, fm: map<int, nat>, asize: nat, k: int)
    requires Known(s, fm)
  {
    0 <= k < |s| && fm[s[k]] >= asize &&
    (forall j | 0 <= j < |s| && fm[s[j]] >= asize :: fm[s[k]] <= fm[s[j]]) &&
    (forall j | 0 <= j < k && fm[s[j]] >= asize :: fm[s[k]] < fm[s[j]])
  }

  /** Only one node is the first of the smallest fitting size. */
  lemma BestUnique(s: seq<nat>, fm: map<int, nat>, asize: nat, k: int)
    requires Known(s, fm) && IsBest(s, fm, asize, k)
    ensures BestFrom(s, fm, asize, 0) == k
  {
    var b := BestFrom(s, fm, asize, 0);
    assert fm[s[b]] == fm[s[k]];
  }

  /** The node find_fit takes from one list, -1 for none. */
  function Pick(v: Variant, s: seq<nat>, fm: map<int, nat>, asize: nat): (k: int)
    requires Known(s, fm)
    ensures k == -1 <==> forall j | 0 <= j < |s| :: fm[s[j]] < asize
    ensures k != -1 ==> 0 <= k < |s| && fm[s[k]] >= asize
  {
    match v
    case BestFit => BestFrom(s, fm, asize, 0)
    case FirstFit => FirstFrom(s, fm, asize, 0)
  }

  ghost predicate AllKnown(free: seq<seq<nat>>, fm: map<int, nat>) {
    forall c | 0 <= c < |free| :: Known(free[c], fm)
  }

  /** The lists from class c on, searched in order: the node picked from
      the first list that has a fit, or NULL (0). */
  ghost function Search(v: Variant, free: seq<seq<nat>>, fm: map<int, nat>, asize: nat, c: nat): (p: nat)
    requires AllKnown(free, fm)
    ensures p != 0 ==> p in fm && fm[p] >= asize
    decreases |free| - c
  {
    if c >= |free| then 0
    else
      var k := Pick(v, free[c], fm, asize);
      if k != -1 then free[c][k] else Search(v, free, fm, asize, c + 1)
  }

  /** find_fit(asize): the search starts at the request's own class. */
  ghost function FindFit(v: Variant, free: seq<seq<nat>>, fm: map<int, nat>, asize: nat): nat
    requires AllKnown(free, fm)
  {
    Search(v, free, fm, asize, SizeClassOf(v, asize))
  }

  /** No node is NULL. */
  ghost predicate Positive(free: seq<seq<nat>>) {
    forall c, k | 0 <= c < |free| && 0 <= k < |free[c]| :: free[c][k] > 0
  }

  lemma FiledKnown(v: Variant, free: seq<seq<nat>>, fm: map<int, nat>)
    requires Filed(v, free, fm)
    ensures AllKnown(free, fm) && Positive(free)
  {
    forall c, k | 0 <= c < |free| && 0 <= k < |free[c]| ensures free[c][k] in fm && free[c][k] > 0 {
      assert Node(v, fm, c, free[c][k]);
    }
  }

  /** The search from class c finds nothing exactly when no list from c
      on holds a node that fits. */
  lemma {:induction false} SearchNone(v: Variant, free: seq<seq<nat>>, fm: map<int, nat>, asize: nat, c: nat)
    requires AllKnown(free, fm) && Positive(free)
    ensures Search(v, free, fm, asize, c) == 0 <==>
            forall e, j | c <= e < |free| && 0 <= j < |free[e]| :: fm[free[e][j]] < asize
    decreases |free| - c
  {
    if c < |free| {
      var kc := Pick(v, free[c], fm, asize);
      if kc == -1 {
        SearchNone(v, free, fm, asize, c + 1);
      } else {
        assert free[c][kc] > 0;
      }
    }
  }

  /** Where a search from class c that finds a node stops: list d, at the
      node Pick chooses there, with no fit on any list in between. */
  lemma {:induction false} SearchHit(v: Variant, free: seq<seq<nat>>, fm: map<int, nat>, asize: nat, c: nat)
      returns (d: nat, k: nat)
    requires AllKnown(free, fm) && Search(v, free, fm, asize, c) != 0
    ensures c <= d < |free| && k < |free[d]| && Pick(v, free[d], fm, asize) == k
    ensures free[d][k] == Search(v, free, fm, asize, c)
    ensures forall e, j | c <= e < d && 0 <= j < |free[e]| :: fm[free[e][j]] < asize
    decreases |free| - c
  {
    var kc := Pick(v, free[c], fm, asize);
    if kc != -1 {
      d, k := c, kc;
    } else {
      d, k := SearchHit(v, free, fm, asize, c + 1);
    }
  }

  /** A free block of at least asize bytes is never in a class below the
      request's: it is on the list of its own class, which is at least
      the request's. */
  lemma FitClass(v: Variant, free: seq<seq<nat>>, fm: map<int, nat>, asize: nat, p: int)
      returns (e: nat, j: nat)
    requires Filed(v, free, fm) && p in Members(free) && fm[p] >= asize
    ensures e < |free| && j < |free[e]| && free[e][j] == p && e == SizeClassOf(v, fm[p])
    ensures SizeClassOf(v, asize) <= e
  {
    e, j := Locate(v, free, fm, p);
    SizeClassMonotone(v, asize, fm[p]);
  }

  /** find_fit returns NULL exactly when no free block holds asize
      bytes, and otherwise a free block that does. */
  lemma FindFitFound(v: Variant, free: seq<seq<nat>>, fm: map<int, nat>, asize: nat)
    requires Filed(v, free, fm) && Members(free) == fm.Keys
    ensures AllKnown(free, fm)
    ensures var p := FindFit(v, free, fm, asize);
            (p == 0 <==> forall q | q in fm :: fm[q] < asize) &&
            (p != 0 ==> p in fm && fm[p] >= asize)
  {
    FiledKnown(v, free, fm);
    var c := SizeClassOf(v, asize);
    SearchNone(v, free, fm, asize, c);
    var p := Search(v, free, fm, asize, c);
    if p != 0 {
      var d, k := SearchHit(v, free, fm, asize, c);
    }
    forall q | q in fm && fm[q] >= asize ensures p != 0 {
      var e, j := FitClass(v, free, fm, asize, q);
    }
  }

  /** mm.c's best fit: the block returned is, among all free blocks that
      fit, the smallest of every class up to its own, and the first of
      that size on its list. */
  lemma BestFitChoice(free: seq<seq<nat>>, fm: map<int, nat>, asize: nat)
      returns (d: nat, k: nat)
    requires Filed(BestFit, free, fm) && Members(free) == fm.Keys
    ensures AllKnown(free, fm)
    ensures var p := FindFit(BestFit, free, fm, asize);
            p != 0 ==> d < |free| && k < |free[d]| && free[d][k] == p && IsBest(free[d], fm, asize, k) &&
                       d == SizeClassOf(BestFit, fm[p]) &&
                       forall q | q in fm && fm[q] >= asize && SizeClassOf(BestFit, fm[q]) <= d :: fm[p] <= fm[q]
  {
    FiledKnown(BestFit, free, fm);
    var c := SizeClassOf(BestFit, asize);
    var p := Search(BestFit, free, fm, asize, c);
    d, k := 0, 0;
    if p != 0 {
      d, k := SearchHit(BestFit, free, fm, asize, c);
      assert Node(BestFit, fm, d, free[d][k]);
      forall q | q in fm && fm[q] >= asize && SizeClassOf(BestFit, fm[q]) <= d ensures fm[p] <= fm[q] {
        var e, j := FitClass(BestFit, free, fm, asize, q);
        assert e == d;
      }
    }
  }

  /** mm_seg.c's first fit: the block returned fits, no free block of a
      lower class fits, and no node before it on its list fits. */
  lemma FirstFitChoice(free: seq<seq<nat>>, fm: map<int, nat>, asize: nat)
      returns (d: nat, k: nat)
    requires Filed(FirstFit, free, fm) && Members(free) == fm.Keys
    ensures AllKnown(free, fm)
    ensures var p := FindFit(FirstFit, free, fm, asize);
            p != 0 ==> d < |free| && k < |free[d]| && free[d][k] == p && fm[p] >= asize &&
                       d == SizeClassOf(FirstFit, fm[p]) &&
                       (forall j | 0 <= j < k :: fm[free[d][j]] < asize) &&
                       forall q | q in fm && fm[q] >= asize :: d <= SizeClassOf(FirstFit, fm[q])
  {
    FiledKnown(FirstFit, free, fm);
    var c := SizeClassOf(FirstFit, asize);
    var p := Search(FirstFit, free, fm, asize, c);
    d, k := 0, 0;
    if p != 0 {
      d, k := SearchHit(FirstFit, free, fm, asize, c);
      assert Node(FirstFit, fm, d, free[d][k]);
      forall q | q in fm && fm[q] >= asize ensures d <= SizeClassOf(FirstFit, fm[q]) {
        var e, j := FitClass(FirstFit, free, fm, asize, q);
        assert !(c <= e < d);
      }
    }
  }

  /** Best fit read front to back, as mm.c's loop reads a list: among the
      first n nodes, the first of the smallest fitting size, or -1. A later
      node replaces the best so far only when strictly smaller. */
  function BestUpTo(s: seq<nat>, fm: map<int, nat>, asize: nat, n: nat): (k: int)
    requires Known(s, fm) && n <= |s|
    ensures k == -1 <==> forall j | 0 <= j < n :: fm[s[j]] < asize
    ensures k != -1 ==> 0 <= k < n && fm[s[k]] >= asize &&
                        (forall j | 0 <= j < n && fm[s[j]] >= asize :: fm[s[k]] <= fm[s[j]]) &&
                        (forall j | 0 <= j < k && fm[s[j]] >= asize :: fm[s[k]] < fm[s[j]])
  {
    if n == 0 then -1
    else
      var b := BestUpTo(s, fm, asize, n - 1);
      if fm[s[n - 1]] >= asize && (b == -1 || fm[s[n - 1]] < fm[s[b]]) then n - 1 else b
  }

  /** One more node read: it becomes the best when it fits and is strictly
      smaller than the best so far. */
  lemma BestStep(s: seq<nat>, fm: map<int, nat>, asize: nat, n: nat)
    requires Known(s, fm) && n < |s|
    ensures var b := BestUpTo(s, fm, asize, n);
            BestUpTo(s, fm, asize, n + 1) == if fm[s[n]] >= asize && (b == -1 || fm[s[n]] < fm[s[b]]) then n else b
  {
  }

  /** Reading front to back and back to front pick the same node. */
  lemma BestForward(s: seq<nat>, fm: map<int, nat>, asize: nat)
    requires Known(s, fm)
    ensures BestUpTo(s, fm, asize, |s|) == BestFrom(s, fm, asize, 0)
  {
    var k := BestUpTo(s, fm, asize, |s|);
    if k != -1 {
      BestUnique(s, fm, asize, k);
    }
  }

  /** A node of exactly asize bytes with no such node before it is the
      best fit: nothing that fits is smaller. */
  lemma ExactBest(s: seq<nat>, fm: map<int, nat>, asize: nat, k: nat)
    requires Known(s, fm) && k < |s| && fm[s[k]] == asize
    requires var b := BestUpTo(s, fm, asize, k); b == -1 || fm[s[b]] != asize
    ensures BestFrom(s, fm, asize, 0) == k
  {
    var b := BestUpTo(s, fm, asize, k);
    assert forall j | 0 <= j < k :: fm[s[j]] != asize;
    BestUnique(s, fm, asize, k);
  }
}
