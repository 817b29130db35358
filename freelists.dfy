/** The segregated free lists of mm.c and mm_seg.c. segregated_free_lists
    holds one head pointer per size class; each list is doubly linked
    through the first two payload words of its blocks, PRED(bp) at bp and
    SUCC(bp) at bp + WSIZE, with NULL (0) at both ends.

    The lists are abstracted as a sequence of NUM_CLASSES sequences of
    payload pointers, head first. Lists says that they are laid out in the
    arena's words and the head array as the C code expects, that every
    node is a free block of the list's class, and that no pointer is on a
    list twice. */
module FreeLists {
  import opened Layout
  import opened SizeClass

  const WSIZE: nat := 8
  const DSIZE: nat := 16

  function Head(s: seq<nat>): nat {
    if s == [] then 0 else s[0]
  }

  /** What PRED of the k-th node must read: the node before it, or NULL. */
  function PredOf(s: seq<nat>, k: nat): nat
    requires k < |s|
  {
    if k == 0 then 0 else s[k - 1]
  }

  /** What SUCC of the k-th node must read: the node after it, or NULL. */
  function SuccOf(s: seq<nat>, k: nat): nat
    requires k < |s|
  {
    if k + 1 == |s| then 0 else s[k + 1]
  }

  /** Every pointer on some list. */
  ghost function Members(free: seq<seq<nat>>): set<nat> {
    set c, k | 0 <= c < |free| && 0 <= k < |free[c]| :: free[c][k]
  }

  /** p may stand on list c: it is the payload of a free block (a key of
      fm, the free blocks by payload) whose size is of class c, and a
      nonzero multiple of DSIZE. */
  ghost predicate Node(v: Variant, fm: map<int, nat>, c: nat, p: int) {
    p in fm && SizeClassOf(v, fm[p]) == c && p > 0 && p % DSIZE == 0
  }

  ghost predicate Filed(v: Variant, free: seq<seq<nat>>, fm: map<int, nat>) {
    |free| == NUM_CLASSES &&
    forall c, k | 0 <= c < |free| && 0 <= k < |free[c]| :: Node(v, fm, c, free[c][k])
  }

  ghost predicate Distinct(free: seq<seq<nat>>) {
    forall c, k, l | 0 <= c < |free| && 0 <= k < l < |free[c]| :: free[c][k] != free[c][l]
  }

  /** The PRED and SUCC words of every node of s link it to its
      neighbours on s. */
  ghost predicate Chained(m: map<int, nat>, s: seq<nat>) {
    forall k {:trigger Word(m, s[k])} | 0 <= k < |s| :: Word(m, s[k]) == PredOf(s, k) && Word(m, s[k] + WSIZE) == SuccOf(s, k)
  }

  /** The head array names the first node of each list, and each list is
      chained through the arena's words. */
  ghost predicate Linked(m: map<int, nat>, heads: seq<nat>, free: seq<seq<nat>>) {
    |heads| == |free| &&
    forall c | 0 <= c < |free| :: heads[c] == Head(free[c]) && Chained(m, free[c])
  }

  ghost predicate Lists(v: Variant, m: map<int, nat>, heads: seq<nat>, free: seq<seq<nat>>, fm: map<int, nat>) {
    Filed(v, free, fm) && Distinct(free) && Linked(m, heads, free)
  }

  /** insert_node: bp becomes the head of list c. */
  function Push(free: seq<seq<nat>>, c: nat, bp: nat): (r: seq<seq<nat>>)
    requires c < |free|
    ensures |r| == |free| && r[c] == [bp] + free[c]
    ensures forall d :: 0 <= d < |free| && d != c ==> r[d] == free[d]
  {
    free[c := [bp] + free[c]]
  }

  /** remove_node: the k-th node leaves list c, the others keep their
      order. */
  function Unlink(free: seq<seq<nat>>, c: nat, k: nat): (r: seq<seq<nat>>)
    requires c < |free| && k < |free[c]|
    ensures |r| == |free| && r[c] == free[c][..k] + free[c][k + 1..]
    ensures forall d :: 0 <= d < |free| && d != c ==> r[d] == free[d]
  {
    free[c := free[c][..k] + free[c][k + 1..]]
  }

  /** Inserting a block and then removing it restores the lists. */
  lemma PushThenUnlink(free: seq<seq<nat>>, c: nat, bp: nat)
    requires c < |free|
    ensures Unlink(Push(free, c, bp), c, 0) == free
  {
    var r := Unlink(Push(free, c, bp), c, 0);
    assert ([bp] + free[c])[..0] + ([bp] + free[c])[1..] == free[c];
    assert forall d | 0 <= d < |free| :: r[d] == free[d];
  }

  /** No node is on two lists, or twice on one. */
  lemma NodeUnique(v: Variant, free: seq<seq<nat>>, fm: map<int, nat>, c: nat, k: nat, d: nat, l: nat)
    requires Filed(v, free, fm) && Distinct(free)
    requires c < |free| && k < |free[c]| && d < |free| && l < |free[d]|
    ensures free[c][k] == free[d][l] ==> c == d && k == l
  {
    assert Node(v, fm, c, free[c][k]) && Node(v, fm, d, free[d][l]);
  }

  /** Where a member is: on the list of its class. */
  lemma Locate(v: Variant, free: seq<seq<nat>>, fm: map<int, nat>, p: nat) returns (c: nat, k: nat)
    requires Filed(v, free, fm) && p in Members(free)
    ensures c < |free| && k < |free[c]| && free[c][k] == p
    ensures p in fm && c == SizeClassOf(v, fm[p]) && p > 0 && p % DSIZE == 0
  {
    var c', k' :| 0 <= c' < |free| && 0 <= k' < |free[c']| && free[c'][k'] == p;
    c, k := c', k';
    assert Node(v, fm, c, free[c][k]);
  }

  lemma MembersPush(free: seq<seq<nat>>, c: nat, bp: nat)
    requires c < |free|
    ensures Members(Push(free, c, bp)) == Members(free) + {bp}
  {
    var r := Push(free, c, bp);
    forall p | p in Members(r) ensures p in Members(free) + {bp} {
      var d, l :| 0 <= d < |r| && 0 <= l < |r[d]| && r[d][l] == p;
      if d == c && l > 0 {
        assert free[c][l - 1] == p;
      }
    }
    forall p | p in Members(free) + {bp} ensures p in Members(r) {
      if p == bp {
        assert r[c][0] == bp;
      } else {
        var d, l :| 0 <= d < |free| && 0 <= l < |free[d]| && free[d][l] == p;
        if d == c {
          assert r[c][l + 1] == p;
        } else {
          assert r[d][l] == p;
        }
      }
    }
  }

  lemma MembersUnlink(v: Variant, free: seq<seq<nat>>, fm: map<int, nat>, c: nat, k: nat)
    requires Filed(v, free, fm) && Distinct(free) && c < |free| && k < |free[c]|
    ensures Members(Unlink(free, c, k)) == Members(free) - {free[c][k]}
  {
    var r, bp := Unlink(free, c, k), free[c][k];
    forall p | p in Members(r) ensures p in Members(free) - {bp} {
      var d, l :| 0 <= d < |r| && 0 <= l < |r[d]| && r[d][l] == p;
      if d == c {
        var l' := if l < k then l else l + 1;
        assert free[c][l'] == p;
        NodeUnique(v, free, fm, c, l', c, k);
      } else {
        assert free[d][l] == p;
        NodeUnique(v, free, fm, d, l, c, k);
      }
    }
    forall p | p in Members(free) - {bp} ensures p in Members(r) {
      var d, l :| 0 <= d < |free| && 0 <= l < |free[d]| && free[d][l] == p;
      if d == c {
        if l < k {
          assert r[c][l] == p;
        } else {
          assert l != k;
          assert r[c][l - 1] == p;
        }
      } else {
        assert r[d][l] == p;
      }
    }
  }

  /** Two distinct nodes, both multiples of DSIZE, share no link word. */
  lemma LinkWordsApart(p: int, q: int)
    requires p % DSIZE == 0 && q % DSIZE == 0 && p != q
    ensures p != q + WSIZE && p + WSIZE != q && p + WSIZE != q + WSIZE
  {
  }

  /** Every list keeps its links when the words written all lie in [h, e)
      and every node's two link words lie outside it. */
  lemma LinksKept(m: map<int, nat>, m': map<int, nat>, heads: seq<nat>, free: seq<seq<nat>>, h: int, e: int)
    requires Linked(m, heads, free) && SameOutside(m, m', h, e)
    requires forall c, k | 0 <= c < |free| && 0 <= k < |free[c]| :: free[c][k] + WSIZE < h || e <= free[c][k]
    ensures Linked(m', heads, free)
  {
    forall c | 0 <= c < |free| ensures Chained(m', free[c]) {
      var s := free[c];
      assert Chained(m, s);
      forall k | 0 <= k < |s| ensures Word(m', s[k]) == PredOf(s, k) && Word(m', s[k] + WSIZE) == SuccOf(s, k) {
        assert s[k] + WSIZE < h || e <= s[k];
      }
    }
  }

  /** The lists stay filed under a new free-block map that agrees with the
      old one on every node. */
  lemma FiledFrame(v: Variant, free: seq<seq<nat>>, fm: map<int, nat>, fm': map<int, nat>)
    requires Filed(v, free, fm)
    requires forall c, k | 0 <= c < |free| && 0 <= k < |free[c]| :: free[c][k] in fm' && fm'[free[c][k]] == fm[free[c][k]]
    ensures Filed(v, free, fm')
  {
    forall c, k | 0 <= c < |free| && 0 <= k < |free[c]| ensures Node(v, fm', c, free[c][k]) {
      assert Node(v, fm, c, free[c][k]);
    }
  }

  /** The memory after insert_node(bp) on list c: SUCC(bp) takes the old
      head, PRED(bp) NULL, and the old head, if any, takes bp as PRED. */
  function PushMem(m: map<int, nat>, h: nat, bp: nat): map<int, nat> {
    var m1 := m[bp + WSIZE := h][bp := 0];
    if h != 0 then m1[h := bp] else m1
  }

  /** insert_node keeps the lists well formed, with bp at the head of the
      list of its class. */
  lemma PushLists(v: Variant, m: map<int, nat>, heads: seq<nat>, free: seq<seq<nat>>, fm: map<int, nat>, c: nat, bp: nat)
    requires Lists(v, m, heads, free, fm) && c < |free| && Node(v, fm, c, bp) && bp !in Members(free)
    ensures Lists(v, PushMem(m, heads[c], bp), heads[c := bp], Push(free, c, bp), fm)
    ensures Members(Push(free, c, bp)) == Members(free) + {bp}
  {
    var r, m2, h := Push(free, c, bp), PushMem(m, heads[c], bp), heads[c];
    forall d, k | 0 <= d < |free| && 0 <= k < |free[d]| ensures free[d][k] != bp {
      assert free[d][k] in Members(free);
    }
    PushFiled(v, free, fm, c, bp);
    forall d | 0 <= d < |r| ensures Chained(m2, r[d]) {
      ListFacts(v, free, fm, d, c);
      assert Apart(free[d], [bp]);
      if d == c {
        PushChained(m, free[c], bp);
      } else {
        PushOther(m, free[d], free[c], bp);
      }
    }
    MembersPush(free, c, bp);
  }

  lemma PushFiled(v: Variant, free: seq<seq<nat>>, fm: map<int, nat>, c: nat, bp: nat)
    requires Filed(v, free, fm) && Distinct(free) && c < |free| && Node(v, fm, c, bp)
    requires forall d, k | 0 <= d < |free| && 0 <= k < |free[d]| :: free[d][k] != bp
    ensures Filed(v, Push(free, c, bp), fm) && Distinct(Push(free, c, bp))
  {
    var r := Push(free, c, bp);
    forall d, k | 0 <= d < |r| && 0 <= k < |r[d]| ensures Node(v, fm, d, r[d][k]) {
      if d == c && k > 0 {
        assert r[d][k] == free[c][k - 1];
      }
    }
    forall d, k, l | 0 <= d < |r| && 0 <= k < l < |r[d]| ensures r[d][k] != r[d][l] {
      if d == c {
        assert r[d][l] == free[c][l - 1];
        if k > 0 {
          assert r[d][k] == free[c][k - 1];
        }
      }
    }
  }

  /** Every node of s is a nonzero multiple of DSIZE. */
  ghost predicate Spaced(s: seq<nat>) {
    forall k | 0 <= k < |s| :: s[k] > 0 && s[k] % DSIZE == 0
  }

  ghost predicate Unique(s: seq<nat>) {
    forall j, k | 0 <= j < k < |s| :: s[j] != s[k]
  }

  /** No node of s is on t. */
  ghost predicate Apart(s: seq<nat>, t: seq<nat>) {
    forall j, k | 0 <= j < |s| && 0 <= k < |t| :: s[j] != t[k]
  }

  /** What Filed and Distinct say about one list, and about two. */
  lemma ListFacts(v: Variant, free: seq<seq<nat>>, fm: map<int, nat>, c: nat, d: nat)
    requires Filed(v, free, fm) && Distinct(free) && c < |free| && d < |free|
    ensures Spaced(free[c]) && Unique(free[c])
    ensures c != d ==> Apart(free[c], free[d])
  {
    forall k | 0 <= k < |free[c]| ensures free[c][k] > 0 && free[c][k] % DSIZE == 0 {
      assert Node(v, fm, c, free[c][k]);
    }
    forall j, k | 0 <= j < |free[c]| && 0 <= k < |free[d]| && c != d ensures free[c][j] != free[d][k] {
      assert Node(v, fm, c, free[c][j]) && Node(v, fm, d, free[d][k]);
    }
  }

  lemma PushChained(m: map<int, nat>, s: seq<nat>, bp: nat)
    requires Chained(m, s) && Spaced(s) && Unique(s) && bp > 0 && bp % DSIZE == 0 && Apart(s, [bp])
    ensures Chained(PushMem(m, Head(s), bp), [bp] + s)
  {
    var m2, h := PushMem(m, Head(s), bp), Head(s);
    var s' := [bp] + s;
    if h != 0 {
      LinkWordsApart(bp, h);
    }
    forall k | 0 <= k < |s'| ensures Word(m2, s'[k]) == PredOf(s', k) && Word(m2, s'[k] + WSIZE) == SuccOf(s', k) {
      if k > 0 {
        var q := s[k - 1];
        assert q != [bp][0] && q == s'[k];
        assert Word(m, q) == PredOf(s, k - 1);
        LinkWordsApart(bp, q);
        if k > 1 {
          LinkWordsApart(h, q);
        }
      }
    }
  }

  lemma PushOther(m: map<int, nat>, s: seq<nat>, t: seq<nat>, bp: nat)
    requires Chained(m, s) && Spaced(s) && Spaced(t) && Apart(s, t) && bp % DSIZE == 0 && Apart(s, [bp])
    ensures Chained(PushMem(m, Head(t), bp), s)
  {
    var m2, h := PushMem(m, Head(t), bp), Head(t);
    forall k | 0 <= k < |s| ensures Word(m2, s[k]) == PredOf(s, k) && Word(m2, s[k] + WSIZE) == SuccOf(s, k) {
      var q := s[k];
      assert q != [bp][0];
      assert Word(m, q) == PredOf(s, k);
      LinkWordsApart(bp, q);
      if h != 0 {
        assert q != t[0];
        LinkWordsApart(h, q);
      }
    }
  }

  /** The memory and heads after remove_node on the k-th node of list c:
      SUCC of its predecessor (or the head, when it has none) takes its
      successor, and PRED of its successor, if any, takes its
      predecessor. */
  function UnlinkMem(m: map<int, nat>, prev: nat, succ: nat): map<int, nat> {
    var m1 := if prev != 0 then m[prev + WSIZE := succ] else m;
    if succ != 0 then m1[succ := prev] else m1
  }

  function UnlinkHeads(heads: seq<nat>, c: nat, prev: nat, succ: nat): seq<nat>
    requires c < |heads|
  {
    if prev != 0 then heads else heads[c := succ]
  }

  /** remove_node keeps the lists well formed without the node removed. */
  lemma UnlinkLists(v: Variant, m: map<int, nat>, heads: seq<nat>, free: seq<seq<nat>>, fm: map<int, nat>, c: nat, k: nat)
    requires Lists(v, m, heads, free, fm) && c < |free| && k < |free[c]|
    ensures var prev, succ := PredOf(free[c], k), SuccOf(free[c], k);
            Lists(v, UnlinkMem(m, prev, succ), UnlinkHeads(heads, c, prev, succ), Unlink(free, c, k), fm)
    ensures Members(Unlink(free, c, k)) == Members(free) - {free[c][k]}
  {
    var r := Unlink(free, c, k);
    var prev, succ := PredOf(free[c], k), SuccOf(free[c], k);
    var m2 := UnlinkMem(m, prev, succ);
    UnlinkFiled(v, free, fm, c, k);
    forall d | 0 <= d < |r| ensures Chained(m2, r[d]) {
      ListFacts(v, free, fm, d, c);
      if d == c {
        UnlinkChained(m, free[c], k);
      } else {
        UnlinkOther(m, free[d], free[c], k);
      }
    }
    assert Node(v, fm, c, free[c][0]);
    MembersUnlink(v, free, fm, c, k);
  }

  lemma UnlinkFiled(v: Variant, free: seq<seq<nat>>, fm: map<int, nat>, c: nat, k: nat)
    requires Filed(v, free, fm) && Distinct(free) && c < |free| && k < |free[c]|
    ensures Filed(v, Unlink(free, c, k), fm) && Distinct(Unlink(free, c, k))
  {
    var r := Unlink(free, c, k);
    forall d, j | 0 <= d < |r| && 0 <= j < |r[d]| ensures Node(v, fm, d, r[d][j]) {
      if d == c {
        var j' := if j < k then j else j + 1;
        assert r[d][j] == free[c][j'];
      }
    }
    forall d, j, l | 0 <= d < |r| && 0 <= j < l < |r[d]| ensures r[d][j] != r[d][l] {
      if d == c {
        var j', l' := if j < k then j else j + 1, if l < k then l else l + 1;
        assert r[d][j] == free[c][j'] && r[d][l] == free[c][l'];
      }
    }
  }

  lemma UnlinkChained(m: map<int, nat>, s: seq<nat>, k: nat)
    requires Chained(m, s) && Spaced(s) && Unique(s) && k < |s|
    ensures Chained(UnlinkMem(m, PredOf(s, k), SuccOf(s, k)), s[..k] + s[k + 1..])
  {
    var prev, succ := PredOf(s, k), SuccOf(s, k);
    var m2 := UnlinkMem(m, prev, succ);
    var s' := s[..k] + s[k + 1..];
    forall j | 0 <= j < |s'| ensures Word(m2, s'[j]) == PredOf(s', j) && Word(m2, s'[j] + WSIZE) == SuccOf(s', j) {
      UnlinkAt(m, s, k, j);
    }
  }

  /** Node j of the list after node k is unlinked, and its links. */
  lemma UnlinkAt(m: map<int, nat>, s: seq<nat>, k: nat, j: nat)
    requires Chained(m, s) && Spaced(s) && Unique(s) && k < |s| && j + 1 < |s|
    ensures var s' := s[..k] + s[k + 1..];
            var m2 := UnlinkMem(m, PredOf(s, k), SuccOf(s, k));
            Word(m2, s'[j]) == PredOf(s', j) && Word(m2, s'[j] + WSIZE) == SuccOf(s', j)
  {
    var j' := if j < k then j else j + 1;
    UnlinkIndex(s, k, j);
    assert Word(m, s[j']) == PredOf(s, j') && Word(m, s[j'] + WSIZE) == SuccOf(s, j');
    UnlinkPred(m, s, k, j');
    UnlinkSucc(m, s, k, j');
  }

  /** Where node j of the list without node k stood, and its neighbours. */
  lemma UnlinkIndex(s: seq<nat>, k: nat, j: nat)
    requires k < |s| && j + 1 < |s|
    ensures var s', j' := s[..k] + s[k + 1..], if j < k then j else j + 1;
            |s'| + 1 == |s| && s'[j] == s[j'] &&
            PredOf(s', j) == (if j == k then PredOf(s, k) else PredOf(s, j')) &&
            SuccOf(s', j) == (if j + 1 == k then SuccOf(s, k) else SuccOf(s, j'))
  {
  }

  lemma UniqueAt(s: seq<nat>, a: nat, b: nat)
    requires Unique(s) && a < |s| && b < |s| && a != b
    ensures s[a] != s[b]
  {
    if a > b {
      assert s[b] != s[a];
    }
  }

  /** PRED of node j' of s after node k is unlinked: the successor of k
      takes k's predecessor, every other node keeps its word. */
  lemma UnlinkPred(m: map<int, nat>, s: seq<nat>, k: nat, j': nat)
    requires Spaced(s) && Unique(s) && k < |s| && j' < |s| && j' != k
    ensures Word(UnlinkMem(m, PredOf(s, k), SuccOf(s, k)), s[j']) ==
            if j' == k + 1 then PredOf(s, k) else Word(m, s[j'])
  {
    var prev, succ := PredOf(s, k), SuccOf(s, k);
    var q := s[j'];
    if prev != 0 && j' != k - 1 {
      UniqueAt(s, j', k - 1);
      LinkWordsApart(s[k - 1], q);
    }
    if succ != 0 && j' != k + 1 {
      UniqueAt(s, j', k + 1);
    }
  }

  /** SUCC of node j' of s after node k is unlinked: the predecessor of k
      takes k's successor, every other node keeps its word. */
  lemma UnlinkSucc(m: map<int, nat>, s: seq<nat>, k: nat, j': nat)
    requires Spaced(s) && Unique(s) && k < |s| && j' < |s| && j' != k
    ensures Word(UnlinkMem(m, PredOf(s, k), SuccOf(s, k)), s[j'] + WSIZE) ==
            if j' + 1 == k then SuccOf(s, k) else Word(m, s[j'] + WSIZE)
  {
    var prev, succ := PredOf(s, k), SuccOf(s, k);
    var q := s[j'];
    if prev != 0 && j' != k - 1 {
      UniqueAt(s, j', k - 1);
    }
    if succ != 0 && j' != k + 1 {
      UniqueAt(s, j', k + 1);
      LinkWordsApart(s[k + 1], q);
    }
  }

  lemma UnlinkOther(m: map<int, nat>, s: seq<nat>, t: seq<nat>, k: nat)
    requires Chained(m, s) && Spaced(s) && Spaced(t) && Apart(s, t) && k < |t|
    ensures Chained(UnlinkMem(m, PredOf(t, k), SuccOf(t, k)), s)
  {
    var prev, succ := PredOf(t, k), SuccOf(t, k);
    var m2 := UnlinkMem(m, prev, succ);
    forall j | 0 <= j < |s| ensures Word(m2, s[j]) == PredOf(s, j) && Word(m2, s[j] + WSIZE) == SuccOf(s, j) {
      var q := s[j];
      assert Word(m, q) == PredOf(s, j);
      if prev != 0 {
        assert q != t[k - 1];
        LinkWordsApart(prev, q);
      }
      if succ != 0 {
        assert q != t[k + 1];
        LinkWordsApart(succ, q);
      }
    }
  }

  /** Every list empty, as mm_init leaves them. */
  function NoLists(): (r: seq<seq<nat>>)
    ensures |r| == NUM_CLASSES && forall c | 0 <= c < |r| :: r[c] == []
  {
    seq(NUM_CLASSES, c => [])
  }

  /** With a single free block p of size s, its class's list is [p] and
      every other list is empty. */
  lemma {:induction false} LoneNode(v: Variant, free: seq<seq<nat>>, p: int, s: nat)
    requires Filed(v, free, map[p := s]) && Distinct(free) && Members(free) == {p}
    ensures forall c | 0 <= c < |free| :: free[c] == if c == SizeClassOf(v, s) then [p] else []
  {
    var fm := map[p := s];
    assert p in Members(free);
    var c0, k0 := Locate(v, free, fm, p);
    forall c | 0 <= c < |free| ensures free[c] == if c == SizeClassOf(v, s) then [p] else [] {
      forall k | 0 <= k < |free[c]| ensures free[c][k] == p && c == c0 && k == k0 {
        assert free[c][k] in Members(free);
        NodeUnique(v, free, fm, c, k, c0, k0);
      }
      if 0 < |free[c]| {
        var last := |free[c]| - 1;
        assert free[c][0] == p && c == c0 && 0 == k0;
        assert free[c][last] == p && last == k0;
      }
      assert free[c] == if c == c0 then [p] else [];
    }
  }

  /** The list s without the pointers in out, the others in their order. */
  function Filter(s: seq<nat>, out: set<int>): (r: seq<nat>)
    ensures |r| <= |s|
    ensures forall p :: p in r <==> p in s && p !in out
    decreases |s|
  {
    if s == [] then []
    else (if s[0] in out then [] else [s[0]]) + Filter(s[1..], out)
  }

  /** The lists without the pointers in out: what remove_node leaves after
      it has taken each of them off its list. */
  function Sift(free: seq<seq<nat>>, out: set<int>): (r: seq<seq<nat>>)
    ensures |r| == |free|
    ensures forall c :: 0 <= c < |free| ==> r[c] == Filter(free[c], out)
  {
    seq(|free|, c requires 0 <= c < |free| => Filter(free[c], out))
  }

  lemma {:induction false} FilterNone(s: seq<nat>, out: set<int>)
    requires forall k :: 0 <= k < |s| ==> s[k] !in out
    ensures Filter(s, out) == s
    decreases |s|
  {
    if s != [] {
      FilterNone(s[1..], out);
      assert [s[0]] + s[1..] == s;
    }
  }

  /** Taking off pointers that are on no list changes nothing. */
  lemma SiftNone(free: seq<seq<nat>>, out: set<int>)
    requires forall p :: p in out ==> p !in Members(free)
    ensures Sift(free, out) == free
  {
    forall c | 0 <= c < |free| ensures Sift(free, out)[c] == free[c] {
      forall k | 0 <= k < |free[c]| ensures free[c][k] !in out {
        assert free[c][k] in Members(free);
      }
      FilterNone(free[c], out);
    }
  }

  lemma {:induction false} FilterAt(s: seq<nat>, k: nat)
    requires k < |s| && forall j :: 0 <= j < |s| && j != k ==> s[j] != s[k]
    ensures Filter(s, {s[k]}) == s[..k] + s[k + 1..]
    decreases k
  {
    var out: set<int> := {s[k]};
    if k == 0 {
      forall j | 0 <= j < |s[1..]| ensures s[1..][j] !in out {
        assert s[1..][j] == s[j + 1];
      }
      FilterNone(s[1..], out);
    } else {
      assert s[1..][k - 1] == s[k];
      forall j | 0 <= j < |s[1..]| && j != k - 1 ensures s[1..][j] != s[1..][k - 1] {
        assert s[1..][j] == s[j + 1];
      }
      FilterAt(s[1..], k - 1);
      assert s[0] != s[k];
      assert [s[0]] + (s[1..][..k - 1] + s[1..][k..]) == s[..k] + s[k + 1..];
    }
  }

  /** remove_node unlinks a listed node exactly as sifting it out does:
      the node is nowhere else, and the other nodes keep their order. */
  lemma SiftUnlink(v: Variant, free: seq<seq<nat>>, fm: map<int, nat>, c: nat, k: nat)
    requires Filed(v, free, fm) && Distinct(free) && c < |free| && k < |free[c]|
    ensures Unlink(free, c, k) == Sift(free, {free[c][k]})
  {
    var bp := free[c][k];
    var r, t := Unlink(free, c, k), Sift(free, {bp});
    forall d | 0 <= d < |free| ensures r[d] == t[d] {
      if d == c {
        forall j | 0 <= j < |free[c]| && j != k ensures free[c][j] != bp {
          NodeUnique(v, free, fm, c, j, c, k);
        }
        FilterAt(free[c], k);
      } else {
        forall j | 0 <= j < |free[d]| ensures free[d][j] !in {bp} {
          NodeUnique(v, free, fm, d, j, c, k);
        }
        FilterNone(free[d], {bp});
      }
    }
  }

  lemma {:induction false} FilterTwice(s: seq<nat>, a: set<int>, b: set<int>)
    ensures Filter(Filter(s, a), b) == Filter(s, a + b)
    decreases |s|
  {
    if s != [] {
      FilterTwice(s[1..], a, b);
      var h := if s[0] in a then [] else [s[0]];
      FilterConcat(h, Filter(s[1..], a), b);
      if s[0] !in a {
        assert h[1..] == [];
      }
    }
  }

  lemma {:induction false} FilterConcat(x: seq<nat>, y: seq<nat>, out: set<int>)
    ensures Filter(x + y, out) == Filter(x, out) + Filter(y, out)
    decreases |x|
  {
    if x == [] {
      assert x + y == y;
    } else {
      assert (x + y)[1..] == x[1..] + y;
      FilterConcat(x[1..], y, out);
    }
  }

  /** Sifting out a, then b, sifts out both. */
  lemma SiftTwice(free: seq<seq<nat>>, a: set<int>, b: set<int>)
    ensures Sift(Sift(free, a), b) == Sift(free, a + b)
  {
    forall c | 0 <= c < |free| ensures Sift(Sift(free, a), b)[c] == Sift(free, a + b)[c] {
      FilterTwice(free[c], a, b);
    }
  }

  lemma {:induction false} FilterSame(s: seq<nat>, a: set<int>, b: set<int>)
    requires forall k :: 0 <= k < |s| ==> (s[k] in a <==> s[k] in b)
    ensures Filter(s, a) == Filter(s, b)
    decreases |s|
  {
    if s != [] {
      assert forall k :: 0 <= k < |s[1..]| ==> s[1..][k] == s[k + 1];
      FilterSame(s[1..], a, b);
    }
  }

  /** Only the listed pointers of out matter to what sifting leaves. */
  lemma SiftSame(free: seq<seq<nat>>, a: set<int>, b: set<int>)
    requires forall p :: p in Members(free) ==> (p in a <==> p in b)
    ensures Sift(free, a) == Sift(free, b)
  {
    forall c | 0 <= c < |free| ensures Sift(free, a)[c] == Sift(free, b)[c] {
      forall k | 0 <= k < |free[c]| ensures free[c][k] in a <==> free[c][k] in b {
        assert free[c][k] in Members(free);
      }
      FilterSame(free[c], a, b);
    }
  }

  /** Sifting takes exactly the pointers of out off the lists. */
  lemma MembersSift(free: seq<seq<nat>>, out: set<int>)
    ensures Members(Sift(free, out)) == Members(free) - out
  {
    var r := Sift(free, out);
    forall p | p in Members(r) ensures p in Members(free) - out {
      var d, l :| 0 <= d < |r| && 0 <= l < |r[d]| && r[d][l] == p;
      assert p in Filter(free[d], out);
      var l' :| 0 <= l' < |free[d]| && free[d][l'] == p;
    }
    forall p | p in Members(free) - out ensures p in Members(r) {
      var d, l :| 0 <= d < |free| && 0 <= l < |free[d]| && free[d][l] == p;
      assert p in r[d];
      var l' :| 0 <= l' < |r[d]| && r[d][l'] == p;
    }
  }
}
