/**
 `free_ind_block`, `free_dind_block` and `free_tind_block`: freeing a tree of blocks, leaves first, and what is
 left of it when an access fails.  Pointer blocks are read past the cache, from the device.
 */
module Ext2Free {
  import opened Ext2Fs
  import opened Ext2Tree
  import opened Ext2Append

  /** The blocks of a tree, and those under its first `n` subtrees. */
  ghost function Of(t: Tree): (r: iset<nat>)
  {
    In(multiset(Flatten(t)))
  }

  ghost function Before(t: Tree, n: nat): (r: iset<nat>)
    requires t.Node? && n <= |t.kids|
  {
    In(multiset(FlattenKids(t, n)))
  }

  lemma BeforeOne(t: Tree, n: nat)
    requires t.Node? && n < |t.kids|
    ensures Before(t, n + 1) == Before(t, n) + Of(t.kids[n])
  {
  }

  lemma OfNode(t: Tree)
    requires t.Node?
    ensures Of(t) == Before(t, |t.kids|) + iset{t.block}
  {
  }

  lemma {:induction false} PrefixWithin(t: Tree, n: nat, m: nat)
    requires t.Node? && n <= m <= |t.kids|
    ensures multiset(FlattenKids(t, n)) <= multiset(FlattenKids(t, m))
  {
    if n < m { PrefixWithin(t, n, m - 1); }
  }

  lemma PartWithin(t: Tree, n: nat)
    requires t.Node? && n <= |t.kids|
    ensures multiset(FlattenKids(t, n)) <= multiset(Flatten(t)) && Before(t, n) <= Of(t)
  {
    PrefixWithin(t, n, |t.kids|);
  }

  /** A subtree has no block of the ones before it. */
  lemma ApartFromBefore(t: Tree, n: nat)
    requires t.Node? && n < |t.kids| && Distinct(t)
    ensures Before(t, n) !! Of(t.kids[n]) && Distinct(t.kids[n])
  {
    PartWithin(t, n + 1);
    SumOnce(multiset(FlattenKids(t, n)), multiset(Flatten(t.kids[n])), multiset(Flatten(t)));
  }

  lemma SumOnce(a: multiset<nat>, b: multiset<nat>, all: multiset<nat>)
    requires a + b <= all && forall x :: all[x] <= 1
    ensures In(a) !! In(b) && forall x :: b[x] <= 1
  {
    assert forall x :: (a + b)[x] == a[x] + b[x] && (a + b)[x] <= all[x];
  }

  /** Before its `n`th subtree is freed, all of a tree but the subtrees before is in use. */
  lemma NextInUse(t: Tree, n: nat, used: iset<nat>)
    requires t.Node? && n < |t.kids| && Distinct(t) && Of(t) <= used
    ensures Of(t.kids[n]) <= used - Before(t, n) && Distinct(t.kids[n])
    ensures used - Before(t, n) - Of(t.kids[n]) == used - Before(t, n + 1)
  {
    ApartFromBefore(t, n);
    KidWithin(t, n);
    BeforeOne(t, n);
  }

  /** Last of all, the root is still in use. */
  lemma RootInUse(t: Tree, used: iset<nat>)
    requires t.Node? && Distinct(t) && Of(t) <= used
    ensures t.block in used - Before(t, |t.kids|)
    ensures used - Before(t, |t.kids|) - iset{t.block} == used - Of(t)
  {
    assert multiset(Flatten(t))[t.block] == multiset(FlattenKids(t, |t.kids|))[t.block] + 1;
    OfNode(t);
  }

  // ---------------------------------------------------------------- trees

  /** A tree of height `h` that is to be freed: the words it is stored in, what is in use, and the bitmaps. */
  datatype Job = Job(t: Tree, h: nat, d: seq<Words>, p: nat, used: iset<nat>, bitmaps: seq<nat>)

  ghost predicate Freeable(j: Job)
  {
    && Stored(j.d, j.t, j.p) && Shape(j.t, j.h) && Distinct(j.t) && Of(j.t) <= j.used
    && forall b :: b in Of(j.t) ==> b !in j.bitmaps
  }

  type Freeing = j: Job | Freeable(j) ghost witness Job(Leaf(1), 0, [], 0, iset{1}, [])

  /** Since the write-back, nothing but bitmaps has changed. */
  ghost predicate Clean(s: Sound, d: seq<Words>)
  {
    s.dirty <= Bitmaps(s.bitmaps) && OffBitmaps(s.bitmaps, d, s.words)
  }

  /** The tree is being freed: `n` subtrees are free. */
  ghost predicate At(s: Sound, j: Freeing, h: nat, n: nat)
  {
    && Clean(s, j.d) && s.bitmaps == j.bitmaps && s.pointers == j.p && j.h == h > 0 && j.t.Node? && n <= |j.t.kids|
    && s.used == j.used - Before(j.t, n)
  }

  /** So the device holds every block that is no bitmap. */
  lemma OnDisk(s: Sound, d: seq<Words>, b: nat)
    requires Clean(s, d) && b !in s.bitmaps && b < |s.device|
    ensures b < |d| && s.device[b] == d[b]
  {
  }

  /** The next subtree. */
  ghost function NextJob(j: Freeing, n: nat): (k: Freeing)
    requires j.h > 0 && j.t.Node? && n < |j.t.kids|
    ensures k == Job(j.t.kids[n], j.h - 1, j.d, j.p, j.used - Before(j.t, n), j.bitmaps)
    ensures j.h > 1 ==> k.t.Node? && k.used - Before(k.t, 0) == k.used
    ensures j.h == 1 ==> k.t.Leaf? && Of(k.t) == iset{k.t.block}
  {
    NextInUse(j.t, n, j.used);
    KidWithin(j.t, n);
    Job(j.t.kids[n], j.h - 1, j.d, j.p, j.used - Before(j.t, n), j.bitmaps)
  }

  /** How many subtrees there are among the first `i` words. */
  function Begun(t: Tree, i: nat): (n: nat)
    requires t.Node?
    ensures n <= |t.kids|
  {
    if i < |t.kids| then i else |t.kids|
  }

  /** The words of a pointer block, as the loops see them. */
  lemma RowOf(j: Freeing)
    requires j.t.Node?
    ensures j.t.block < |j.d| && |j.d[j.t.block]| == j.p && |j.t.kids| <= j.p
    ensures forall i :: 0 <= i < j.p ==> j.d[j.t.block][i] == if i < |j.t.kids| then j.t.kids[i].block else 0
    ensures forall i :: 0 <= i < |j.t.kids| ==> j.t.kids[i].block != 0
  {
    forall i | 0 <= i < |j.t.kids|
      ensures j.t.kids[i].block != 0
    {
      assert Stored(j.d, j.t.kids[i], j.p);
    }
  }

  // ---------------------------------------------------------------- in order

  function Front(blocks: seq<nat>, n: nat): (r: seq<nat>)
  {
    if n < |blocks| then blocks[..n] else blocks
  }

  ghost function Members(blocks: seq<nat>): (r: iset<nat>)
  {
    iset b | b in blocks
  }

  /** The first `n` of some blocks. */
  ghost function Gone(blocks: seq<nat>, n: nat): (r: iset<nat>)
  {
    Members(Front(blocks, n))
  }

  lemma {:induction false} PrefixOf(t: Tree, n: nat, m: nat)
    requires t.Node? && n <= m <= |t.kids|
    ensures |FlattenKids(t, n)| <= |FlattenKids(t, m)| && FlattenKids(t, m)[..|FlattenKids(t, n)|] == FlattenKids(t, n)
  {
    if n < m { PrefixOf(t, n, m - 1); }
  }

  lemma PrefixFront(front: seq<nat>, kid: seq<nat>, all: seq<nat>, n: nat)
    requires n <= |kid| && |front + kid| <= |all| && all[..|front + kid|] == front + kid
    ensures Front(all, |front| + n) == front + Front(kid, n)
  {
    assert all[..|front| + n] == (front + kid)[..|front| + n] == front + kid[..n];
    assert kid[..|kid|] == kid && all[..|all|] == all;
  }

  lemma MembersSum(a: seq<nat>, b: seq<nat>)
    ensures Members(a + b) == Members(a) + Members(b)
  {
  }

  lemma KidWithinSeq(t: Tree, i: nat)
    requires t.Node? && i < |t.kids|
    ensures |FlattenKids(t, i)| + |Flatten(t.kids[i])| < |Flatten(t)|
    ensures Flatten(t)[..|FlattenKids(t, i) + Flatten(t.kids[i])|] == FlattenKids(t, i) + Flatten(t.kids[i])
  {
    PrefixOf(t, i + 1, |t.kids|);
    assert FlattenKids(t, i + 1) == FlattenKids(t, i) + Flatten(t.kids[i]);
  }

  /** What is gone when, after `i` subtrees, `n` blocks of the next one are. */
  lemma KidGone(t: Tree, i: nat, n: nat)
    requires t.Node? && i < |t.kids| && n <= |Flatten(t.kids[i])|
    ensures |FlattenKids(t, i)| + |Flatten(t.kids[i])| < |Flatten(t)|
    ensures Gone(Flatten(t), |FlattenKids(t, i)| + n) == Before(t, i) + Gone(Flatten(t.kids[i]), n)
  {
    KidWithinSeq(t, i);
    PrefixFront(FlattenKids(t, i), Flatten(t.kids[i]), Flatten(t), n);
    MembersSum(FlattenKids(t, i), Front(Flatten(t.kids[i]), n));
    assert Members(FlattenKids(t, i)) == Before(t, i);
  }

  /** All but the root, and all. */
  lemma RootGone(t: Tree)
    requires t.Node?
    ensures |Flatten(t)| == |FlattenKids(t, |t.kids|)| + 1
    ensures Gone(Flatten(t), |Flatten(t)| - 1) == Before(t, |t.kids|)
  {
    assert Flatten(t)[..|Flatten(t)| - 1] == FlattenKids(t, |t.kids|);
  }

  lemma AllGone(t: Tree)
    ensures Gone(Flatten(t), |Flatten(t)|) == Of(t) && Gone(Flatten(t), 0) == iset{}
  {
  }

  /** Freeing has come as far as the first `n` blocks of the tree; all of them, if it succeeded. */
  ghost predicate Freed(s: Sound, j: Freeing, n: nat, ok: bool)
  {
    && Clean(s, j.d) && s.bitmaps == j.bitmaps && s.pointers == j.p && n <= |Flatten(j.t)| && (ok <==> n == |Flatten(j.t)|)
    && s.used == j.used - Gone(Flatten(j.t), n)
  }

  /** What freeing the next subtree comes to. */
  ghost predicate FreedNext(s: Sound, j: Freeing, h: nat, i: nat, n: nat, ok: bool)
  {
    if ok then At(s, j, h, i + 1) else Freed(s, j, n, false)
  }

  lemma KidFreed(s: Sound, j: Freeing, h: nat, i: nat, n: nat, ok: bool)
    requires j.t.Node? && i < |j.t.kids| && j.h == h > 0 && Freed(s, NextJob(j, i), n, ok)
    ensures FreedNext(s, j, h, i, |FlattenKids(j.t, i)| + n, ok)
  {
    KidGone(j.t, i, n);
    AllGone(j.t.kids[i]);
    BeforeOne(j.t, i);
    assert s.used == j.used - (Before(j.t, i) + Gone(Flatten(j.t.kids[i]), n));
  }

  // ---------------------------------------------------------------- freeing

  /** The loop over the words of a pointer block, before word `i` or ended by a failure. */
  ghost predicate Along(s: Sound, j: Freeing, h: nat, i: nat, n: nat, ok: bool)
  {
    j.t.Node? && if ok then At(s, j, h, Begun(j.t, i)) else Freed(s, j, n, false)
  }

  /** A walk over the words of a pointer block, at a height above 0. */
  datatype Walk = Walk(s: Sound, j: Freeing, h: nat, i: nat, n: nat, ok: bool)

  type Walking = k: Walk | k.h > 0 ==> Along(k.s, k.j, k.h, k.i, k.n, k.ok)
    ghost witness Walk(NoState(), Job(Leaf(1), 0, [], 0, iset{1}, []), 0, 0, 0, false)

  /** One subtree further. */
  ghost function Further(k: Walking, s: Sound, n: nat, ok: bool): (r: Walking)
    requires k.h > 0 && k.j.t.Node? && k.i < |k.j.t.kids| && FreedNext(s, k.j, k.h, k.i, n, ok)
  {
    Walk(s, k.j, k.h, k.i + 1, n, ok)
  }

  /** A word that is zero. */
  ghost function Past(k: Walking): (r: Walking)
    requires k.h > 0 && k.ok && k.i >= |k.j.t.kids|
  {
    k.(i := k.i + 1)
  }

  /** mark_block_free, among other frees. */
  method MarkOne(fs: Fs, b: nat, ghost d: seq<Words>) returns (ok: bool)
    requires fs.Valid() && Clean(fs.state, d) && b in fs.state.used && b !in fs.bitmaps
    modifies fs
    ensures fs.Valid() && Clean(fs.state, d) && fs.state.used == if ok then old(fs.state.used) - iset{b} else old(fs.state.used)
    ensures fs.failures == if ok then old(fs.failures) else old(fs.failures) + 1
  {
    ok := fs.MarkFree(b);
  }

  /** The root of a tree, when nothing is left under it. */
  method MarkRoot(fs: Fs, b: nat, ghost j: Freeing) returns (ok: bool, ghost n: nat)
    requires fs.Valid() && j.t.Node? && At(fs.state, j, j.h, |j.t.kids|) && j.t.block == b
    modifies fs
    ensures fs.Valid() && Freed(fs.state, j, n, ok) && fs.failures == if ok then old(fs.failures) else old(fs.failures) + 1
  {
    RootInUse(j.t, j.used);
    PartWithin(j.t, |j.t.kids|);
    RootGone(j.t);
    AllGone(j.t);
    ok := MarkOne(fs, b, j.d);
    n := if ok then |Flatten(j.t)| else |Flatten(j.t)| - 1;
  }

  /** A pointer block read past the cache; nothing is freed when that fails. */
  method ReadRow(fs: Fs, b: nat, ghost j: Freeing) returns (ok: bool, w: Words)
    requires fs.Valid() && j.t.Node? && At(fs.state, j, j.h, 0) && j.t.block == b
    modifies fs`failures
    ensures fs.Valid() && fs.failures == if ok then old(fs.failures) else old(fs.failures) + 1
    ensures if ok then |w| == j.p && |j.t.kids| <= j.p && forall i :: 0 <= i < j.p ==> WordFor(j.t, i, w[i]) else Freed(fs.state, j, 0, false)
  {
    ok, w := fs.ReadUncached(b);
    if ok {
      OnDisk(fs.state, j.d, b);
      RowOf(j);
    } else {
      RootGone(j.t);
      AllGone(j.t);
    }
  }

  ghost predicate WordFor(t: Tree, i: nat, v: nat)
  {
    t.Node? && if i < |t.kids| then v == t.kids[i].block != 0 else v == 0
  }

  /** A data block among the words of a pointer block. */
  method MarkNext(fs: Fs, b: nat, ghost j: Freeing, ghost i: nat) returns (ok: bool, ghost n: nat)
    requires fs.Valid() && j.t.Node? && i < |j.t.kids| && At(fs.state, j, 1, i) && j.t.kids[i].block == b
    modifies fs
    ensures fs.Valid() && FreedNext(fs.state, j, 1, i, n, ok) && fs.failures == if ok then old(fs.failures) else old(fs.failures) + 1
  {
    ghost var k := NextJob(j, i);
    ok := MarkOne(fs, b, j.d);
    AllGone(k.t);
    KidFreed(fs.state, j, 1, i, if ok then 1 else 0, ok);
    n := |FlattenKids(j.t, i)|;
  }

  /** free_ind_block: the blocks of the tree in order, up to the first access that fails. */
  method FreeInd(fs: Fs, b: nat, ghost j: Freeing) returns (ok: bool, ghost n: nat)
    requires fs.Valid() && At(fs.state, j, 1, 0) && j.t.block == b
    modifies fs
    ensures fs.Valid() && Freed(fs.state, j, n, ok) && fs.failures == if ok then old(fs.failures) else old(fs.failures) + 1
  {
    var w;
    n := 0;
    ok, w := ReadRow(fs, b, j);
    if ok {
      ok, n := FreeIndWords(fs, w, j);
      if ok { ok, n := MarkRoot(fs, b, j); }
    }
  }

  /** Its loop over the words of the block. */
  method FreeIndWords(fs: Fs, w: Words, ghost j: Freeing) returns (ok: bool, ghost n: nat)
    requires fs.Valid() && At(fs.state, j, 1, 0) && |w| == fs.pointers && forall i :: 0 <= i < |w| ==> WordFor(j.t, i, w[i])
    requires |j.t.kids| <= |w|
    modifies fs
    ensures fs.Valid() && (if ok then At(fs.state, j, 1, |j.t.kids|) else Freed(fs.state, j, n, false))
    ensures fs.failures == if ok then old(fs.failures) else old(fs.failures) + 1
  {
    ok := true;
    ghost var k: Walking := Walk(fs.state, j, 1, 0, 0, true);
    var i := 0;
    while ok && i < |w|
      invariant i <= |w| && fs.Valid() && k == Walk(fs.state, j, 1, i, k.n, ok)
      invariant fs.failures == if ok then old(fs.failures) else old(fs.failures) + 1
    {
      ok, k := FreeIndWord(fs, w[i], k);
      i := i + 1;
    }
    n := k.n;
  }

  method FreeIndWord(fs: Fs, v: nat, ghost k: Walking) returns (ok: bool, ghost k': Walking)
    requires fs.Valid() && k.s == fs.state && k.h == 1 && k.ok && WordFor(k.j.t, k.i, v)
    modifies fs
    ensures fs.Valid() && k' == Walk(fs.state, k.j, k.h, k.i + 1, k'.n, ok) && fs.failures == if ok then old(fs.failures) else old(fs.failures) + 1
  {
    ok := true;
    if v != 0 {
      ghost var n;
      ok, n := MarkNext(fs, v, k.j, k.i);
      k' := Further(k, fs.state, n, ok);
    } else {
      k' := Past(k);
    }
  }

  /** An indirect block among the words of a doubly-indirect one. */
  method FreeNextInd(fs: Fs, b: nat, ghost j: Freeing, ghost i: nat) returns (ok: bool, ghost n: nat)
    requires fs.Valid() && j.t.Node? && i < |j.t.kids| && At(fs.state, j, 2, i) && j.t.kids[i].block == b
    modifies fs
    ensures fs.Valid() && FreedNext(fs.state, j, 2, i, n, ok) && fs.failures == if ok then old(fs.failures) else old(fs.failures) + 1
  {
    ok, n := FreeInd(fs, b, NextJob(j, i));
    KidFreed(fs.state, j, 2, i, n, ok);
    n := |FlattenKids(j.t, i)| + n;
  }

  /** free_dind_block: the blocks of the tree in order, up to the first access that fails. */
  method FreeDind(fs: Fs, b: nat, ghost j: Freeing) returns (ok: bool, ghost n: nat)
    requires fs.Valid() && At(fs.state, j, 2, 0) && j.t.block == b
    modifies fs
    ensures fs.Valid() && Freed(fs.state, j, n, ok) && fs.failures == if ok then old(fs.failures) else old(fs.failures) + 1
  {
    var w;
    n := 0;
    ok, w := ReadRow(fs, b, j);
    if ok {
      ok, n := FreeDindWords(fs, w, j);
      if ok { ok, n := MarkRoot(fs, b, j); }
    }
  }

  /** Its loop over the words of the block. */
  method FreeDindWords(fs: Fs, w: Words, ghost j: Freeing) returns (ok: bool, ghost n: nat)
    requires fs.Valid() && At(fs.state, j, 2, 0) && |w| == fs.pointers && forall i :: 0 <= i < |w| ==> WordFor(j.t, i, w[i])
    requires |j.t.kids| <= |w|
    modifies fs
    ensures fs.Valid() && (if ok then At(fs.state, j, 2, |j.t.kids|) else Freed(fs.state, j, n, false))
    ensures fs.failures == if ok then old(fs.failures) else old(fs.failures) + 1
  {
    ok := true;
    ghost var k: Walking := Walk(fs.state, j, 2, 0, 0, true);
    var i := 0;
    while ok && i < |w|
      invariant i <= |w| && fs.Valid() && k == Walk(fs.state, j, 2, i, k.n, ok)
      invariant fs.failures == if ok then old(fs.failures) else old(fs.failures) + 1
    {
      ok, k := FreeDindWord(fs, w[i], k);
      i := i + 1;
    }
    n := k.n;
  }

  method FreeDindWord(fs: Fs, v: nat, ghost k: Walking) returns (ok: bool, ghost k': Walking)
    requires fs.Valid() && k.s == fs.state && k.h == 2 && k.ok && WordFor(k.j.t, k.i, v)
    modifies fs
    ensures fs.Valid() && k' == Walk(fs.state, k.j, k.h, k.i + 1, k'.n, ok) && fs.failures == if ok then old(fs.failures) else old(fs.failures) + 1
  {
    ok := true;
    if v != 0 {
      ghost var n;
      ok, n := FreeNextInd(fs, v, k.j, k.i);
      k' := Further(k, fs.state, n, ok);
    } else {
      k' := Past(k);
    }
  }

  /** A doubly-indirect block among the words of a trebly-indirect one. */
  method FreeNextDind(fs: Fs, b: nat, ghost j: Freeing, ghost i: nat) returns (ok: bool, ghost n: nat)
    requires fs.Valid() && j.t.Node? && i < |j.t.kids| && At(fs.state, j, 3, i) && j.t.kids[i].block == b
    modifies fs
    ensures fs.Valid() && FreedNext(fs.state, j, 3, i, n, ok) && fs.failures == if ok then old(fs.failures) else old(fs.failures) + 1
  {
    ok, n := FreeDind(fs, b, NextJob(j, i));
    KidFreed(fs.state, j, 3, i, n, ok);
    n := |FlattenKids(j.t, i)| + n;
  }

  /** free_tind_block: the blocks of the tree in order, up to the first access that fails. */
  method FreeTind(fs: Fs, b: nat, ghost j: Freeing) returns (ok: bool, ghost n: nat)
    requires fs.Valid() && At(fs.state, j, 3, 0) && j.t.block == b
    modifies fs
    ensures fs.Valid() && Freed(fs.state, j, n, ok) && fs.failures == if ok then old(fs.failures) else old(fs.failures) + 1
  {
    var w;
    n := 0;
    ok, w := ReadRow(fs, b, j);
    if ok {
      ok, n := FreeTindWords(fs, w, j);
      if ok { ok, n := MarkRoot(fs, b, j); }
    }
  }

  /** Its loop over the words of the block. */
  method FreeTindWords(fs: Fs, w: Words, ghost j: Freeing) returns (ok: bool, ghost n: nat)
    requires fs.Valid() && At(fs.state, j, 3, 0) && |w| == fs.pointers && forall i :: 0 <= i < |w| ==> WordFor(j.t, i, w[i])
    requires |j.t.kids| <= |w|
    modifies fs
    ensures fs.Valid() && (if ok then At(fs.state, j, 3, |j.t.kids|) else Freed(fs.state, j, n, false))
    ensures fs.failures == if ok then old(fs.failures) else old(fs.failures) + 1
  {
    ok := true;
    ghost var k: Walking := Walk(fs.state, j, 3, 0, 0, true);
    var i := 0;
    while ok && i < |w|
      invariant i <= |w| && fs.Valid() && k == Walk(fs.state, j, 3, i, k.n, ok)
      invariant fs.failures == if ok then old(fs.failures) else old(fs.failures) + 1
    {
      ok, k := FreeTindWord(fs, w[i], k);
      i := i + 1;
    }
    n := k.n;
  }

  method FreeTindWord(fs: Fs, v: nat, ghost k: Walking) returns (ok: bool, ghost k': Walking)
    requires fs.Valid() && k.s == fs.state && k.h == 3 && k.ok && WordFor(k.j.t, k.i, v)
    modifies fs
    ensures fs.Valid() && k' == Walk(fs.state, k.j, k.h, k.i + 1, k'.n, ok) && fs.failures == if ok then old(fs.failures) else old(fs.failures) + 1
  {
    ok := true;
    if v != 0 {
      ghost var n;
      ok, n := FreeNextDind(fs, v, k.j, k.i);
      k' := Further(k, fs.state, n, ok);
    } else {
      k' := Past(k);
    }
  }
}
