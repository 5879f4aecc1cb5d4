/**
 `ext2_inode_free_all`, without attribute blocks and the inode's own bit, and the round trip:
 what was appended and freed leaves the books as they were.
 */
module Ext2FreeAll {
  import opened Ext2Volume
  import opened Ext2Fs
  import opened Ext2Tree
  import opened Ext2Inode
  import opened Ext2Append
  import opened Ext2Chain
  import opened Ext2AllocChain
  import opened Ext2Run
  import opened Ext2Free

  // ---------------------------------------------------------------- the blocks in the order they are freed

  /** The first `i` direct blocks. */
  ghost function Direct(g: Grove, i: nat): (r: iset<nat>)
  {
    In(multiset(if i < |g.direct| then g.direct[..i] else g.direct))
  }

  /** The direct blocks and those of the first `k` trees. */
  ghost function Through(g: Grove, k: nat): (r: iset<nat>)
  {
    In(Blocks(g.direct, First(g.trees, k)))
  }

  function First(trees: seq<Packed>, k: nat): (r: seq<Packed>)
  {
    if k < |trees| then trees[..k] else trees
  }

  /** One tree more. */
  lemma FirstNext(trees: seq<Packed>, k: nat)
    requires k < |trees|
    ensures var r := First(trees, k + 1); |r| == k + 1 && r[..|r| - 1] == First(trees, k) && r[k] == trees[k]
  {
  }

  lemma {:induction false} TreesWithin(direct: seq<nat>, trees: seq<Packed>, k: nat)
    ensures Blocks(direct, First(trees, k)) <= Blocks(direct, trees)
  {
    if k < |trees| {
      var front := trees[..|trees| - 1];
      assert First(front, k) == First(trees, k);
      TreesWithin(direct, front, k);
    }
  }

  /** What freeing comes to at first, after the direct blocks, and in the end. */
  lemma Ends(g: Grove)
    ensures Direct(g, 0) == iset{} && Direct(g, DIRECT) == Through(g, 0) && Through(g, 3) == In(All(g))
  {
    assert g.direct[..|g.direct|] == g.direct;
    assert First(g.trees, 0) == [];
  }

  lemma SplitAt(d: seq<nat>, i: nat)
    requires i < |d|
    ensures multiset(d[..i]) + multiset{d[i]} <= multiset(d)
    ensures multiset(if i + 1 < |d| then d[..i + 1] else d) == multiset(d[..i]) + multiset{d[i]}
  {
    assert d[..i + 1] == d[..i] + [d[i]];
    assert d == d[..i + 1] + d[i + 1..];
    if i + 1 == |d| { assert d[..i + 1] == d; }
  }

  /** The next direct block is in use. */
  lemma NextDirect(s: Appended, i: nat)
    requires i < |s.g.direct|
    ensures s.g.direct[i] != 0 && s.g.direct[i] in s.disk.used - Direct(s.g, i) && s.g.direct[i] !in s.disk.bitmaps
    ensures Direct(s.g, i + 1) == Direct(s.g, i) + iset{s.g.direct[i]}
  {
    TreesWithin(s.g.direct, s.g.trees, 0);
    SplitAt(s.g.direct, i);
    SumOnce(multiset(s.g.direct[..i]), multiset{s.g.direct[i]}, All(s.g));
    assert s.g.direct[i] in In(multiset{s.g.direct[i]});
    assert s.g.direct[i] in All(s.g);
  }

  lemma BlocksNext(direct: seq<nat>, trees: seq<Packed>, k: nat)
    requires k < |trees|
    ensures Blocks(direct, First(trees, k + 1)) == Blocks(direct, First(trees, k)) + multiset(Flatten(trees[k].t))
  {
    FirstNext(trees, k);
  }

  lemma InSum(a: multiset<nat>, b: multiset<nat>)
    ensures In(a + b) == In(a) + In(b)
  {
  }

  lemma NextTree(g: Grove, k: nat)
    requires k < |g.trees|
    ensures Through(g, k + 1) == Through(g, k) + Of(g.trees[k].t)
    ensures Blocks(g.direct, First(g.trees, k)) + multiset(Flatten(g.trees[k].t)) <= All(g)
  {
    TreesWithin(g.direct, g.trees, k + 1);
    BlocksNext(g.direct, g.trees, k);
    InSum(Blocks(g.direct, First(g.trees, k)), multiset(Flatten(g.trees[k].t)));
  }

  /** The next tree is in use. */
  ghost function TreeJob(s: Appended, k: nat): (j: Freeing)
    requires k < |s.g.trees|
    ensures j == Job(s.g.trees[k].t, k + 1, s.disk.words, s.g.p, s.disk.used - Through(s.g, k), s.disk.bitmaps)
    ensures j.t.Node? && j.used - Before(j.t, 0) == j.used
  {
    TreeOnce(s, k);
    TreeUsed(s, k);
    Job(s.g.trees[k].t, k + 1, s.disk.words, s.g.p, s.disk.used - Through(s.g, k), s.disk.bitmaps)
  }

  lemma TreeOnce(s: Appended, k: nat)
    requires k < |s.g.trees|
    ensures var t := s.g.trees[k].t; Stored(s.disk.words, t, s.g.p) && Shape(t, k + 1) && Distinct(t) && Through(s.g, k) !! Of(t)
  {
    NextTree(s.g, k);
    SumOnce(Blocks(s.g.direct, First(s.g.trees, k)), multiset(Flatten(s.g.trees[k].t)), All(s.g));
    assert IsTree(s.g.trees[k], s.g.p, s.g.n, k);
    PackedShape(s.g.trees[k]);
  }

  lemma TreeUsed(s: Appended, k: nat)
    requires k < |s.g.trees|
    ensures forall b :: b in Of(s.g.trees[k].t) ==> b in s.disk.used && b !in s.disk.bitmaps
  {
    TreeWithin(s.g.direct, s.g.trees, k);
    assert forall b :: b in Of(s.g.trees[k].t) ==> b in All(s.g);
  }

  /** All blocks of a file in the order in which they are freed. */
  function Order(direct: seq<nat>, trees: seq<Packed>): (r: seq<nat>)
  {
    if trees == [] then direct else Order(direct, trees[..|trees| - 1]) + Flatten(trees[|trees| - 1].t)
  }

  function InOrder(g: Grove): (r: seq<nat>)
  {
    Order(g.direct, g.trees)
  }

  /** How many blocks come before the `k`th tree. */
  function Offset(g: Grove, k: nat): (n: nat)
  {
    |Order(g.direct, First(g.trees, k))|
  }

  lemma {:induction false} OrderBlocks(direct: seq<nat>, trees: seq<Packed>)
    ensures multiset(Order(direct, trees)) == Blocks(direct, trees) && Members(Order(direct, trees)) == In(Blocks(direct, trees))
  {
    if trees != [] { OrderBlocks(direct, trees[..|trees| - 1]); }
    assert forall b :: b in Order(direct, trees) <==> b in multiset(Order(direct, trees));
  }

  lemma {:induction false} OrderPrefix(direct: seq<nat>, trees: seq<Packed>, k: nat)
    ensures var r := Order(direct, First(trees, k)); |r| <= |Order(direct, trees)| && Order(direct, trees)[..|r|] == r
  {
    if k < |trees| {
      var front := trees[..|trees| - 1];
      assert First(front, k) == First(trees, k);
      OrderPrefix(direct, front, k);
    }
  }

  lemma {:induction false} DirectFirst(direct: seq<nat>, trees: seq<Packed>)
    ensures |direct| <= |Order(direct, trees)| && Order(direct, trees)[..|direct|] == direct
  {
    if trees != [] { DirectFirst(direct, trees[..|trees| - 1]); }
  }

  lemma OffsetNext(g: Grove, k: nat)
    ensures Offset(g, 0) == |g.direct| && Offset(g, k) <= Offset(g, k + 1) <= |InOrder(g)|
    ensures k < |g.trees| ==> Offset(g, k + 1) == Offset(g, k) + |Flatten(g.trees[k].t)| > Offset(g, k)
    ensures k >= |g.trees| ==> Offset(g, k) == |InOrder(g)|
  {
    OrderPrefix(g.direct, g.trees, k + 1);
    assert First(g.trees, 0) == [];
    if k < |g.trees| { FirstNext(g.trees, k); }
  }

  /** The direct blocks come first. */
  lemma DirectGone(g: Grove, i: nat)
    requires i <= |g.direct|
    ensures i <= |InOrder(g)| && Gone(InOrder(g), i) == Direct(g, i)
  {
    DirectFirst(g.direct, g.trees);
    assert InOrder(g)[..i] == g.direct[..i];
    assert g.direct[..|g.direct|] == g.direct && InOrder(g)[..|InOrder(g)|] == InOrder(g);
    assert Front(InOrder(g), i) == g.direct[..i];
  }

  /** What is gone when, after `k` trees, `n` blocks of the next one are. */
  lemma TreeGone(g: Grove, k: nat, n: nat)
    requires k < |g.trees| && n <= |Flatten(g.trees[k].t)|
    ensures Offset(g, k) + |Flatten(g.trees[k].t)| <= |InOrder(g)|
    ensures Gone(InOrder(g), Offset(g, k) + n) == Through(g, k) + Gone(Flatten(g.trees[k].t), n)
  {
    OrderPrefix(g.direct, g.trees, k + 1);
    FirstNext(g.trees, k);
    var front, tree := Order(g.direct, First(g.trees, k)), Flatten(g.trees[k].t);
    assert Order(g.direct, First(g.trees, k + 1)) == front + tree;
    PrefixFront(front, tree, InOrder(g), n);
    MembersSum(front, Front(tree, n));
    OrderBlocks(g.direct, First(g.trees, k));
  }

  lemma EveryGone(g: Grove)
    ensures Gone(InOrder(g), |InOrder(g)|) == In(All(g)) && Gone(InOrder(g), 0) == iset{}
  {
    OrderBlocks(g.direct, g.trees);
  }

  // ---------------------------------------------------------------- what is left in the inode

  /** The first words of the inode set to zero. */
  function Zeroed(row: seq<nat>, m: nat): (r: seq<nat>)
    ensures |r| == |row|
  {
    seq(|row|, i requires 0 <= i < |row| => if i < m then 0 else row[i])
  }

  lemma ZeroedNext(row: seq<nat>, m: nat)
    requires m < |row|
    ensures Zeroed(row, m)[m] == row[m] && Zeroed(row, m + 1) == Zeroed(row, m)[m := 0]
    ensures row[m] == 0 ==> Zeroed(row, m + 1) == Zeroed(row, m)
  {
  }

  /** The word of the `i`th direct block. */
  function DirectWord(direct: seq<nat>, i: nat): (b: nat)
  {
    if i < |direct| then direct[i] else 0
  }

  /** The word of the `k`th tree. */
  function TreeWord(trees: seq<Packed>, k: nat): (b: nat)
  {
    if k < |trees| then trees[k].t.block else 0
  }

  lemma RowIs(g: Grove)
    ensures forall i :: 0 <= i < DIRECT ==> RootRow(g)[i] == DirectWord(g.direct, i)
    ensures forall k :: 0 <= k < 3 ==> RootRow(g)[DIRECT + k] == TreeWord(g.trees, k)
  {
  }

  /**
   The inode's words when the first `n` blocks are gone: a block's word is zero when it is, a
   tree's when all of it is; but the third tree's as soon as its turn has come.
   */
  ghost function RowLeft(g: Grove, n: nat): (r: seq<nat>)
  {
    seq(15, i requires 0 <= i < 15 =>
      if i < DIRECT then (if n <= i then DirectWord(g.direct, i) else 0)
      else if n < Offset(g, if i == 14 then 2 else i - DIRECT + 1) then TreeWord(g.trees, i - DIRECT) else 0)
  }

  lemma Offsets(g: Grove)
    ensures |g.direct| == Offset(g, 0) <= Offset(g, 1) <= Offset(g, 2) <= Offset(g, 3) == |InOrder(g)|
    ensures forall k :: 0 <= k < |g.trees| ==> Offset(g, k) < Offset(g, k + 1)
    ensures |g.trees| > 0 ==> |g.direct| == DIRECT
  {
    OffsetNext(g, 0);
    OffsetNext(g, 1);
    OffsetNext(g, 2);
    OffsetNext(g, 3);
    if |g.trees| > 0 { StartMono(g.p, 0, |g.trees| - 1); }
  }

  /** The words when a direct block could not be freed. */
  lemma LeftDirect(g: Grove, n: nat)
    requires n < |g.direct| || n == 0
    ensures RowLeft(g, n) == Zeroed(RootRow(g), n)
  {
    Offsets(g);
    RowIs(g);
    forall i | 0 <= i < 15
      ensures RowLeft(g, n)[i] == Zeroed(RootRow(g), n)[i]
    {
      if i >= DIRECT { assert RootRow(g)[DIRECT + (i - DIRECT)] == TreeWord(g.trees, i - DIRECT); }
    }
  }

  /** The words when the `k`th tree could not. */
  lemma LeftTree(g: Grove, k: nat, n: nat)
    requires k < |g.trees| && Offset(g, k) <= n < Offset(g, k + 1)
    ensures RowLeft(g, n) == Zeroed(RootRow(g), if k == 2 then 15 else DIRECT + k)
  {
    Offsets(g);
    RowIs(g);
    assert RootRow(g)[12] == TreeWord(g.trees, 0) && RootRow(g)[13] == TreeWord(g.trees, 1) && RootRow(g)[14] == TreeWord(g.trees, 2);
  }

  /** The words when all blocks are gone. */
  lemma LeftNone(g: Grove)
    ensures RowLeft(g, |InOrder(g)|) == Zeroed(RootRow(g), 15)
  {
    Offsets(g);
  }

  /**
   When a word that is left in the inode still heads a tree that is wholly in use: just when
   none of its blocks was reached before the failure.
   */
  lemma WordHeads(s: Appended, n: nat, k: nat)
    requires k < |s.g.trees| && n <= |InOrder(s.g)| && RowLeft(s.g, n)[DIRECT + k] != 0
    ensures Of(s.g.trees[k].t) <= s.disk.used - Gone(InOrder(s.g), n) <==> n <= Offset(s.g, k)
    ensures s.g.trees[k].t.block in s.disk.used - Gone(InOrder(s.g), n)
  {
    WordLeft(s.g, n, k);
    if n <= Offset(s.g, k) { Untouched(s, n, k); } else { Reached(s, n - Offset(s.g, k), k); }
  }

  lemma WordLeft(g: Grove, n: nat, k: nat)
    requires k < |g.trees| && RowLeft(g, n)[DIRECT + k] != 0
    ensures n > Offset(g, k) ==> n - Offset(g, k) < |Flatten(g.trees[k].t)|
  {
    OffsetNext(g, k);
    assert DIRECT + k - DIRECT + 1 == k + 1;
  }

  lemma Untouched(s: Appended, n: nat, k: nat)
    requires k < |s.g.trees| && n <= Offset(s.g, k)
    ensures Of(s.g.trees[k].t) <= s.disk.used - Gone(InOrder(s.g), n) && s.g.trees[k].t.block in Of(s.g.trees[k].t)
  {
    TreeOnce(s, k);
    TreeUsed(s, k);
    TreeGone(s.g, k, 0);
    AllGone(s.g.trees[k].t);
    assert Gone(InOrder(s.g), n) <= Gone(InOrder(s.g), Offset(s.g, k));
  }

  lemma Reached(s: Appended, n: nat, k: nat)
    requires k < |s.g.trees| && 0 < n < |Flatten(s.g.trees[k].t)|
    ensures !(Of(s.g.trees[k].t) <= s.disk.used - Gone(InOrder(s.g), Offset(s.g, k) + n))
    ensures s.g.trees[k].t.block in s.disk.used - Gone(InOrder(s.g), Offset(s.g, k) + n)
  {
    var t := s.g.trees[k].t;
    TreeOnce(s, k);
    TreeUsed(s, k);
    TreeGone(s.g, k, n);
    assert Flatten(t)[0] in Flatten(t)[..n];
    assert Flatten(t)[0] in Of(t);
    RootLast(t, n);
  }

  lemma RootLast(t: Tree, n: nat)
    requires Distinct(t) && n < |Flatten(t)|
    ensures t.block in Of(t) && t.block !in Gone(Flatten(t), n)
  {
    var f := Flatten(t);
    assert f == f[..|f| - 1] + [t.block];
    assert multiset(f)[t.block] == multiset(f[..|f| - 1])[t.block] + 1;
    assert f[..n] == f[..|f| - 1][..n];
    assert t.block !in f[..|f| - 1];
  }

  // ---------------------------------------------------------------- freeing

  /** The blocks of the file that are free. */
  ghost predicate Unwound(fs: Fs, s: Appended, blocks: iset<nat>)
    reads fs
  {
    && fs.Valid() && fs.bitmaps == s.disk.bitmaps && fs.pointers == s.g.p
    && Clean(fs.state, s.disk.words) && fs.state.used == s.disk.used - blocks
  }

  /** One of the direct blocks, if the file has it. */
  method FreeDirect(fs: Fs, inode: Inode, i: nat, ghost row: seq<nat>, ghost s: Appended) returns (ok: bool)
    requires i < DIRECT && Unwound(fs, s, Direct(s.g, i)) && |row| == 15 && inode.block == Zeroed(row, i)
    requires row[i] == DirectWord(s.g.direct, i)
    modifies fs, inode`block
    ensures Unwound(fs, s, Direct(s.g, if ok then i + 1 else i)) && inode.block == Zeroed(row, if ok then i + 1 else i)
    ensures (!ok ==> i < |s.g.direct|) && fs.failures == if ok then old(fs.failures) else old(fs.failures) + 1
  {
    ok := true;
    ZeroedNext(row, i);
    if inode.block[i] != 0 {
      ok := MarkDirect(fs, inode.block[i], i, s);
      if ok { inode.block := inode.block[i := 0]; }
    } else {
      NoDirect(s, i);
    }
  }

  method MarkDirect(fs: Fs, b: nat, i: nat, ghost s: Appended) returns (ok: bool)
    requires Unwound(fs, s, Direct(s.g, i)) && i < |s.g.direct| && b == s.g.direct[i]
    modifies fs
    ensures Unwound(fs, s, Direct(s.g, if ok then i + 1 else i)) && fs.failures == if ok then old(fs.failures) else old(fs.failures) + 1
  {
    NextDirect(s, i);
    ok := MarkOne(fs, b, s.disk.words);
  }

  lemma NoDirect(s: Appended, i: nat)
    requires DirectWord(s.g.direct, i) == 0
    ensures Direct(s.g, i + 1) == Direct(s.g, i)
  {
  }

  method FreeAllDirect(fs: Fs, inode: Inode, ghost row: seq<nat>, ghost s: Appended) returns (ok: bool, ghost m: nat)
    requires Unwound(fs, s, iset{}) && inode.block == row && |row| == 15
    requires forall i :: 0 <= i < DIRECT ==> row[i] == DirectWord(s.g.direct, i)
    modifies fs, inode`block
    ensures m <= DIRECT && (ok <==> m == DIRECT) && (!ok ==> m < |s.g.direct|)
    ensures Unwound(fs, s, Direct(s.g, m)) && inode.block == Zeroed(row, m)
    ensures fs.failures == if ok then old(fs.failures) else old(fs.failures) + 1
  {
    ok := true;
    Ends(s.g);
    var i := 0;
    while ok && i < 12
      invariant i <= 12 && (!ok ==> i < 12 && i < |s.g.direct|) && Unwound(fs, s, Direct(s.g, i)) && inode.block == Zeroed(row, i)
      invariant fs.failures == if ok then old(fs.failures) else old(fs.failures) + 1
    {
      ok := FreeDirect(fs, inode, i, row, s);
      if ok { i := i + 1; }
    }
    m := i;
  }

  /** How far a tree has been freed: all of it, or the first `n` of its blocks. */
  ghost predicate UnwoundTree(fs: Fs, s: Appended, k: nat, n: nat, ok: bool)
    reads fs
  {
    if ok then Unwound(fs, s, Through(s.g, k + 1))
    else k < |s.g.trees| && n < |Flatten(s.g.trees[k].t)| && Unwound(fs, s, Through(s.g, k) + Gone(Flatten(s.g.trees[k].t), n))
  }

  /** One of the last three words, if there is a tree under it. */
  method FreeUnder(fs: Fs, b: nat, k: nat, ghost s: Appended) returns (ok: bool, ghost n: nat)
    requires k < 3 && Unwound(fs, s, Through(s.g, k)) && b == TreeWord(s.g.trees, k)
    modifies fs
    ensures UnwoundTree(fs, s, k, n, ok) && fs.failures == if ok then old(fs.failures) else old(fs.failures) + 1
  {
    ok, n := true, 0;
    if b != 0 { ok, n := FreeTree(fs, b, k, s); } else { NoTree(s, k); }
  }

  lemma NoTree(s: Appended, k: nat)
    requires TreeWord(s.g.trees, k) == 0
    ensures Through(s.g, k + 1) == Through(s.g, k)
  {
  }

  method FreeTree(fs: Fs, b: nat, k: nat, ghost s: Appended) returns (ok: bool, ghost n: nat)
    requires k < 3 && Unwound(fs, s, Through(s.g, k)) && k < |s.g.trees| && b == s.g.trees[k].t.block
    modifies fs
    ensures UnwoundTree(fs, s, k, n, ok) && fs.failures == if ok then old(fs.failures) else old(fs.failures) + 1
  {
    ok, n := FreeAtHeight(fs, b, k, TreeJob(s, k));
    TreeFreed(s, k, fs.state.used, n, ok);
  }

  lemma TreeFreed(s: Appended, k: nat, now: iset<nat>, n: nat, ok: bool)
    requires k < |s.g.trees| && n <= |Flatten(s.g.trees[k].t)| && (ok <==> n == |Flatten(s.g.trees[k].t)|)
    requires now == s.disk.used - Through(s.g, k) - Gone(Flatten(s.g.trees[k].t), n)
    ensures now == s.disk.used - if ok then Through(s.g, k + 1) else Through(s.g, k) + Gone(Flatten(s.g.trees[k].t), n)
  {
    NextTree(s.g, k);
    AllGone(s.g.trees[k].t);
  }

  method FreeAtHeight(fs: Fs, b: nat, k: nat, ghost j: Freeing) returns (ok: bool, ghost n: nat)
    requires k < 3 && fs.Valid() && At(fs.state, j, k + 1, 0) && j.t.block == b
    modifies fs
    ensures fs.Valid() && Freed(fs.state, j, n, ok) && fs.failures == if ok then old(fs.failures) else old(fs.failures) + 1
  {
    if k == 0 {
      ok, n := FreeInd(fs, b, j);
    } else if k == 1 {
      ok, n := FreeDind(fs, b, j);
    } else {
      ok, n := FreeTind(fs, b, j);
    }
  }

  /** A tree, and its word set to zero, the last one even when that failed. */
  method FreeWord(fs: Fs, inode: Inode, i: nat, k: nat, ghost row: seq<nat>, ghost s: Appended) returns (ok: bool, ghost n: nat)
    requires k < 3 && i == DIRECT + k && Unwound(fs, s, Through(s.g, k)) && |row| == 15 && inode.block == Zeroed(row, i)
    requires row[i] == TreeWord(s.g.trees, k)
    modifies fs, inode`block
    ensures UnwoundTree(fs, s, k, n, ok) && inode.block == Zeroed(row, if ok || k == 2 then i + 1 else i)
    ensures fs.failures == if ok then old(fs.failures) else old(fs.failures) + 1
  {
    ZeroedNext(row, i);
    ok, n := FreeUnder(fs, inode.block[i], k, s);
    if ok || k == 2 { inode.block := inode.block[i := 0]; }
  }

  /** How far freeing has come: the first `n` blocks in order are free, and the words are set accordingly. */
  ghost predicate Outcome(fs: Fs, inode: Inode, s: Appended, n: nat)
    reads fs, inode
  {
    n <= |InOrder(s.g)| && Unwound(fs, s, Gone(InOrder(s.g), n)) && inode.block == RowLeft(s.g, n)
  }

  lemma TreeOutcome(fs: Fs, inode: Inode, s: Appended, k: nat, n: nat)
    requires k < 3 && UnwoundTree(fs, s, k, n, false) && inode.block == Zeroed(RootRow(s.g), if k == 2 then 15 else DIRECT + k)
    ensures Outcome(fs, inode, s, Offset(s.g, k) + n) && Offset(s.g, k) + n < |InOrder(s.g)|
  {
    TreeGone(s.g, k, n);
    OffsetNext(s.g, k);
    LeftTree(s.g, k, Offset(s.g, k) + n);
  }

  lemma AllOutcome(fs: Fs, inode: Inode, s: Appended)
    requires UnwoundTree(fs, s, 2, 0, true) && inode.block == Zeroed(RootRow(s.g), 15)
    ensures Outcome(fs, inode, s, |InOrder(s.g)|)
  {
    Ends(s.g);
    EveryGone(s.g);
    LeftNone(s.g);
  }

  /** The three trees, one after the other. */
  method FreeTrees(fs: Fs, inode: Inode, k: nat, ghost s: Appended) returns (ok: bool, ghost n: nat)
    requires k < 3 && Unwound(fs, s, Through(s.g, k)) && inode.block == Zeroed(RootRow(s.g), DIRECT + k)
    modifies fs, inode`block
    ensures Outcome(fs, inode, s, n) && (if ok then n == |InOrder(s.g)| else n < |InOrder(s.g)|)
    ensures fs.failures == if ok then old(fs.failures) else old(fs.failures) + 1
    decreases 3 - k
  {
    RowIs(s.g);
    ok, n := FreeWord(fs, inode, DIRECT + k, k, RootRow(s.g), s);
    if ok && k < 2 {
      ok, n := FreeTrees(fs, inode, k + 1, s);
    } else {
      n := TreeEnd(fs, inode, s, k, n, ok);
    }
  }

  /** The end of the freeing: at the last tree, or where a tree failed. */
  lemma TreeEnd(fs: Fs, inode: Inode, s: Appended, k: nat, n: nat, ok: bool) returns (m: nat)
    requires k < 3 && (ok ==> k == 2) && UnwoundTree(fs, s, k, n, ok)
    requires inode.block == Zeroed(RootRow(s.g), if k == 2 then 15 else DIRECT + k)
    ensures Outcome(fs, inode, s, m) && (if ok then m == |InOrder(s.g)| else m < |InOrder(s.g)|)
  {
    if ok {
      AllOutcome(fs, inode, s);
      m := |InOrder(s.g)|;
    } else {
      TreeOutcome(fs, inode, s, k, n);
      m := Offset(s.g, k) + n;
    }
  }

  method FreeBlocks(fs: Fs, inode: Inode, ghost s: Appended) returns (ok: bool, ghost n: nat)
    requires Unwound(fs, s, iset{}) && inode.block == RootRow(s.g)
    modifies fs, inode`block
    ensures Outcome(fs, inode, s, n) && (if ok then n == |InOrder(s.g)| else n < |InOrder(s.g)|)
    ensures fs.failures == if ok then old(fs.failures) else old(fs.failures) + 1
  {
    Ends(s.g);
    RowIs(s.g);
    ok, n := FreeAllDirect(fs, inode, RootRow(s.g), s);
    if ok {
      ok, n := FreeTrees(fs, inode, 0, s);
    } else {
      DirectGone(s.g, n);
      LeftDirect(s.g, n);
      DirectFirst(s.g.direct, s.g.trees);
    }
  }

  /** With nothing waiting in the cache, the freeing can begin. */
  lemma Beginning(fs: Fs, s: Appended)
    requires fs.Valid() && DiskOf(fs.state).used == s.disk.used && fs.words == s.disk.words && fs.bitmaps == s.disk.bitmaps
    requires fs.pointers == s.g.p && fs.dirty == {}
    ensures Unwound(fs, s, iset{})
  {
  }

  /**
   ext2_inode_free_all, for truncation: the cache is written back, and then the blocks are freed
   in order, up to the first access that fails.  The words of the inode are zero as far as that,
   and the count of sectors is zero in any case.
   */
  method FreeAll(fs: Fs, inode: Inode, ghost s: Appended) returns (ok: bool, ghost n: nat)
    requires fs.Valid() && Matches(fs, inode, s) && (fs.readWrite || fs.dirty == {})
    modifies fs, inode
    ensures fs.Valid() && OffBitmaps(fs.bitmaps, s.disk.words, fs.words)
    ensures n <= |InOrder(s.g)| && fs.state.used == s.disk.used - Gone(InOrder(s.g), n) && inode.block == RowLeft(s.g, n)
    ensures (ok ==> n == |InOrder(s.g)|) && (!ok ==> n < |InOrder(s.g)| || n == 0)
    ensures fs.failures == if ok then old(fs.failures) else old(fs.failures) + 1
    ensures inode.sectors == 0 || (!ok && n == 0 && inode.sectors == s.sectors)
  {
    ok := fs.WriteBack();
    n := 0;
    EveryGone(s.g);
    LeftDirect(s.g, 0);
    assert Zeroed(RootRow(s.g), 0) == RootRow(s.g);
    if ok {
      Beginning(fs, s);
      ok, n := FreeBlocks(fs, inode, s);
      inode.sectors := 0;
    }
  }

  // ---------------------------------------------------------------- append, then free

  /** Freeing a file that has gained blocks leaves in use what freeing it before would have left. */
  lemma GainsFreed(s: Appended, s': Appended, given: seq<nat>, n: nat)
    requires Ran(s, s', given, n, true)
    ensures s'.disk.used - In(All(s'.g)) == s.disk.used - In(All(s.g))
  {
  }

  /** What is in use decides the bitmaps and all counts. */
  lemma SameBooks(a: Sound, b: Sound)
    requires a.geo == b.geo && a.used == b.used
    ensures a.books == b.books && a.groupFree == b.groupFree && a.free == b.free
  {
    SameUsed(a.books, b.books);
  }

  /** Fifteen zeros. */
  function NoRow(): (r: seq<nat>)
  {
    RootRow(Forest([], [], 1, 0))
  }

  /**
   Appends to a file, and then all of it is freed.  If no access fails, it is as if it had been
   freed without them, whether or not the volume filled up on the way.
   */
  method AppendAndFree(fs: Fs, inode: Inode, blocks: nat, n: nat, bg: nat, ghost s: Appended)
    requires Ready(fs, s.disk, bg) && Matches(fs, inode, s) && fs.readWrite
    requires s.g.n == blocks && blocks + n <= Start(s.g.p, 2) + Pow(s.g.p, 2)
    modifies fs, inode
    ensures fs.Valid() && old(fs.failures) <= fs.failures && Preserved(s, fs.words)
    ensures fs.failures == old(fs.failures) ==>
              fs.state.used == s.disk.used - In(All(s.g)) && inode.block == NoRow() && inode.sectors == 0
  {
    var given;
    ghost var s' := s;
    given, s' := AppendAll(fs, inode, blocks, n, bg, s);
    FreeGained(fs, inode, given, n, s, s', fs.failures == old(fs.failures));
  }

  method FreeGained(fs: Fs, inode: Inode, ghost given: seq<nat>, ghost n: nat, ghost s: Appended, ghost s': Appended, ghost clean: bool)
    requires fs.Valid() && Matches(fs, inode, s') && fs.readWrite && Ran(s, s', given, n, clean)
    modifies fs, inode
    ensures fs.Valid() && old(fs.failures) <= fs.failures && Preserved(s, fs.words)
    ensures clean && fs.failures == old(fs.failures) ==>
              fs.state.used == s.disk.used - In(All(s.g)) && inode.block == NoRow() && inode.sectors == 0
  {
    var ok;
    ghost var m;
    ok, m := FreeAll(fs, inode, s');
    if ok && clean { FreedGained(s, s', given, n); }
    StillPreserved(s, s', fs.words);
  }

  lemma FreedGained(s: Appended, s': Appended, given: seq<nat>, n: nat)
    requires Ran(s, s', given, n, true)
    ensures s'.disk.used - Gone(InOrder(s'.g), |InOrder(s'.g)|) == s.disk.used - In(All(s.g)) && RowLeft(s'.g, |InOrder(s'.g)|) == NoRow()
  {
    GainsFreed(s, s', given, n);
    EveryGone(s'.g);
    LeftNone(s'.g);
    assert Zeroed(RootRow(s'.g), 15) == NoRow();
  }

  /** The blocks in use that are not the file's are as they were. */
  ghost predicate Preserved(s: Appended, words: seq<Words>)
  {
    |words| == |s.disk.words| && forall b :: b in Keeps(s.disk) && b !in All(s.g) && b < |words| ==> words[b] == s.disk.words[b]
  }

  lemma StillPreserved(s: Appended, s': Appended, words: seq<Words>)
    requires Spares(s, s') && OffBitmaps(s'.disk.bitmaps, s'.disk.words, words)
    ensures Preserved(s, words)
  {
  }

  /**
   The round trip: a file is made of up to `n` blocks, as far as the volume has room, and then
   freed.  If no access fails, the bitmaps and the free counts are what they were; and no
   block that was in use has changed in any case.
   */
  method AppendThenFree(fs: Fs, n: nat, bg: nat) returns (inode: Inode)
    requires Ready(fs, Now(fs), bg) && n <= Start(fs.pointers, 2) + Pow(fs.pointers, 2) && fs.readWrite
    modifies fs
    ensures fs.Valid() && fresh(inode) && old(fs.failures) <= fs.failures
    ensures fs.failures == old(fs.failures) ==>
              fs.state.books == old(fs.state.books) && fs.groupFree == old(fs.groupFree) && fs.free == old(fs.free)
    ensures fs.failures == old(fs.failures) ==> fs.state.used == old(fs.state.used) && inode.block == NoRow() && inode.sectors == 0
    ensures forall b :: b in Keeps(old(Now(fs))) && b < |old(fs.words)| ==> b < |fs.words| && fs.words[b] == old(fs.words)[b]
  {
    ghost var s, was := Fresh(Now(fs), fs.sectorsPerBlock, fs.pointers), fs.state;
    inode := new Inode();
    AppendAndFree(fs, inode, 0, n, bg, s);
    if fs.failures == old(fs.failures) { SameBooks(was, fs.state); }
  }
}
