/**
 The blocks of an ext2 inode: twelve direct ones and three trees, as
 `ext2_inode_alloc_block` appends to them and `ext2_inode_read_block` looks them up.
 */
module Ext2Inode {
  import opened Basics
  import opened Arith
  import opened Ext2Fs
  import opened Ext2Tree

  const DIRECT := 12

  // ---------------------------------------------------------------- the blocks of an inode

  /** `n` logical blocks: the direct ones, and the trees under the last three words. */
  datatype Forest = Forest(direct: seq<nat>, trees: seq<Packed>, p: nat, n: nat)

  /** The first logical block under the `k`th tree. */
  function Start(p: nat, k: nat): (r: nat)
  {
    if k == 0 then DIRECT else Start(p, k - 1) + Pow(p, k)
  }

  /** How many of `n` blocks are under the `k`th tree. */
  function Under(p: nat, n: nat, k: nat): (r: nat)
  {
    if n <= Start(p, k) then 0 else if n <= Start(p, k + 1) then n - Start(p, k) else Pow(p, k + 1)
  }

  /** The `k`th tree of a forest of `n` blocks. */
  ghost predicate IsTree(f: Packed, p: nat, n: nat, k: nat)
  {
    f.p == p && f.h == k + 1 && f.c == Under(p, n, k)
  }

  /** A tree is begun when all before it is full. */
  ghost predicate Holding(g: Forest)
  {
    && g.p > 0 && |g.direct| == (if g.n < DIRECT then g.n else DIRECT) && |g.trees| <= 3
    && (forall k :: 0 <= k < |g.trees| ==> IsTree(g.trees[k], g.p, g.n, k))
    && (|g.trees| > 0 ==> Start(g.p, |g.trees| - 1) < g.n) && g.n <= Start(g.p, |g.trees|)
  }

  type Grove = g: Forest | Holding(g) ghost witness Forest([], [], 1, 0)

  /** The data blocks in logical order. */
  function Data(direct: seq<nat>, trees: seq<Packed>): (r: seq<nat>)
  {
    if trees == [] then direct else Data(direct, trees[..|trees| - 1]) + Leaves(trees[|trees| - 1].t)
  }

  /** All blocks, pointer blocks too. */
  function Blocks(direct: seq<nat>, trees: seq<Packed>): (r: multiset<nat>)
  {
    if trees == [] then multiset(direct) else Blocks(direct, trees[..|trees| - 1]) + multiset(Flatten(trees[|trees| - 1].t))
  }

  /** The fifteen words of the inode. */
  function RootRow(g: Grove): (r: seq<nat>)
    ensures |r| == 15
  {
    seq(15, i requires 0 <= i < 15 =>
      if i < DIRECT then (if i < |g.direct| then g.direct[i] else 0)
      else if i - DIRECT < |g.trees| then g.trees[i - DIRECT].t.block else 0)
  }

  ghost predicate TreesStored(words: seq<Words>, trees: seq<Packed>)
  {
    forall k :: 0 <= k < |trees| ==> Stored(words, trees[k].t, trees[k].p)
  }

  /** Each block is there once, and in use. */
  ghost predicate Owned(used: iset<nat>, blocks: multiset<nat>)
  {
    (forall b :: blocks[b] <= 1) && forall b :: b in blocks ==> b in used
  }

  lemma {:induction false} TreeWithin(direct: seq<nat>, trees: seq<Packed>, k: nat)
    requires k < |trees|
    ensures multiset(Flatten(trees[k].t)) <= Blocks(direct, trees)
  {
    if k < |trees| - 1 { TreeWithin(direct, trees[..|trees| - 1], k); }
  }

  // ---------------------------------------------------------------- looking up

  /** One step down: a word of a pointer block. */
  function WordAt(words: seq<Words>, b: Option<nat>, i: nat): (r: Option<nat>)
  {
    if b.Some? && b.value < |words| && i < |words[b.value]| then Some(words[b.value][i]) else None
  }

  /** The block that ext2_inode_read_block resolves a logical block to. */
  function Resolve(words: seq<Words>, block: seq<nat>, p: nat, i: nat): (r: Option<nat>)
    requires |block| == 15 && p > 0
  {
    if i < DIRECT then Some(block[i])
    else if i - DIRECT < p then WordAt(words, Some(block[12]), i - DIRECT)
    else if i - DIRECT - p < p * p then
      var j := i - DIRECT - p;
      DivMod(j, p);
      WordAt(words, WordAt(words, Some(block[13]), j / p), j % p)
    else
      var j := i - DIRECT - p - p * p;
      DivMod(j, p);
      DivMod(j % p, p);
      WordAt(words, WordAt(words, WordAt(words, Some(block[14]), j / p), j % p / p), j % p % p)
  }

  /** A word of a stored pointer block is the subtree under it. */
  lemma StepDown(words: seq<Words>, f: Packed, k: nat)
    requires f.h > 0 && Stored(words, f.t, f.p) && k < |f.t.kids|
    ensures WordAt(words, Some(f.t.block), k) == Some(f.t.kids[k].block)
    ensures Stored(words, Kid(f, k).t, f.p)
  {
  }

  /** `Pow` for the heights in use. */
  lemma Pows(p: nat)
    ensures Pow(p, 0) == 1 && Pow(p, 1) == p && Pow(p, 2) == p * p
    ensures Start(p, 0) == DIRECT && Start(p, 1) == DIRECT + p && Start(p, 2) == DIRECT + p + p * p
  {
    TimesIs(1, p);
    TimesIs(p, p);
    assert Pow(p, 1) == Times(Pow(p, 0), p);
    assert Pow(p, 2) == Times(Pow(p, 1), p);
    assert Start(p, 1) == Start(p, 0) + Pow(p, 1);
  }

  lemma LookOne(words: seq<Words>, f: Packed, i: nat)
    requires f.h == 1 && Stored(words, f.t, f.p) && i < f.c
    ensures WordAt(words, Some(f.t.block), i) == Some(LeafAt(f, i))
  {
    Pows(f.p);
    Digit(Span(f), |f.t.kids|, f.c, i);
    StepDown(words, f, i);
  }

  lemma LookTwo(words: seq<Words>, f: Packed, i: nat)
    requires f.h == 2 && Stored(words, f.t, f.p) && i < f.c
    ensures f.p > 0 && 0 <= i / f.p && 0 <= i % f.p
    ensures WordAt(words, WordAt(words, Some(f.t.block), i / f.p), i % f.p) == Some(LeafAt(f, i))
  {
    Pows(f.p);
    Digit(Span(f), |f.t.kids|, f.c, i);
    StepDown(words, f, i / f.p);
    LookOne(words, Kid(f, i / f.p), i % f.p);
  }

  /** In the third tree, for the first `p` blocks: two zero indices, and then the block's own. */
  lemma LookThree(words: seq<Words>, f: Packed, i: nat)
    requires f.h == 3 && Stored(words, f.t, f.p) && i < f.c && i < f.p
    ensures WordAt(words, WordAt(words, WordAt(words, Some(f.t.block), 0), 0), i) == Some(LeafAt(f, i))
  {
    Pows(f.p);
    Digit(Span(f), |f.t.kids|, f.c, i);
    Small(i, f.p);
    StepDown(words, f, 0);
    LookTwo(words, Kid(f, 0), i);
  }

  lemma Small(i: nat, p: nat)
    requires i < p
    ensures 0 / p == 0 && 0 % p == 0 && i / p == 0 && i % p == i && i / (p * p) == 0 && i % (p * p) == i && i < p * p
  {
    assert p * p >= p;
    DivIs(i, 0, i, p);
    DivIs(0, 0, 0, p);
    DivIs(i, 0, i, p * p);
  }

  lemma {:induction false} DataCount(g: Grove, k: nat)
    requires k <= |g.trees|
    ensures |Data(g.direct, g.trees[..k])| == if g.n <= Start(g.p, k) then g.n else Start(g.p, k)
  {
    StartMono(g.p, 0, k);
    if k > 0 {
      assert IsTree(g.trees[k - 1], g.p, g.n, k - 1);
      DataCount(g, k - 1);
      PackedCount(g.trees[k - 1]);
      assert g.trees[..k][..k - 1] == g.trees[..k - 1];
    }
  }

  lemma {:induction false} DataAt(direct: seq<nat>, trees: seq<Packed>, k: nat, j: nat)
    requires k < |trees| && j < |Leaves(trees[k].t)|
    ensures |Data(direct, trees[..k])| + j < |Data(direct, trees)|
    ensures Data(direct, trees)[|Data(direct, trees[..k])| + j] == Leaves(trees[k].t)[j]
  {
    var front := trees[..|trees| - 1];
    if k < |trees| - 1 {
      assert front[..k] == trees[..k];
      DataAt(direct, front, k, j);
    }
  }

  lemma {:induction false} DataDirect(direct: seq<nat>, trees: seq<Packed>, i: nat)
    requires i < |direct|
    ensures i < |Data(direct, trees)| && Data(direct, trees)[i] == direct[i]
  {
    if trees != [] { DataDirect(direct, trees[..|trees| - 1], i); }
  }

  lemma {:induction false} StartMono(p: nat, k: nat, l: nat)
    requires k <= l
    ensures DIRECT <= Start(p, k) <= Start(p, l)
  {
    if k < l { StartMono(p, k, l - 1); } else if k > 0 { StartMono(p, k - 1, k - 1); }
  }

  lemma BegunBy(g: Grove, k: nat)
    requires Start(g.p, k) < g.n
    ensures k < |g.trees| && IsTree(g.trees[k], g.p, g.n, k)
  {
    if |g.trees| <= k { StartMono(g.p, |g.trees|, k); }
  }

  /** A logical block under the `k`th tree. */
  lemma DataUnder(g: Grove, k: nat, j: nat)
    requires k < 3 && Start(g.p, k) + j < g.n && j < Pow(g.p, k + 1)
    ensures k < |g.trees| && IsTree(g.trees[k], g.p, g.n, k) && j < g.trees[k].c && |Data(g.direct, g.trees)| == g.n
    ensures Data(g.direct, g.trees)[Start(g.p, k) + j] == LeafAt(g.trees[k], j)
  {
    BegunBy(g, k);
    LeafAtIs(g.trees[k], j);
    DataCount(g, k);
    DataAt(g.direct, g.trees, k, j);
    AllData(g);
  }

  lemma Starts(p: nat)
    ensures Start(p, 0) == DIRECT && Start(p, 1) == DIRECT + p && Start(p, 2) == Start(p, 1) + Pow(p, 2)
  {
    Pows(p);
  }

  lemma AllData(g: Grove)
    ensures |Data(g.direct, g.trees)| == g.n
  {
    DataCount(g, |g.trees|);
    assert g.trees[..|g.trees|] == g.trees;
  }

  /** A lookup finds the block that was given to the append, up to the first `p` blocks of the third tree. */
  lemma Resolves(words: seq<Words>, g: Grove, i: nat)
    requires TreesStored(words, g.trees) && i < g.n && i < Start(g.p, 2) + g.p
    ensures |Data(g.direct, g.trees)| == g.n && Resolve(words, RootRow(g), g.p, i) == Some(Data(g.direct, g.trees)[i])
  {
    Starts(g.p);
    if i < DIRECT {
      AllData(g);
      DataDirect(g.direct, g.trees, i);
    } else if i < Start(g.p, 1) {
      ResolvesOne(words, g, i);
    } else if i < Start(g.p, 2) {
      ResolvesTwo(words, g, i);
    } else {
      ResolvesLast(words, g, i);
    }
  }

  lemma ResolvesOne(words: seq<Words>, g: Grove, i: nat)
    requires TreesStored(words, g.trees) && DIRECT <= i < g.n && i < Start(g.p, 1)
    ensures |Data(g.direct, g.trees)| == g.n && Resolve(words, RootRow(g), g.p, i) == Some(Data(g.direct, g.trees)[i])
  {
    Starts(g.p);
    DataUnder(g, 0, i - DIRECT);
    LookOne(words, g.trees[0], i - DIRECT);
  }

  lemma {:induction false} ResolvesTwo(words: seq<Words>, g: Grove, i: nat)
    requires TreesStored(words, g.trees) && Start(g.p, 1) <= i < g.n && i < Start(g.p, 2)
    ensures |Data(g.direct, g.trees)| == g.n && Resolve(words, RootRow(g), g.p, i) == Some(Data(g.direct, g.trees)[i])
  {
    Starts(g.p);
    Pows(g.p);
    var j := i - Start(g.p, 1);
    DataUnder(g, 1, j);
    LookTwo(words, g.trees[1], j);
    ThroughSecond(words, RootRow(g), g.p, i, j);
  }

  /** How a lookup goes through the second tree. */
  lemma ThroughSecond(words: seq<Words>, block: seq<nat>, p: nat, i: nat, j: nat)
    requires |block| == 15 && p > 0 && i == DIRECT + p + j && j < p * p
    ensures j / p >= 0 && j % p >= 0
    ensures Resolve(words, block, p, i) == WordAt(words, WordAt(words, Some(block[13]), j / p), j % p)
  {
    DivMod(j, p);
  }

  lemma ResolvesLast(words: seq<Words>, g: Grove, i: nat)
    requires TreesStored(words, g.trees) && Start(g.p, 2) <= i < g.n && i < Start(g.p, 2) + g.p
    ensures |Data(g.direct, g.trees)| == g.n && Resolve(words, RootRow(g), g.p, i) == Some(Data(g.direct, g.trees)[i])
  {
    PowAbove(g.p);
    DataUnder(g, 2, i - Start(g.p, 2));
    LookThree(words, g.trees[2], i - Start(g.p, 2));
    ThirdTree(words, RootRow(g), g.p, i, i - Start(g.p, 2));
  }

  /** The lookup of one of the first `p` blocks of the third tree. */
  lemma ThirdTree(words: seq<Words>, block: seq<nat>, p: nat, i: nat, j: nat)
    requires |block| == 15 && j < p && i == Start(p, 2) + j
    ensures Resolve(words, block, p, i) == WordAt(words, WordAt(words, WordAt(words, Some(block[14]), 0), 0), j)
  {
    Starts(p);
    Pows(p);
    Small(j, p);
  }

  lemma PowAbove(p: nat)
    requires p > 0
    ensures p <= Pow(p, 3)
  {
    Pows(p);
    TimesMono(Pow(p, 2), 1, p);
    assert Pow(p, 3) == Times(Pow(p, 2), p);
    assert p * p >= p;
  }

  /**
   Beyond them, the lookup divides by `p` where the append divided by its square.  While the
   third tree has one subtree, what it then follows is a null pointer.
   */
  lemma LookupLost(words: seq<Words>, g: Grove, i: nat)
    requires TreesStored(words, g.trees) && g.n <= DIRECT + g.p + g.p * g.p + g.p * g.p
    requires DIRECT + g.p + g.p * g.p + g.p <= i < g.n
    ensures var j := i - DIRECT - g.p - g.p * g.p;
            j / g.p >= 0 && WordAt(words, Some(RootRow(g)[14]), j / g.p) == Some(0)
  {
    Pows(g.p);
    BegunBy(g, 2);
    Quotient(i - Start(g.p, 2), g.p);
    PastFirst(words, g.trees[2], (i - Start(g.p, 2)) / g.p);
    assert RootRow(g)[14] == g.trees[2].t.block;
  }

  lemma Quotient(j: nat, p: nat)
    requires p <= j < p * p
    ensures 1 <= j / p < p
  {
    DivMod(j, p);
    if j / p == 0 { assert false; }
    if j / p >= p { MulMono(p, p - 1, j / p); }
  }

  lemma PastFirst(words: seq<Words>, f: Packed, k: nat)
    requires f.h == 3 && f.c <= f.p * f.p && Stored(words, f.t, f.p) && 1 <= k < f.p
    ensures WordAt(words, Some(f.t.block), k) == Some(0)
  {
    OneSubtree(f);
    assert words[f.t.block] == Row(f.t.kids, f.p);
  }

  /** Up to the square of `p` blocks, a tree of height three has one subtree. */
  lemma OneSubtree(f: Packed)
    requires f.h == 3 && f.c <= f.p * f.p
    ensures |f.t.kids| == 1
  {
    Pows(f.p);
    TimesAtLeast(Span(f), |f.t.kids| - 1);
  }

  /** And so does the append that is to begin its second subtree. */
  lemma AppendLost(words: seq<Words>, g: Grove)
    requires g.p > 1 && TreesStored(words, g.trees) && g.n == DIRECT + g.p + g.p * g.p + g.p * g.p
    ensures WordAt(words, Some(RootRow(g)[14]), 1) == Some(0)
  {
    Pows(g.p);
    BegunBy(g, 2);
    PastFirst(words, g.trees[2], 1);
  }

  // ---------------------------------------------------------------- growing

  /** In a tree over data blocks, the next pointer goes into the next word. */
  lemma GrowthOne(f: Packed)
    requires f.h == 1 && !IsFull(f)
    ensures GrowthAt(f) == (f.t.block, f.c) && Needed(f) == 1
  {
    Pows(f.p);
    TimesIs(1, |f.t.kids|);
    TimesIs(1, |f.t.kids| - 1);
  }

  lemma TimesDiv(c: nat, p: nat, q: nat, r: nat)
    requires c == Times(p, q) + r && r < p
    ensures c / p == q && c % p == r
  {
    TimesIs(p, q);
    DivIs(c, q, r, p);
  }

  /** Two levels down, the quotient picks the pointer block, and a remainder of zero asks for a new one. */
  lemma GrowthTwo(f: Packed)
    requires f.h == 2 && !IsFull(f)
    ensures f.p > 0 && 0 <= f.c / f.p && 0 <= f.c % f.p
    ensures f.c % f.p == 0 ==> GrowthAt(f) == (f.t.block, f.c / f.p) && Needed(f) == 2
    ensures f.c % f.p != 0 ==> f.c / f.p < |f.t.kids| && GrowthAt(f) == (f.t.kids[f.c / f.p].block, f.c % f.p) && Needed(f) == 1
  {
    Pows(f.p);
    Room(f);
    var q, last := |f.t.kids| - 1, LastKid(f);
    if IsFull(last) {
      TimesDiv(f.c, f.p, q + 1, 0);
    } else {
      Room(last);
      TimesDiv(f.c, f.p, q, last.c);
      GrowthOne(last);
    }
  }

  /** Three levels down it is the same, as long as there is one subtree. */
  lemma GrowthThree(f: Packed)
    requires f.h == 3 && f.c < f.p * f.p
    ensures !IsFull(f) && |f.t.kids| == 1 && Kid(f, 0).c == f.c && !IsFull(Kid(f, 0))
    ensures GrowthAt(f) == GrowthAt(Kid(f, 0)) && Needed(f) == Needed(Kid(f, 0))
  {
    Pows(f.p);
    OneSubtree(f);
    assert Times(Span(f), 0) == 0;
    assert f.p > 0;
    TimesMono(Pow(f.p, 2), 1, f.p);
    assert Pow(f.p, 3) == Times(Pow(f.p, 2), f.p);
    assert Times(Pow(f.p, 2), 1) == Times(Pow(f.p, 2), 0) + Pow(f.p, 2);
    Room(f);
  }
}
