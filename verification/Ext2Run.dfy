/**
 Runs of appends to an inode, and what lookups find afterwards: the blocks given, each once, up
 to the point from which `ext2_inode_read_block` loses them.
 */
module Ext2Run {
  import opened Basics
  import opened Arith
  import opened Recency
  import opened Ext2Volume
  import opened Ext2Fs
  import opened Ext2Tree
  import opened Ext2Inode
  import opened Ext2Append
  import opened Ext2Chain
  import opened Ext2AllocChain
  import opened Ext2File

  // ---------------------------------------------------------------- the blocks given

  lemma {:induction false} LeavesWithin(t: Tree)
    ensures multiset(Leaves(t)) <= multiset(Flatten(t))
    decreases t, 1, 0
  {
    if t.Node? { LeavesKidsWithin(t, |t.kids|); }
  }

  lemma {:induction false} LeavesKidsWithin(t: Tree, n: nat)
    requires t.Node? && n <= |t.kids|
    ensures multiset(LeavesKids(t, n)) <= multiset(FlattenKids(t, n))
    decreases t, 0, n
  {
    if n > 0 {
      LeavesKidsWithin(t, n - 1);
      LeavesWithin(t.kids[n - 1]);
    }
  }

  lemma {:induction false} DataWithin(direct: seq<nat>, trees: seq<Packed>)
    ensures multiset(Data(direct, trees)) <= Blocks(direct, trees)
  {
    if trees != [] {
      DataWithin(direct, trees[..|trees| - 1]);
      LeavesWithin(trees[|trees| - 1].t);
    }
  }

  lemma {:induction false} OnceNoDup(s: seq<nat>)
    requires forall b :: multiset(s)[b] <= 1
    ensures NoDup(s)
  {
    if s != [] {
      var front, last := s[..|s| - 1], s[|s| - 1];
      assert s == front + [last];
      assert forall b :: multiset(front)[b] <= multiset(s)[b];
      assert multiset(s)[last] == multiset(front)[last] + 1;
      OnceNoDup(front);
    }
  }

  /** No block is given twice. */
  lemma GivenOnce(s: Appended)
    ensures NoDup(Given(s.g)) && |Given(s.g)| == s.g.n
    ensures forall b :: b in Given(s.g) ==> b in All(s.g)
  {
    AllData(s.g);
    DataWithin(s.g.direct, s.g.trees);
    assert forall b :: multiset(Given(s.g))[b] <= All(s.g)[b];
    OnceNoDup(Given(s.g));
    forall b | b in Given(s.g)
      ensures b in All(s.g)
    {
      assert b in multiset(Given(s.g));
    }
  }

  // ---------------------------------------------------------------- runs of appends

  /**
   What `n` appends come to; `given` has fewer blocks when one failed, which ended them.  The
   file's new blocks were free.  Other blocks come into use only when an access failed.
   */
  ghost predicate Ran(s: Appended, s': Appended, given: seq<nat>, n: nat, clean: bool)
  {
    && |given| <= n && s'.g.n == s.g.n + |given| && Given(s'.g) == Given(s.g) + given && Spares(s, s') && All(s.g) <= All(s'.g)
    && (forall b :: b in All(s'.g) && b !in All(s.g) ==> b !in s.disk.used)
    && (clean ==> s'.disk.used == s.disk.used + In(All(s'.g)))
    && (|given| == n ==> Gains(s, s'))
  }

  lemma SparesOn(s: Appended, m: Appended, s': Appended)
    requires Spares(s, m) && Gains(s, m) && Spares(m, s')
    ensures Spares(s, s')
  {
    forall b | b in Keeps(s.disk) && b !in All(s.g) && b < |s.disk.words|
      ensures s'.disk.words[b] == s.disk.words[b]
    {
      assert b in Keeps(m.disk) && b !in All(m.g);
    }
  }

  lemma GainsOn(s: Appended, m: Appended, s': Appended)
    requires Gains(s, m) && Gains(m, s')
    ensures Gains(s, s')
  {
    assert In(All(m.g)) <= In(All(s'.g));
    forall b | b in All(s'.g) && b !in All(s.g)
      ensures b !in s.disk.used
    {
      if b !in All(m.g) { assert b !in m.disk.used; }
    }
  }

  lemma RanOn(s: Appended, m: Appended, s': Appended, given: seq<nat>, n: nat, r: Allocated, clean: bool)
    requires Ran(s, m, given, |given|, true) && |given| < n && Extended(m, s', r)
    requires !r.Got? && clean ==> s'.disk.used == m.disk.used
    ensures Ran(s, s', if r.Got? then given + [r.block] else given, if r.Got? then |given| + 1 else n, r.Got? || clean)
  {
    if r.Got? { RanLonger(s, m, s', given, r.block); } else { SparesOn(s, m, s'); }
  }

  lemma RanLonger(s: Appended, m: Appended, s': Appended, given: seq<nat>, b: nat)
    requires Ran(s, m, given, |given|, true) && Extended(m, s', Got(b))
    ensures Ran(s, s', given + [b], |given| + 1, true)
  {
    SparesOn(s, m, s');
    GainsOn(s, m, s');
  }

  lemma NothingRun(s: Appended)
    ensures Ran(s, s, [], 0, true)
  {
    assert forall b :: b in All(s.g) ==> b in Keeps(s.disk);
  }

  /** Gaining blocks makes no more bitmaps readable, so the cache is still large enough. */
  lemma StillRoomy(s: Appended, s': Appended, cap: nat)
    requires Gains(s, s') && Roomy(s.disk, cap)
    ensures Roomy(s'.disk, cap)
  {
    Larger(s'.disk.readable, s.disk.readable);
  }

  /** Why a run ended early, when no access failed: the mount is read-only, or the next append lacks free blocks. */
  ghost predicate Ended(fs: Fs, s: Appended)
    reads fs
  {
    !fs.readWrite || Scarce(fs.geo, s.disk.used, Wanted(s.g))
  }

  /** Appends, one after the other, until one fails. */
  method AppendAll(fs: Fs, inode: Inode, blocks: nat, n: nat, bg: nat, ghost s: Appended) returns (given: seq<nat>, ghost s': Appended)
    requires Ready(fs, s.disk, bg) && Matches(fs, inode, s) && s.g.n == blocks && blocks + n <= Start(s.g.p, 2) + Pow(s.g.p, 2)
    modifies fs, inode
    ensures fs.Valid() && Matches(fs, inode, s') && old(fs.failures) <= fs.failures && Ran(s, s', given, n, fs.failures == old(fs.failures))
    ensures |given| < n && fs.failures == old(fs.failures) ==> Ended(fs, s')
  {
    given, s' := [], s;
    var ok := true;
    NothingRun(s);
    while ok && |given| < n
      invariant fs.Valid() && Matches(fs, inode, s') && |given| <= n && old(fs.failures) <= fs.failures
      invariant ok ==> fs.failures == old(fs.failures) && Ready(fs, s'.disk, bg)
      invariant Ran(s, s', given, if ok then |given| else n, fs.failures == old(fs.failures))
      invariant !ok && fs.failures == old(fs.failures) ==> Ended(fs, s')
    {
      ok, given, s' := AppendNext(fs, inode, blocks, n, bg, given, s, s');
    }
  }

  method AppendNext(fs: Fs, inode: Inode, blocks: nat, n: nat, bg: nat, given: seq<nat>, ghost s: Appended, ghost m: Appended)
    returns (ok: bool, now: seq<nat>, ghost s': Appended)
    requires Ready(fs, m.disk, bg) && Matches(fs, inode, m) && Ran(s, m, given, |given|, true) && |given| < n
    requires s.g.n == blocks && blocks + n <= Start(s.g.p, 2) + Pow(s.g.p, 2)
    modifies fs, inode
    ensures fs.Valid() && Matches(fs, inode, s') && |now| <= n && old(fs.failures) <= fs.failures
    ensures Ran(s, s', now, if ok then |now| else n, fs.failures == old(fs.failures))
    ensures if ok then fs.failures == old(fs.failures) && Ready(fs, s'.disk, bg) && |now| == |given| + 1 else now == given
    ensures !ok && fs.failures == old(fs.failures) ==> Ended(fs, s')
  {
    var r;
    r, s' := AppendBlock(fs, inode, blocks + |given|, bg, m);
    RanOn(s, m, s', given, n, r, fs.failures == old(fs.failures));
    ok, now := r.Got?, given;
    if r.Got? {
      StillRoomy(m, s', fs.cacheSize);
      now := given + [r.block];
    }
  }

  /** A new inode has no blocks. */
  ghost function Fresh(d: Disk, unit: nat, p: nat): (s: Appended)
    requires NullKept(d) && p > 0
    ensures s.g.n == 0 && Given(s.g) == [] && All(s.g) == multiset{} && s.disk == d && s.unit == unit && s.sectors == 0 && s.g.p == p
    ensures RootRow(s.g) == RootRow(Forest([], [], 1, 0))
  {
    Snapshot(d, 0, unit, Forest([], [], p, 0))
  }

  /**
   A file from nothing: the blocks given are distinct, were free, and a lookup finds each of
   them up to the first `pointers` blocks of the third tree.
   */
  method AppendToNew(fs: Fs, n: nat, bg: nat) returns (inode: Inode, given: seq<nat>, ghost s: Appended)
    requires Ready(fs, Now(fs), bg) && n <= Start(fs.pointers, 2) + Pow(fs.pointers, 2)
    modifies fs
    ensures fresh(inode) && fs.Valid() && Matches(fs, inode, s) && Given(s.g) == given && |given| <= n
    ensures NoDup(given) && forall b :: b in given ==> b in fs.state.used && b !in old(fs.state.used)
    ensures forall b :: b in All(s.g) ==> b !in old(fs.state.used)
    ensures fs.failures == old(fs.failures) || |given| == n ==> fs.state.used == old(fs.state.used) + In(All(s.g))
    ensures fs.failures == old(fs.failures) && |given| < n ==> Ended(fs, s)
    ensures forall i :: 0 <= i < |given| && i < Start(fs.pointers, 2) + fs.pointers ==>
              Resolve(fs.words, inode.block, fs.pointers, i) == Some(given[i])
  {
    inode := new Inode();
    ghost var z := Fresh(Now(fs), fs.sectorsPerBlock, fs.pointers);
    given, s := AppendAll(fs, inode, 0, n, bg, z);
    FoundAll(s);
  }

  lemma FoundAll(s: Appended)
    ensures NoDup(Given(s.g)) && |Given(s.g)| == s.g.n && forall b :: b in Given(s.g) ==> b in s.disk.used && b in All(s.g)
    ensures forall i :: 0 <= i < s.g.n && i < Start(s.g.p, 2) + s.g.p ==>
              Resolve(s.disk.words, RootRow(s.g), s.g.p, i) == Some(Given(s.g)[i])
  {
    GivenOnce(s);
    forall i | 0 <= i < s.g.n && i < Start(s.g.p, 2) + s.g.p
      ensures Resolve(s.disk.words, RootRow(s.g), s.g.p, i) == Some(Given(s.g)[i])
    {
      Resolves(s.disk.words, s.g, i);
    }
    assert forall b :: b in All(s.g) ==> b in Keeps(s.disk);
  }

  /** A lookup reports the block that was given, with its contents, and leaves the file as it is. */
  method ReadGiven(fs: Fs, inode: Inode, i: nat, blockSize: nat, size: nat, ghost s: Appended) returns (r: Option<nat>, w: Words)
    requires fs.Valid() && Matches(fs, inode, s) && i < s.g.n && i < Start(s.g.p, 2) + s.g.p
    modifies fs`device, fs`state, fs`log, fs`failures
    ensures fs.Valid() && Matches(fs, inode, s) && |Given(s.g)| == s.g.n
    ensures r.Some? <==> Below(i, blockSize, size) && fs.failures == old(fs.failures)
    ensures r.Some? ==> r.value == Given(s.g)[i] < |fs.words| && w == fs.words[r.value]
  {
    Pows(s.g.p);
    assert s.g.p * s.g.p >= s.g.p;
    Resolves(s.disk.words, s.g, i);
    r, w := ReadBlock(fs, inode, i, blockSize, size);
  }

  // ---------------------------------------------------------------- lost blocks

  /** What a lookup reads past the first `p` blocks of the third tree: a word of the block that block 0 points to. */
  function Astray(words: seq<Words>, i: nat, p: nat): (r: Option<nat>)
    requires p > 0
  {
    DivMod(i, p);
    WordAt(words, WordAt(words, Some(0), 0), i % p)
  }

  /** How a lookup goes through the third tree. */
  lemma ThroughThird(words: seq<Words>, block: seq<nat>, p: nat, i: nat, j: nat)
    requires |block| == 15 && p > 0 && i == Start(p, 2) + j
    ensures j / p >= 0 && j % p >= 0
    ensures Resolve(words, block, p, i) == WordAt(words, WordAt(words, WordAt(words, Some(block[14]), j / p), 0), j % p)
  {
    Pows(p);
    DivMod(j, p);
    Small(j % p, p);
  }

  /** There the lookup divides by `p` where the append divided by its square. */
  lemma ResolvesAstray(words: seq<Words>, g: Grove, i: nat, j: nat)
    requires TreesStored(words, g.trees) && g.n <= Start(g.p, 2) + Pow(g.p, 2)
    requires Start(g.p, 2) + g.p <= i < g.n && i == Start(g.p, 2) + j
    ensures Resolve(words, RootRow(g), g.p, i) == Astray(words, j, g.p)
  {
    Pows(g.p);
    ThroughThird(words, RootRow(g), g.p, i, j);
    LookupLost(words, g, i);
  }

  lemma {:induction false} LeavesNotNull(words: seq<Words>, t: Tree, p: nat)
    requires Stored(words, t, p)
    ensures forall b :: b in Leaves(t) ==> b != 0
    decreases t, 1, 0
  {
    if t.Node? { LeavesKidsNotNull(words, t, |t.kids|, p); }
  }

  lemma {:induction false} LeavesKidsNotNull(words: seq<Words>, t: Tree, n: nat, p: nat)
    requires t.Node? && n <= |t.kids| && Stored(words, t, p)
    ensures forall b :: b in LeavesKids(t, n) ==> b != 0
    decreases t, 0, n
  {
    if n > 0 {
      LeavesKidsNotNull(words, t, n - 1, p);
      LeavesNotNull(words, t.kids[n - 1], p);
    }
  }

  lemma {:induction false} DataNotNull(words: seq<Words>, direct: seq<nat>, trees: seq<Packed>)
    requires TreesStored(words, trees) && NoNull(direct)
    ensures forall b :: b in Data(direct, trees) ==> b != 0
  {
    if trees != [] {
      DataNotNull(words, direct, trees[..|trees| - 1]);
      LeavesNotNull(words, trees[|trees| - 1].t, trees[|trees| - 1].p);
    }
  }

  /** The block that a lookup finds is the one that was given. */
  ghost predicate Right(s: Appended, i: nat)
    requires i < |Given(s.g)|
  {
    Resolve(s.disk.words, RootRow(s.g), s.g.p, i) == Some(Given(s.g)[i])
  }

  /** Block 0 happens to lead to the block that was given. */
  ghost predicate Lucky(s: Appended, i: nat, j: nat)
    requires i < |Given(s.g)|
  {
    Astray(s.disk.words, j, s.g.p) == Some(Given(s.g)[i])
  }

  lemma AstrayIff(s: Appended, i: nat, j: nat)
    requires i < s.g.n <= Start(s.g.p, 2) + Pow(s.g.p, 2) && i == Start(s.g.p, 2) + j && s.g.p <= j
    ensures |Given(s.g)| == s.g.n && (Right(s, i) <==> Lucky(s, i, j))
  {
    AllData(s.g);
    ResolvesAstray(s.disk.words, s.g, i, j);
  }

  /**
   Exactly when a lookup finds the block that the append gave: among the first `p` blocks of
   the third tree or before, or when block 0 happens to lead there.
   */
  lemma ResolvesIff(s: Appended, i: nat, j: int)
    requires i < s.g.n <= Start(s.g.p, 2) + Pow(s.g.p, 2) && i == Start(s.g.p, 2) + j
    ensures |Given(s.g)| == s.g.n && (Right(s, i) <==> j < s.g.p || Lucky(s, i, j))
  {
    AllData(s.g);
    if j < s.g.p { Resolves(s.disk.words, s.g, i); } else { AstrayIff(s, i, j); }
  }

  /** With zeros in block 0, it finds the first `p` blocks of the third tree and no more. */
  lemma ResolvesExactly(s: Appended, i: nat)
    requires i < s.g.n <= Start(s.g.p, 2) + Pow(s.g.p, 2) && 0 < |s.disk.words| && s.disk.words[0] == Zeros(s.g.p)
    ensures |Given(s.g)| == s.g.n
    ensures Right(s, i) <==> i < Start(s.g.p, 2) + s.g.p
    ensures i >= Start(s.g.p, 2) + s.g.p ==> Resolve(s.disk.words, RootRow(s.g), s.g.p, i) == Some(0)
  {
    AllData(s.g);
    if i < Start(s.g.p, 2) + s.g.p {
      Resolves(s.disk.words, s.g, i);
    } else {
      ResolvesNull(s, i, i - Start(s.g.p, 2));
    }
  }

  lemma ResolvesNull(s: Appended, i: nat, j: nat)
    requires i < s.g.n <= Start(s.g.p, 2) + Pow(s.g.p, 2) && 0 < |s.disk.words| && s.disk.words[0] == Zeros(s.g.p)
    requires i == Start(s.g.p, 2) + j && s.g.p <= j && |Given(s.g)| == s.g.n
    ensures Resolve(s.disk.words, RootRow(s.g), s.g.p, i) == Some(0) && Given(s.g)[i] != 0
  {
    ResolvesAstray(s.disk.words, s.g, i, j);
    DivMod(j, s.g.p);
    DataNotNull(s.disk.words, s.g.direct, s.g.trees);
    assert Given(s.g)[i] in Given(s.g);
  }

  /** Whatever block 0 holds, of lost blocks that are a multiple of `p` apart at most one is found. */
  lemma LostTogether(s: Appended, i: nat, k: nat, j: nat, l: nat)
    requires i < k < s.g.n <= Start(s.g.p, 2) + Pow(s.g.p, 2) && j >= s.g.p && l >= s.g.p
    requires i == Start(s.g.p, 2) + j && k == Start(s.g.p, 2) + l && j % s.g.p == l % s.g.p
    ensures Resolve(s.disk.words, RootRow(s.g), s.g.p, i) == Resolve(s.disk.words, RootRow(s.g), s.g.p, k)
    ensures |Given(s.g)| == s.g.n && Given(s.g)[i] != Given(s.g)[k]
  {
    GivenOnce(s);
    NoDupAt(Given(s.g), i, k);
    ResolvesAstray(s.disk.words, s.g, i, j);
    ResolvesAstray(s.disk.words, s.g, k, l);
  }
}
