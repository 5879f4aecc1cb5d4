/**
 Appending blocks to an ext2 inode: what an allocation and the store of a pointer do to the
 trees on the disk.
 */
module Ext2Append {
  import opened Arith
  import opened Recency
  import opened Ext2Fs
  import opened Ext2Tree
  import opened Ext2Inode

  // ---------------------------------------------------------------- states

  /**
   The blocks of the groups, those of them in use, the words of all blocks, which of them are
   bitmaps, which bitmaps an allocation may read, and which blocks are marked dirty.
   */
  datatype Disk = Disk(volume: iset<nat>, used: iset<nat>, words: seq<Words>, bitmaps: seq<nat>, readable: set<nat>, dirty: set<nat>)

  /** The blocks that nobody else writes: in use, and no bitmaps. */
  ghost function Keeps(d: Disk): (r: iset<nat>)
  {
    iset b | b in d.used && b !in d.bitmaps
  }

  /** Block number 0, if it is a block of a group at all, is never free. */
  ghost predicate NullKept(d: Disk)
  {
    0 in d.volume ==> 0 in d.used
  }

  /**
   An allocation: two moments, the blocks taken in between, none when it failed, and the uses
   of the cache.
   */
  datatype Step = Step(was: Disk, now: Disk, chain: seq<nat>, p: nat, before: Log, after: Log, through: seq<nat>)

  /**
   What was kept stays as it was.  The blocks of `chain` were free; they are in use now, and
   no others besides, and hold a chain.  A failed allocation may have lost blocks.
   */
  ghost predicate IsTaking(t: Step)
  {
    && NoDup(t.chain) && t.now.volume == t.was.volume && |t.now.words| == |t.was.words|
    && t.now.bitmaps == t.was.bitmaps && t.was.used <= t.now.used && t.was.dirty <= t.now.dirty
    && (forall b :: b in t.chain ==> b in t.was.volume && b !in t.was.used && b !in t.was.bitmaps && b != 0)
    && (forall b :: b in Keeps(t.was) && b < |t.was.words| ==> t.now.words[b] == t.was.words[b])
    && (t.chain != [] ==> Succeeded(t))
  }

  ghost predicate Succeeded(t: Step)
  {
    && t.now.used == t.was.used + (iset b | b in t.chain) && (t.chain != [] ==> Stored(t.now.words, Chain(t.chain), t.p))
    && t.after == TouchAll(t.before, t.through) && Elements(t.through) <= t.was.readable + Elements(t.chain)
    && t.now.readable <= t.was.readable
  }

  ghost function NoDisk(): (d: Disk)
  {
    Disk(iset{}, iset{}, [], [], {}, {})
  }

  type Taking = t: Step | IsTaking(t) ghost witness Step(NoDisk(), NoDisk(), [], 0, Empty, Empty, [])

  /** A file system's blocks, an inode's words and its count of sectors, `unit` to a block. */
  datatype Snapshot = Snapshot(disk: Disk, sectors: nat, unit: nat, g: Grove)

  ghost predicate Consistent(s: Snapshot)
  {
    && TreesStored(s.disk.words, s.g.trees) && NoNull(s.g.direct) && NullKept(s.disk)
    && Owned(Keeps(s.disk), All(s.g)) && s.sectors == Times(s.unit, |All(s.g)|)
  }

  ghost predicate NoNull(direct: seq<nat>)
  {
    forall i :: 0 <= i < |direct| ==> direct[i] != 0
  }

  type Appended = s: Snapshot | Consistent(s)
    ghost witness Snapshot(NoDisk(), 0, 0, Forest([], [], 1, 0))

  function All(g: Forest): (r: multiset<nat>)
  {
    Blocks(g.direct, g.trees)
  }

  /** The blocks that the appends gave, in order. */
  function Given(g: Forest): (r: seq<nat>)
  {
    Data(g.direct, g.trees)
  }

  // ---------------------------------------------------------------- chains

  lemma {:induction false} OnceEach(s: seq<nat>)
    requires NoDup(s)
    ensures forall b :: multiset(s)[b] <= 1
  {
    if s != [] {
      var n := |s| - 1;
      OnceEach(s[..n]);
      assert s == s[..n] + [s[n]] && s[n] !in s[..n];
    }
  }

  /** Owned blocks and a fresh chain are owned together. */
  lemma OwnedMore(t: Taking, blocks: multiset<nat>, all: multiset<nat>)
    requires Owned(Keeps(t.was), blocks) && all == blocks + multiset(t.chain)
    ensures Owned(Keeps(t.now), all) && |all| == |blocks| + |t.chain|
  {
    OnceEach(t.chain);
    assert forall b :: b in t.chain ==> b !in blocks;
  }

  lemma {:induction false} TimesAdd(w: nat, m: nat, n: nat, sum: nat)
    requires sum == m + n
    ensures Times(w, sum) == Times(w, m) + Times(w, n)
  {
    if n > 0 { TimesAdd(w, m, n - 1, sum - 1); }
  }

  /** A pointer block over a chain makes a longer one. */
  lemma LongerStored(low: seq<Words>, now: seq<Words>, b: nat, chain: seq<nat>, p: nat)
    requires |chain| > 0 && b !in chain && b != 0 && p > 0 && b < |low| && Stored(low, Chain(chain), p)
    requires low[b] == Zeros(p) && now == SetWord(low, b, 0, chain[0])
    ensures Stored(now, Chain([b] + chain), p)
  {
    ChainIs(chain);
    StoredFrame(low, now, Chain(chain), p);
    assert ([b] + chain)[1..] == chain;
    assert now[b] == Row([Chain(chain)], p);
  }

  /** A block taken before a fresh chain, and made to point to it, belongs to it. */
  ghost function Longer(one: Taking, low: Taking, words: seq<Words>): (r: Taking)
    requires |one.chain| == 1 && low.was == one.now && low.p == one.p > 0 && low.chain != [] && low.before == one.after
    requires var b := one.chain[0];
             && b < |one.was.words| && one.now.words[b] == Zeros(low.p)
             && |low.now.words[b]| == low.p && words == SetWord(low.now.words, b, 0, low.chain[0])
    ensures r == Step(one.was, low.now.(words := words), one.chain + low.chain, low.p, one.before, low.after, one.through + low.through)
  {
    var b := one.chain[0];
    var r := Step(one.was, low.now.(words := words), one.chain + low.chain, low.p, one.before, low.after, one.through + low.through);
    assert one.chain == [b] && b in one.chain;
    LongerWords(one, low, b);
    LongerStored(low.now.words, words, b, low.chain, low.p);
    TouchAllConcat(one.before, one.through, low.through);
    NoDupFront(b, low.chain);
    LongerSucceeded(one, low, r);
    r
  }

  /** The block is kept while the chain under it is taken, and so is all that was kept before. */
  lemma LongerWords(one: Taking, low: Taking, b: nat)
    requires one.chain == [b] && low.was == one.now && b < |one.was.words|
    ensures b in Keeps(one.now) && b !in low.chain && low.now.words[b] == one.now.words[b] && b !in Keeps(one.was)
    ensures forall x :: x in Keeps(one.was) && x < |one.was.words| ==> low.now.words[x] == one.was.words[x]
    ensures forall x :: x in low.chain ==> x in one.was.volume && x !in one.was.used && x !in one.was.bitmaps && x != 0
  {
    assert b in one.chain;
    forall x | x in Keeps(one.was) && x < |one.was.words|
      ensures low.now.words[x] == one.was.words[x]
    {
      assert x in Keeps(one.now);
    }
  }

  lemma LongerSucceeded(one: Taking, low: Taking, r: Step)
    requires one.chain != [] && low.chain != [] && low.was == one.now && r.chain == one.chain + low.chain
    requires r.was == one.was && r.now == low.now.(words := r.now.words) && r.before == one.before && r.after == low.after
    requires r.through == one.through + low.through && TouchAll(one.before, r.through) == TouchAll(one.after, low.through)
    requires low.before == one.after && Stored(r.now.words, Chain(r.chain), r.p)
    ensures Succeeded(r)
  {
    assert (iset b | b in r.chain) == (iset b | b in one.chain) + (iset b | b in low.chain);
    assert Elements(r.through) == Elements(one.through) + Elements(low.through);
    assert Elements(r.chain) == Elements(one.chain) + Elements(low.chain);
  }

  lemma {:induction false} NoDupFront(b: nat, chain: seq<nat>)
    requires NoDup(chain) && b !in chain
    ensures NoDup([b] + chain)
  {
    if chain == [] {
      assert [b] + chain == [b] && NoDup([b][..0]);
    } else {
      var n := |chain| - 1;
      NoDupFront(b, chain[..n]);
      assert ([b] + chain)[..|chain|] == [b] + chain[..n];
      assert chain == chain[..n] + [chain[n]];
    }
  }

  // ---------------------------------------------------------------- longer forests

  /** A direct block more. */
  ghost function WithDirect(g: Grove, b: nat): (r: Grove)
    requires g.n < DIRECT
    ensures r.p == g.p && r.n == g.n + 1 && r.direct == g.direct + [b] && r.trees == g.trees == []
    ensures Given(r) == Given(g) + [b] && All(r) == All(g) + multiset([b])
  {
    StartMono(g.p, 0, |g.trees|);
    if |g.trees| > 0 then
      StartMono(g.p, 0, |g.trees| - 1);
      assert false; g
    else Forest(g.direct + [b], g.trees, g.p, g.n + 1)
  }

  /** The first block of a tree. */
  ghost function WithTree(g: Grove, k: nat, chain: seq<nat>): (r: Grove)
    requires k < 3 && g.n == Start(g.p, k) && |chain| == k + 2
    ensures r.p == g.p && r.n == g.n + 1 && r.direct == g.direct && |g.trees| == k
    ensures r.trees == g.trees + [r.trees[k]] && r.trees[k].t == Chain(chain) && r.trees[k].p == g.p
    ensures Given(r) == Given(g) + [chain[k + 1]] && All(r) == All(g) + multiset(chain)
  {
    ChainPacked(chain, g.p);
    ChainIs(chain);
    var f: Packed := Filling(Chain(chain), g.p, k + 1, 1);
    TreeBegins(g, k, f);
    assert (g.trees + [f])[..k] == g.trees;
    Forest(g.direct, g.trees + [f], g.p, g.n + 1)
  }

  lemma TreeBegins(g: Grove, k: nat, f: Packed)
    requires k < 3 && g.n == Start(g.p, k) && f.p == g.p && f.h == k + 1 && f.c == 1
    ensures |g.trees| == k && Holding(Forest(g.direct, g.trees + [f], g.p, g.n + 1))
  {
    PowPositive(g.p, k + 1);
    StartMono(g.p, 0, k);
    TreesSoFar(g, k);
    forall l | 0 <= l < k
      ensures IsTree(g.trees[l], g.p, g.n + 1, l)
    {
      assert IsTree(g.trees[l], g.p, g.n, l);
      StartMono(g.p, l + 1, k);
    }
  }

  lemma TreesSoFar(g: Grove, k: nat)
    requires k < 3 && g.n == Start(g.p, k)
    ensures |g.trees| == k
  {
    if |g.trees| > k { StartMono(g.p, k, |g.trees| - 1); }
    if |g.trees| < k {
      PowPositive(g.p, k);
      StartMono(g.p, |g.trees|, k - 1);
    }
  }

  /** A tree with one more block. */
  ghost function GrownTree(f: Packed, chain: seq<nat>): (r: Packed)
    requires !IsFull(f) && |chain| == Needed(f)
    ensures r == Filling(Grown(f, chain), f.p, f.h, f.c + 1)
  {
    GrownPacked(f, chain);
    Filling(Grown(f, chain), f.p, f.h, f.c + 1)
  }

  /** One more block in the last tree. */
  ghost function WithGrown(g: Grove, chain: seq<nat>): (r: Grove)
    requires g.trees != [] && !IsFull(g.trees[|g.trees| - 1]) && |chain| == Needed(g.trees[|g.trees| - 1])
    ensures var last := |g.trees| - 1;
            r == Forest(g.direct, g.trees[last := GrownTree(g.trees[last], chain)], g.p, g.n + 1)
    ensures Given(r) == Given(g) + [chain[|chain| - 1]] && All(r) == All(g) + multiset(chain)
  {
    var last := |g.trees| - 1;
    var f := GrownTree(g.trees[last], chain);
    TreeGrows(g, f);
    GrownMore(g.direct, g.trees, f, chain);
    Forest(g.direct, g.trees[last := f], g.p, g.n + 1)
  }

  lemma GrownMore(direct: seq<nat>, trees: seq<Packed>, f: Packed, chain: seq<nat>)
    requires trees != [] && !IsFull(trees[|trees| - 1]) && |chain| == Needed(trees[|trees| - 1])
    requires f.t == Grown(trees[|trees| - 1], chain)
    ensures Data(direct, trees[|trees| - 1 := f]) == Data(direct, trees) + [chain[|chain| - 1]]
    ensures Blocks(direct, trees[|trees| - 1 := f]) == Blocks(direct, trees) + multiset(chain)
  {
    var last := |trees| - 1;
    GrownBlocks(trees[last], chain);
    GrownLeaves(trees[last], chain);
    assert trees[last := f][..last] == trees[..last];
    Associates(Data(direct, trees[..last]), Leaves(trees[last].t), chain[|chain| - 1]);
  }

  lemma TreeGrows(g: Grove, f: Packed)
    requires g.trees != []
    requires var l := g.trees[|g.trees| - 1]; !IsFull(l) && f.p == l.p && f.h == l.h && f.c == l.c + 1
    ensures g.trees[|g.trees| - 1].p == g.p
    ensures Holding(Forest(g.direct, g.trees[|g.trees| - 1 := f], g.p, g.n + 1))
  {
    var last := |g.trees| - 1;
    assert IsTree(g.trees[last], g.p, g.n, last);
    StartMono(g.p, 0, last);
    forall l | 0 <= l < last
      ensures IsTree(g.trees[l], g.p, g.n + 1, l)
    {
      EarlierTree(g, l);
    }
  }

  /** A tree before the last is full, and stays so. */
  lemma EarlierTree(g: Grove, l: nat)
    requires l < |g.trees| - 1
    ensures IsTree(g.trees[l], g.p, g.n + 1, l)
  {
    assert IsTree(g.trees[l], g.p, g.n, l);
    StartMono(g.p, l + 1, |g.trees| - 1);
  }

  // ---------------------------------------------------------------- appends

  /** Fresh blocks come to be owned, and are counted as sectors. */
  lemma OwnedAfter(s: Appended, t: Taking, all: multiset<nat>)
    requires t.was == s.disk && all == All(s.g) + multiset(t.chain)
    ensures Owned(Keeps(t.now), all) && s.sectors + Times(s.unit, |t.chain|) == Times(s.unit, |all|)
  {
    OwnedMore(t, All(s.g), all);
    TimesAdd(s.unit, |All(s.g)|, |t.chain|, |all|);
  }

  lemma NullStays(t: Taking)
    requires NullKept(t.was)
    ensures NullKept(t.now)
  {
  }

  /** The state after an append, once the trees are known to be where they should. */
  ghost function After(s: Appended, t: Taking, words: seq<Words>, dirty: set<nat>, g: Grove): (r: Appended)
    requires t.was == s.disk && All(g) == All(s.g) + multiset(t.chain)
    requires TreesStored(words, g.trees) && NoNull(g.direct)
    ensures r == Snapshot(t.now.(words := words, dirty := dirty), s.sectors + Times(s.unit, |t.chain|), s.unit, g)
  {
    OwnedAfter(s, t, All(g));
    NullStays(t);
    KeepsAfter(t.now, words, dirty);
    Snapshot(t.now.(words := words, dirty := dirty), s.sectors + Times(s.unit, |t.chain|), s.unit, g)
  }

  lemma KeepsAfter(d: Disk, words: seq<Words>, dirty: set<nat>)
    ensures Keeps(d.(words := words, dirty := dirty)) == Keeps(d)
  {
  }

  /** A tree stays stored when only blocks outside it change. */
  lemma TreeStays(words: seq<Words>, words': seq<Words>, trees: seq<Packed>, k: nat)
    requires TreesStored(words, trees) && k < |trees| && |words'| >= |words|
    requires forall b :: b in multiset(Flatten(trees[k].t)) && b < |words| ==> words'[b] == words[b]
    ensures Stored(words', trees[k].t, trees[k].p)
  {
    StoredFrame(words, words', trees[k].t, trees[k].p);
  }

  /** An owned block is as it was. */
  lemma OwnedWord(s: Appended, t: Taking, b: nat)
    requires t.was == s.disk && b in All(s.g)
    ensures b in s.disk.used && b !in s.disk.bitmaps && b !in t.chain && (b < |t.was.words| ==> t.now.words[b] == t.was.words[b])
  {
    assert b in Keeps(s.disk);
  }

  lemma AllTreesStay(s: Appended, t: Taking)
    requires t.was == s.disk
    ensures TreesStored(t.now.words, s.g.trees)
  {
    forall k | 0 <= k < |s.g.trees|
      ensures Stored(t.now.words, s.g.trees[k].t, s.g.trees[k].p)
    {
      TreeWithin(s.g.direct, s.g.trees, k);
      forall b | b in multiset(Flatten(s.g.trees[k].t))
        ensures b < |s.disk.words| ==> t.now.words[b] == s.disk.words[b]
      {
        OwnedWord(s, t, b);
      }
      TreeStays(s.disk.words, t.now.words, s.g.trees, k);
    }
  }

  /** After a direct block. */
  ghost function AfterDirect(s: Appended, t: Taking): (r: Appended)
    requires s.g.n < DIRECT && t.was == s.disk && |t.chain| == 1
    ensures r == Snapshot(t.now, s.sectors + Times(s.unit, 1), s.unit, WithDirect(s.g, t.chain[0]))
    ensures RootRow(r.g) == RootRow(s.g)[s.g.n := t.chain[0]]
  {
    assert t.chain == [t.chain[0]] && t.chain[0] in t.chain;
    After(s, t, t.now.words, t.now.dirty, WithDirect(s.g, t.chain[0]))
  }

  lemma RowWithTree(g: Grove, k: nat, chain: seq<nat>)
    requires k < 3 && g.n == Start(g.p, k) && |chain| == k + 2
    ensures RootRow(WithTree(g, k, chain)) == RootRow(g)[DIRECT + k := chain[0]]
  {
    StartMono(g.p, 0, k);
  }

  /** After the first block of a tree. */
  ghost function AfterTree(s: Appended, t: Taking, k: nat): (r: Appended)
    requires k < 3 && s.g.n == Start(s.g.p, k) && |t.chain| == k + 2 && t.was == s.disk && t.p == s.g.p
    ensures r == Snapshot(t.now, s.sectors + Times(s.unit, k + 2), s.unit, WithTree(s.g, k, t.chain))
  {
    AllTreesStay(s, t);
    After(s, t, t.now.words, t.now.dirty, WithTree(s.g, k, t.chain))
  }

  /** A block of the last tree is in no other. */
  lemma {:induction false} TreesApart(direct: seq<nat>, trees: seq<Packed>, k: nat, x: nat)
    requires k < |trees| - 1 && x in multiset(Flatten(trees[|trees| - 1].t)) && Blocks(direct, trees)[x] <= 1
    ensures x !in multiset(Flatten(trees[k].t))
  {
    TreeWithin(direct, trees[..|trees| - 1], k);
  }

  /** The block in which the new pointer goes is a pointer block of the tree. */
  lemma {:induction false} GrowthStored(words: seq<Words>, f: Packed)
    requires Stored(words, f.t, f.p) && !IsFull(f)
    ensures GrowthAt(f).0 < |words| && |words[GrowthAt(f).0]| == f.p
    decreases f.h
  {
    Room(f);
    if !IsFull(LastKid(f)) { GrowthStored(words, LastKid(f)); }
  }

  /** The words after the pointer is in. */
  function Pointed(t: Taking, x: nat, i: nat): (r: seq<Words>)
    requires t.chain != [] && x < |t.now.words| && i < |t.now.words[x]|
  {
    SetWord(t.now.words, x, i, t.chain[0])
  }

  ghost function PointedDisk(t: Taking, x: nat, i: nat): (r: Disk)
    requires t.chain != [] && x < |t.now.words| && i < |t.now.words[x]|
  {
    t.now.(words := Pointed(t, x, i), dirty := t.now.dirty + {x})
  }

  ghost function LastTree(g: Grove): (f: Packed)
    requires g.trees != []
    ensures f.p == g.p
  {
    assert IsTree(g.trees[|g.trees| - 1], g.p, g.n, |g.trees| - 1);
    g.trees[|g.trees| - 1]
  }

  /** The last tree grows by a chain, through word `i` of block `x`. */
  ghost predicate Grows(s: Appended, t: Taking, x: nat, i: nat)
  {
    && t.was == s.disk && t.p == s.g.p && s.g.trees != [] && !IsFull(LastTree(s.g))
    && |t.chain| == Needed(LastTree(s.g)) && (x, i) == GrowthAt(LastTree(s.g))
    && x < |t.now.words| && i < |t.now.words[x]|
  }

  lemma LastDistinct(keeps: iset<nat>, g: Grove)
    requires g.trees != [] && Owned(keeps, All(g))
    ensures Distinct(LastTree(g).t) && multiset(Flatten(LastTree(g).t)) <= All(g)
  {
    TreeWithin(g.direct, g.trees, |g.trees| - 1);
  }

  lemma GrownLast(s: Appended, t: Taking, x: nat, i: nat)
    requires Grows(s, t, x, i)
    ensures Stored(Pointed(t, x, i), Grown(LastTree(s.g), t.chain), s.g.p)
  {
    var f := LastTree(s.g);
    LastDistinct(Keeps(s.disk), s.g);
    GrowthWithin(LastTree(s.g));
    OwnedWord(s, t, x);
    FreshPast(t, Pointed(t, x, i), x);
    forall b | b in multiset(Flatten(f.t)) && b < |s.disk.words|
      ensures t.now.words[b] == s.disk.words[b]
    {
      OwnedWord(s, t, b);
    }
    GrownStored(s.disk.words, Pointed(t, x, i), f, t.chain);
  }

  lemma PointedWord(s: Appended, t: Taking, x: nat, i: nat, b: nat)
    requires t.was == s.disk && t.chain != [] && x < |t.now.words| && i < |t.now.words[x]|
    requires b in All(s.g) && b != x && b < |s.disk.words|
    ensures Pointed(t, x, i)[b] == s.disk.words[b]
  {
    OwnedWord(s, t, b);
  }

  lemma ApartFromLast(s: Appended, k: nat, x: nat)
    requires k < |s.g.trees| - 1 && x in multiset(Flatten(s.g.trees[|s.g.trees| - 1].t))
    ensures forall b :: b in multiset(Flatten(s.g.trees[k].t)) ==> b in All(s.g) && b != x
  {
    TreesApart(s.g.direct, s.g.trees, k, x);
    TreeWithin(s.g.direct, s.g.trees, k);
  }

  lemma GrownOther(s: Appended, t: Taking, x: nat, i: nat, k: nat)
    requires t.was == s.disk && t.chain != [] && x < |t.now.words| && i < |t.now.words[x]|
    requires k < |s.g.trees| - 1 && x in multiset(Flatten(s.g.trees[|s.g.trees| - 1].t))
    ensures Stored(Pointed(t, x, i), s.g.trees[k].t, s.g.trees[k].p)
  {
    ApartFromLast(s, k, x);
    forall b | b in multiset(Flatten(s.g.trees[k].t)) && b < |s.disk.words|
      ensures Pointed(t, x, i)[b] == s.disk.words[b]
    {
      PointedWord(s, t, x, i, b);
    }
    TreeStays(s.disk.words, Pointed(t, x, i), s.g.trees, k);
  }

  /** A store outside a fresh chain leaves the chain. */
  lemma FreshPast(t: Taking, words: seq<Words>, x: nat)
    requires t.chain != [] && x !in t.chain && |words| == |t.now.words|
    requires forall b :: 0 <= b < |words| && b != x ==> words[b] == t.now.words[b]
    ensures Stored(words, Chain(t.chain), t.p)
  {
    ChainIs(t.chain);
    StoredFrame(t.now.words, words, Chain(t.chain), t.p);
  }

  lemma RowWithGrown(g: Grove, chain: seq<nat>)
    requires g.trees != [] && !IsFull(LastTree(g)) && |chain| == Needed(LastTree(g))
    ensures RootRow(WithGrown(g, chain)) == RootRow(g)
  {
    var last := |g.trees| - 1;
    assert WithGrown(g, chain).trees == g.trees[last := GrownTree(g.trees[last], chain)];
  }

  lemma {:induction false} AllGrown(s: Appended, t: Taking, x: nat, i: nat)
    requires Grows(s, t, x, i)
    ensures TreesStored(Pointed(t, x, i), s.g.trees[|s.g.trees| - 1 := GrownTree(LastTree(s.g), t.chain)])
  {
    GrownLast(s, t, x, i);
    GrowthWithin(LastTree(s.g));
    forall k | 0 <= k < |s.g.trees| - 1
      ensures Stored(Pointed(t, x, i), s.g.trees[k].t, s.g.trees[k].p)
    {
      GrownOther(s, t, x, i, k);
    }
    LastReplaced(Pointed(t, x, i), s.g.trees, GrownTree(LastTree(s.g), t.chain));
  }

  lemma {:induction false} LastReplaced(words: seq<Words>, trees: seq<Packed>, f: Packed)
    requires trees != [] && Stored(words, f.t, f.p)
    requires forall k :: 0 <= k < |trees| - 1 ==> Stored(words, trees[k].t, trees[k].p)
    ensures TreesStored(words, trees[|trees| - 1 := f])
  {
  }

  ghost function In(blocks: multiset<nat>): (r: iset<nat>)
  {
    iset b | b in blocks
  }

  /** The other blocks in use stay in use, as they are. */
  ghost predicate Spares(s: Appended, s': Appended)
  {
    && s'.unit == s.unit && s'.g.p == s.g.p && s'.disk.volume == s.disk.volume && s'.disk.bitmaps == s.disk.bitmaps
    && s.disk.used <= s'.disk.used && |s'.disk.words| == |s.disk.words|
    && forall b :: b in Keeps(s.disk) && b !in All(s.g) && b < |s.disk.words| ==> s'.disk.words[b] == s.disk.words[b]
  }

  /** The file has more blocks, which were free; no others have come into use. */
  ghost predicate Gains(s: Appended, s': Appended)
  {
    && s'.disk.used == s.disk.used + In(All(s'.g)) && s'.disk.readable <= s.disk.readable && All(s.g) <= All(s'.g)
    && forall b :: b in All(s'.g) && b !in All(s.g) ==> b !in s.disk.used
  }

  lemma GainsNow(s: Appended, s': Appended, t: Taking)
    requires t.was == s.disk && t.chain != [] && All(s'.g) == All(s.g) + multiset(t.chain)
    requires s'.disk.used == t.now.used && s'.disk.readable == t.now.readable
    ensures Gains(s, s')
  {
    assert forall b :: b in All(s.g) ==> b in Keeps(s.disk);
  }

  lemma SparesNow(s: Appended, s': Appended, t: Taking)
    requires t.was == s.disk && s'.unit == s.unit && s'.g.p == s.g.p && s'.disk == t.now
    ensures Spares(s, s')
  {
  }

  lemma SparesPointed(s: Appended, s': Appended, t: Taking, x: nat, i: nat)
    requires Grows(s, t, x, i) && s'.unit == s.unit && s'.g.p == s.g.p && s'.disk == PointedDisk(t, x, i)
    ensures Spares(s, s')
  {
    LastDistinct(Keeps(s.disk), s.g);
    GrowthWithin(LastTree(s.g));
  }

  /** One append: either the file has one more block, the one that is reported, or it is as it was. */
  ghost predicate Extended(s: Appended, s': Appended, r: Allocated)
  {
    && Spares(s, s')
    && (r.Got? ==> s'.g.n == s.g.n + 1 && Given(s'.g) == Given(s.g) + [r.block] && Gains(s, s'))
    && (!r.Got? ==> s'.g == s.g)
  }

  /** A failed append leaves the file as it was. */
  ghost function Unharmed(s: Appended, t: Taking): (r: Appended)
    requires t.was == s.disk && t.chain == []
    ensures r == Snapshot(t.now, s.sectors, s.unit, s.g) && Extended(s, r, NoSpace)
  {
    AllTreesStay(s, t);
    assert All(s.g) == All(s.g) + multiset(t.chain);
    var r := After(s, t, t.now.words, t.now.dirty, s.g);
    SparesNow(s, r, t);
    r
  }

  /** The outcome of an append to the last tree. */
  ghost function Grew(s: Appended, t: Taking, x: nat, i: nat, data: nat): (r: Appended)
    requires Grows(s, t, x, i) && t.chain[|t.chain| - 1] == data
    ensures r.disk == PointedDisk(t, x, i) && r.sectors == s.sectors + Times(s.unit, |t.chain|)
    ensures RootRow(r.g) == RootRow(s.g) && Extended(s, r, Got(data))
  {
    AllGrown(s, t, x, i);
    RowWithGrown(s.g, t.chain);
    var r := After(s, t, Pointed(t, x, i), t.now.dirty + {x}, WithGrown(s.g, t.chain));
    GainsNow(s, r, t);
    SparesPointed(s, r, t, x, i);
    r
  }

  /** The outcome of an append that begins a tree. */
  ghost function Began(s: Appended, t: Taking, k: nat, data: nat): (r: Appended)
    requires k < 3 && s.g.n == Start(s.g.p, k) && |t.chain| == k + 2 && t.was == s.disk && t.p == s.g.p && t.chain[k + 1] == data
    ensures r == Snapshot(t.now, s.sectors + Times(s.unit, k + 2), s.unit, r.g)
    ensures RootRow(r.g) == RootRow(s.g)[DIRECT + k := t.chain[0]] && Extended(s, r, Got(data))
  {
    var r := AfterTree(s, t, k);
    RowWithTree(s.g, k, t.chain);
    GainsNow(s, r, t);
    SparesNow(s, r, t);
    r
  }

  /** The outcome of an append of a direct block. */
  ghost function Placed(s: Appended, t: Taking, data: nat): (r: Appended)
    requires s.g.n < DIRECT && t.was == s.disk && t.chain == [data]
    ensures r == Snapshot(t.now, s.sectors + Times(s.unit, 1), s.unit, r.g)
    ensures RootRow(r.g) == RootRow(s.g)[s.g.n := data] && Extended(s, r, Got(data))
  {
    var r := AfterDirect(s, t);
    GainsNow(s, r, t);
    SparesNow(s, r, t);
    r
  }
}
