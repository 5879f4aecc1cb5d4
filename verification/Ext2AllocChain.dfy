/**
 `alloc_direct_blk`, `alloc_ind_blk`, `alloc_dind_blk` and `alloc_tind_blk`: a data block under
 none, one, two or three new pointer blocks.
 */
module Ext2AllocChain {
  import opened Arith
  import opened Recency
  import opened Ext2Volume
  import opened Ext2Fs
  import opened Ext2Inode
  import opened Ext2Append
  import opened Ext2Chain

  class Inode {
    var block: seq<nat>
    var sectors: nat

    constructor ()
      ensures block == RootRow(Forest([], [], 1, 0)) && sectors == 0
    {
      block, sectors := RootRow(Forest([], [], 1, 0)), 0;
    }
  }

  ghost function Now(fs: Fs): (d: Disk)
    reads fs
  {
    DiskOf(fs.state)
  }

  ghost predicate Matches(fs: Fs, inode: Inode, s: Appended)
    reads fs, inode
  {
    s.disk == Now(fs) && s.g.p == fs.pointers && s.unit == fs.sectorsPerBlock && inode.block == RootRow(s.g) && inode.sectors == s.sectors
  }

  // ---------------------------------------------------------------- allocating chains

  /** The file system stands at `was`, and the cache is large enough. */
  ghost predicate Ready(fs: Fs, was: Disk, bg: nat)
    reads fs
  {
    fs.Valid() && 0 < fs.pointers && bg < fs.geo.groups && was == Now(fs) && NullKept(was) && Roomy(was, fs.cacheSize)
  }

  /** A chain, or nothing, has been taken since. */
  ghost predicate Took(fs: Fs, t: Taking, was: Disk, before: Log)
    reads fs
  {
    t.was == was && t.now == Now(fs) && t.p == fs.pointers && (t.chain != [] ==> t.before == before && t.after == fs.log)
  }

  /** A chain of `n` blocks from the one reported down to `data`, or none. */
  ghost predicate Gives(chain: seq<nat>, r: Allocated, data: nat, n: nat)
  {
    if r.Got? then |chain| == n > 0 && chain[0] == r.block && chain[n - 1] == data else chain == []
  }

  /**
   What a report means, of an operation that wanted `n` blocks and found `was` in use: a failed
   access, or too few free blocks, or a read-only mount.  When no access failed, a failed
   operation has left in use what was.
   */
  ghost predicate Why(fs: Fs, r: Allocated, was: iset<nat>, now: iset<nat>, n: nat, failures: nat)
    reads fs
  {
    && failures <= fs.failures && (r.Got? ==> failures == fs.failures) && (r.ReadOnly? ==> !fs.readWrite)
    && (r.NoSpace? ==> Scarce(fs.geo, was, n)) && (r.IoError? ==> failures < fs.failures)
    && (!r.Got? && failures == fs.failures ==> now == was)
  }

  /** The block was used last, and is all zeros, not yet written back. */
  ghost predicate OnTop(fs: Fs, t: Taking, b: nat)
    reads fs
  {
    && NullKept(t.now) && Roomy(t.now, fs.cacheSize) && b < |t.was.words| && t.now.words[b] == Zeros(t.p) && b in t.now.dirty
    && t.now.readable <= Bitmaps(t.now.bitmaps)
    && b in Replay(t.after, fs.cacheSize) && Above(Replay(t.after, fs.cacheSize), b) == {}
  }

  /** ext2_block_alloc, as one step. */
  method AllocOne(fs: Fs, bg: nat, ghost was: Disk) returns (r: Allocated, ghost t: Taking)
    requires Ready(fs, was, bg)
    modifies fs
    ensures fs.Valid() && Took(fs, t, was, old(fs.log)) && t.chain == if r.Got? then [r.block] else []
    ensures r.Got? ==> OnTop(fs, t, r.block)
    ensures Why(fs, r, was.used, t.now.used, 1, old(fs.failures))
  {
    ghost var before := fs.log;
    ghost var c;
    r, c := fs.BlockAlloc(bg);
    if r.Got? {
      t := OneTaking(c, bg, before, fs.log);
      OneOnTop(c, bg, before, fs.log, fs.cacheSize);
      OneLeaves(c, t, fs.cacheSize);
    } else {
      t := NoTaking(c);
      if r.NoSpace? { NoneLeft(fs.state.books); }
    }
  }

  /** alloc_direct_blk. */
  method AllocDirect(fs: Fs, inode: Inode, bg: nat, ghost was: Disk) returns (r: Allocated, data: nat, ghost t: Taking)
    requires Ready(fs, was, bg)
    modifies fs, inode`sectors
    ensures fs.Valid() && Took(fs, t, was, old(fs.log)) && Gives(t.chain, r, data, 1)
    ensures inode.sectors == old(inode.sectors) + Times(fs.sectorsPerBlock, |t.chain|)
    ensures Why(fs, r, was.used, t.now.used, 1, old(fs.failures))
  {
    r, t := AllocOne(fs, bg, was);
    assert Times(fs.sectorsPerBlock, 1) == Times(fs.sectorsPerBlock, 0) + fs.sectorsPerBlock;
    data := 0;
    if r.Got? {
      data := r.block;
      inode.sectors := inode.sectors + fs.sectorsPerBlock;
    }
  }

  /** A pointer block over what was allocated below it, or given back when nothing was. */
  method Finish(fs: Fs, inode: Inode, b: nat, d: Allocated, ghost data: nat, ghost n: nat, ghost one: Taking, ghost low: Taking, ghost failures: nat)
    returns (r: Allocated, ghost t: Taking)
    requires fs.Valid() && one.p == fs.pointers > 0 && one.chain == [b] && OnTop(fs, one, b) && n <= 3
    requires Took(fs, low, one.now, one.after) && Gives(low.chain, d, data, n) && Why(fs, d, low.was.used, low.now.used, n, failures)
    modifies fs, inode`sectors
    ensures fs.Valid() && Took(fs, t, one.was, one.before) && Gives(t.chain, r, data, n + 1)
    ensures inode.sectors + Times(fs.sectorsPerBlock, |low.chain|) == old(inode.sectors) + Times(fs.sectorsPerBlock, |t.chain|)
    ensures Why(fs, r, one.was.used, t.now.used, n + 1, failures)
  {
    if !d.Got? {
      r := d;
      t := GiveBack(fs, b, d, n, one, low, failures);
    } else {
      r := Got(b);
      t := Link(fs, b, d.block, one, low);
      inode.sectors := inode.sectors + fs.sectorsPerBlock;
    }
  }

  method GiveBack(fs: Fs, b: nat, ghost d: Allocated, ghost n: nat, ghost one: Taking, ghost low: Taking, ghost failures: nat) returns (ghost t: Taking)
    requires fs.Valid() && one.p == fs.pointers && one.chain == [b] && Took(fs, low, one.now, one.after) && low.chain == []
    requires !d.Got? && Why(fs, d, low.was.used, low.now.used, n, failures)
    modifies fs
    ensures fs.Valid() && Took(fs, t, one.was, one.before) && t.chain == []
    ensures Why(fs, d, one.was.used, t.now.used, n + 1, failures)
  {
    assert b in one.chain;
    ghost var s := fs.state;
    var ok := fs.MarkFree(b);
    t := GivenBack(one, low, s, fs.state, b, ok);
    OnlyOne(one, b);
    if d.NoSpace? { OneMoreSpare(fs.geo, one.was.used, b, n); }
  }

  lemma OnlyOne(one: Taking, b: nat)
    requires one.chain == [b]
    ensures one.now.used == one.was.used + iset{b} && one.now.used - iset{b} == one.was.used
  {
    assert b in one.chain;
    assert (iset x | x in one.chain) == iset{b};
  }

  /**
   The pointer goes into the new pointer block, through the buffer that has been in hand since
   that block was allocated.
   */
  method Link(fs: Fs, b: nat, v: nat, ghost one: Taking, ghost low: Taking) returns (ghost t: Taking)
    requires fs.Valid() && one.p == fs.pointers > 0 && one.chain == [b] && OnTop(fs, one, b) && |low.chain| <= 3
    requires Took(fs, low, one.now, one.after) && low.chain != [] && v == low.chain[0]
    modifies fs`words, fs`state
    ensures fs.Valid() && Took(fs, t, one.was, one.before) && t.chain == [b] + low.chain
  {
    Upheld(one, low, b, fs.cacheSize);
    t := PutUnder(fs, b, v, one, low);
  }

  method PutUnder(fs: Fs, b: nat, v: nat, ghost one: Taking, ghost low: Taking) returns (ghost t: Taking)
    requires fs.Valid() && one.p == fs.pointers > 0 && one.chain == [b] && b < |one.was.words| && one.now.words[b] == Zeros(one.p)
    requires b in fs.Recent() && b in fs.dirty && b !in fs.bitmaps
    requires Took(fs, low, one.now, one.after) && low.chain != [] && v == low.chain[0]
    modifies fs`words, fs`state
    ensures fs.Valid() && Took(fs, t, one.was, one.before) && t.chain == [b] + low.chain
  {
    t := Longer(one, low, SetWord(fs.words, b, 0, v));
    fs.Poke(b, 0, v);
  }

  lemma MoreWanted(fs: Fs, r: Allocated, was: iset<nat>, now: iset<nat>, m: nat, n: nat, failures: nat)
    requires Why(fs, r, was, now, m, failures) && m <= n
    ensures Why(fs, r, was, now, n, failures)
  {
    if r.NoSpace? { StillScarce(fs.geo, was, m, n); }
  }

  /** alloc_ind_blk: a pointer block, and a data block under it. */
  method AllocInd(fs: Fs, inode: Inode, bg: nat, ghost was: Disk) returns (r: Allocated, data: nat, ghost t: Taking)
    requires Ready(fs, was, bg)
    modifies fs, inode`sectors
    ensures fs.Valid() && Took(fs, t, was, old(fs.log)) && Gives(t.chain, r, data, 2)
    ensures inode.sectors == old(inode.sectors) + Times(fs.sectorsPerBlock, |t.chain|)
    ensures Why(fs, r, was.used, t.now.used, 2, old(fs.failures))
  {
    ghost var one, low;
    var b, d;
    data := 0;
    b, one := AllocOne(fs, bg, was);
    if !b.Got? {
      r, t := b, one;
      MoreWanted(fs, b, was.used, one.now.used, 1, 2, old(fs.failures));
    } else {
      d, data, low := AllocDirect(fs, inode, bg, one.now);
      r, t := Finish(fs, inode, b.block, d, data, 1, one, low, old(fs.failures));
    }
  }

  /** alloc_dind_blk. */
  method AllocDind(fs: Fs, inode: Inode, bg: nat, ghost was: Disk) returns (r: Allocated, data: nat, ghost t: Taking)
    requires Ready(fs, was, bg)
    modifies fs, inode`sectors
    ensures fs.Valid() && Took(fs, t, was, old(fs.log)) && Gives(t.chain, r, data, 3)
    ensures inode.sectors == old(inode.sectors) + Times(fs.sectorsPerBlock, |t.chain|)
    ensures Why(fs, r, was.used, t.now.used, 3, old(fs.failures))
  {
    ghost var one, low;
    var b, d;
    data := 0;
    b, one := AllocOne(fs, bg, was);
    if !b.Got? {
      r, t := b, one;
      MoreWanted(fs, b, was.used, one.now.used, 1, 3, old(fs.failures));
    } else {
      d, data, low := AllocInd(fs, inode, bg, one.now);
      r, t := Finish(fs, inode, b.block, d, data, 2, one, low, old(fs.failures));
    }
  }

  /** alloc_tind_blk. */
  method AllocTind(fs: Fs, inode: Inode, bg: nat, ghost was: Disk) returns (r: Allocated, data: nat, ghost t: Taking)
    requires Ready(fs, was, bg)
    modifies fs, inode`sectors
    ensures fs.Valid() && Took(fs, t, was, old(fs.log)) && Gives(t.chain, r, data, 4)
    ensures inode.sectors == old(inode.sectors) + Times(fs.sectorsPerBlock, |t.chain|)
    ensures Why(fs, r, was.used, t.now.used, 4, old(fs.failures))
  {
    ghost var one, low;
    var b, d;
    data := 0;
    b, one := AllocOne(fs, bg, was);
    if !b.Got? {
      r, t := b, one;
      MoreWanted(fs, b, was.used, one.now.used, 1, 4, old(fs.failures));
    } else {
      d, data, low := AllocDind(fs, inode, bg, one.now);
      r, t := Finish(fs, inode, b.block, d, data, 3, one, low, old(fs.failures));
    }
  }
}
