/**
 `ext2_inode_alloc_block` and `ext2_inode_read_block`.
 */
module Ext2File {
  import opened Basics
  import opened Arith
  import opened Recency
  import opened Ext2Fs
  import opened Ext2Tree
  import opened Ext2Inode
  import opened Ext2Append
  import opened Ext2Chain
  import opened Ext2AllocChain

  // ---------------------------------------------------------------- appending

  /** Where the number of a block stands: in the inode, or in word `j` of block `b`. */
  datatype Via = InInode | InBlock(b: nat, j: nat)

  /** The number of block `x` stands in another block of the file. */
  ghost predicate Numbered(s: Appended, via: Via, x: nat)
  {
    via.InBlock? ==>
      && via.b in All(s.g) && via.b != x
      && via.b < |s.disk.words| && via.j < |s.disk.words[via.b]| && s.disk.words[via.b][via.j] == x
  }

  /** The buffer of the block is at hand, and that of the block its number stands in. */
  ghost predicate AtHand(fs: Fs, x: nat, via: Via)
    reads fs
  {
    LastRead(fs.Recent(), x, via)
  }

  ghost predicate LastRead(r: seq<nat>, x: nat, via: Via)
  {
    x in r && Above(r, x) == {} && (via.InBlock? ==> via.b in r && Above(r, via.b) == {x})
  }

  /** How many blocks the next append needs, pointer blocks among them. */
  ghost function Wanted(g: Grove): (n: nat)
  {
    if g.n < DIRECT then 1
    else if g.trees == [] || IsFull(LastTree(g)) then |g.trees| + 2
    else Needed(LastTree(g))
  }

  /** What the report of an append means. */
  ghost predicate Because(fs: Fs, r: Allocated, s: Appended, s': Appended, failures: nat)
    reads fs
  {
    Why(fs, r, s.disk.used, s'.disk.used, Wanted(s.g), failures)
  }

  /** Word `i` of block `x` is where the next pointer goes, over `n` new blocks. */
  ghost predicate Goes(s: Appended, x: nat, i: nat, n: nat)
  {
    s.g.trees != [] && !IsFull(LastTree(s.g)) && Needed(LastTree(s.g)) == n && GrowthAt(LastTree(s.g)) == (x, i)
  }

  /** A pointer block is read, and its buffer at hand. */
  method ReadAtHand(fs: Fs, b: nat, ghost d: Disk) returns (ok: bool, w: Words)
    requires fs.Valid() && d == Now(fs)
    modifies fs`device, fs`state, fs`log, fs`failures
    ensures fs.Valid() && d == Now(fs) && fs.failures == if ok then old(fs.failures) else old(fs.failures) + 1
    ensures ok ==> b < |d.words| && w == d.words[b] && AtHand(fs, b, InInode)
  {
    ok, w := fs.Read(b);
    if ok { fs.LastUsed(b, old(fs.log)); }
  }

  /** One whose number has just been read from another. */
  method ReadUnder(fs: Fs, parent: nat, j: nat, b: nat, ghost d: Disk) returns (ok: bool)
    requires fs.Valid() && d == Now(fs) && AtHand(fs, parent, InInode) && parent != b
    modifies fs`device, fs`state, fs`log, fs`failures
    ensures fs.Valid() && d == Now(fs) && fs.failures == if ok then old(fs.failures) else old(fs.failures) + 1
    ensures ok ==> AtHand(fs, b, InBlock(parent, j))
  {
    var w;
    ok, w := fs.Read(b);
    if ok {
      fs.LastUsed(b, old(fs.log));
      fs.UsedBefore(parent, b, old(fs.log));
    }
  }

  /** Both buffers are still good, and the number still stands where it did. */
  ghost predicate HeldIn(d: Disk, r: seq<nat>, x: nat, via: Via)
  {
    && x in r && x !in d.bitmaps
    && (via.InBlock? ==>
          via.b in r && via.b != x && via.b < |d.words| && via.j < |d.words[via.b]| && d.words[via.b][via.j] == x)
  }

  /** The buffer of a pointer block of the file is still good after an allocation. */
  lemma StillGood(s: Appended, t: Taking, x: nat, since: set<nat>, cap: nat)
    requires t.was == s.disk && t.chain != [] && |t.chain| <= 2 && |since| <= 1 && Roomy(s.disk, cap) && x in All(s.g)
    requires x in Replay(t.before, cap) && Above(Replay(t.before, cap), x) == since
    requires s.disk.readable <= Bitmaps(s.disk.bitmaps)
    ensures x in Replay(t.after, cap) && x !in t.now.bitmaps && (x < |t.was.words| ==> t.now.words[x] == t.was.words[x])
  {
    OwnedWord(s, t, x);
    BufferHeld(t, x, since, cap);
  }

  lemma StillHeld(s: Appended, t: Taking, x: nat, i: nat, n: nat, via: Via, cap: nat)
    requires t.was == s.disk && t.chain != [] && |t.chain| <= 2 && Goes(s, x, i, n) && Roomy(s.disk, cap)
    requires Numbered(s, via, x) && s.disk.readable <= Bitmaps(s.disk.bitmaps) && LastRead(Replay(t.before, cap), x, via)
    ensures HeldIn(t.now, Replay(t.after, cap), x, via)
  {
    GrowthOwned(s.g);
    StillGood(s, t, x, {}, cap);
    if via.InBlock? { StillGood(s, t, via.b, {x}, cap); }
  }

  lemma GrowthOwned(g: Grove)
    requires g.trees != [] && !IsFull(LastTree(g))
    ensures GrowthAt(LastTree(g)).0 in All(g)
  {
    TreeWithin(g.direct, g.trees, |g.trees| - 1);
    GrowthWithin(LastTree(g));
  }

  /**
   The pointer to what was allocated goes into its word, through the buffer at hand, and the
   block is marked dirty by its number, which is read once more.
   */
  method PutPointer(fs: Fs, inode: Inode, x: nat, i: nat, v: nat, via: Via, ghost data: nat, ghost s: Appended, ghost t: Taking) returns (ghost s': Appended)
    requires fs.Valid() && Grows(s, t, x, i) && t.now == Now(fs) && t.p == fs.pointers && s.unit == fs.sectorsPerBlock
    requires v == t.chain[0] && t.chain[|t.chain| - 1] == data && HeldIn(Now(fs), fs.Recent(), x, via)
    requires inode.block == RootRow(s.g) && inode.sectors == s.sectors + Times(s.unit, |t.chain|)
    modifies fs`words, fs`dirty, fs`state, fs`log
    ensures fs.Valid() && Matches(fs, inode, s') && Extended(s, s', Got(data))
  {
    s' := Grew(s, t, x, i, data);
    StoreBy(fs, x, i, v, via);
  }

  method StoreBy(fs: Fs, x: nat, i: nat, v: nat, via: Via)
    requires fs.Valid() && HeldIn(Now(fs), fs.Recent(), x, via) && x < |fs.words| && i < fs.pointers
    modifies fs`words, fs`dirty, fs`state, fs`log
    ensures fs.Valid() && fs.words == SetWord(old(fs.words), x, i, v)
    ensures fs.state == old(fs.state).(words := fs.words, dirty := old(fs.dirty) + {x})
  {
    if via.InInode? { fs.Store(x, i, v); } else { fs.StoreVia(via.b, via.j, x, i, v); }
  }

  lemma GrowsNow(s: Appended, t: Taking, x: nat, i: nat)
    requires t.was == s.disk && t.p == s.g.p && Goes(s, x, i, |t.chain|)
    ensures Grows(s, t, x, i)
  {
    GrowthOwned(s.g);
    OwnedWord(s, t, x);
    GrowthStored(s.disk.words, LastTree(s.g));
  }

  /** The outcome of an allocation for word `i` of block `x`. */
  method Settle(fs: Fs, inode: Inode, x: nat, i: nat, via: Via, top: Allocated, data: nat, ghost n: nat, ghost s: Appended, ghost t: Taking, ghost failures: nat)
    returns (r: Allocated, ghost s': Appended)
    requires fs.Valid() && fs.pointers == s.g.p && s.unit == fs.sectorsPerBlock && inode.block == RootRow(s.g)
    requires t.was == s.disk && t.now == Now(fs) && t.p == fs.pointers && Gives(t.chain, top, data, n) && n <= 2
    requires inode.sectors == s.sectors + Times(s.unit, |t.chain|) && Why(fs, top, t.was.used, t.now.used, n, failures)
    requires top.Got? ==> Goes(s, x, i, n) && HeldIn(Now(fs), fs.Recent(), x, via)
    modifies fs`words, fs`dirty, fs`state, fs`log
    ensures fs.Valid() && Matches(fs, inode, s') && Extended(s, s', r) && Why(fs, r, s.disk.used, s'.disk.used, n, failures)
  {
    r := if top.Got? then Got(data) else top;
    if top.Got? {
      GrowsNow(s, t, x, i);
      s' := PutPointer(fs, inode, x, i, top.block, via, data, s, t);
    } else {
      s' := Unharmed(s, t);
    }
  }

  lemma GoesLate(s: Appended, x: nat, i: nat, n: nat)
    requires Goes(s, x, i, n)
    ensures Wanted(s.g) == n
  {
    StartMono(s.g.p, 0, |s.g.trees| - 1);
  }

  /** The end of an append to a tree, after the allocation. */
  method Conclude(fs: Fs, inode: Inode, x: nat, i: nat, via: Via, top: Allocated, data: nat, ghost n: nat, ghost s: Appended, ghost t: Taking, ghost failures: nat)
    returns (r: Allocated, ghost s': Appended)
    requires fs.Valid() && fs.pointers == s.g.p && s.unit == fs.sectorsPerBlock && inode.block == RootRow(s.g)
    requires t.was == s.disk && t.now == Now(fs) && t.p == fs.pointers && Gives(t.chain, top, data, n) && n <= 2
    requires inode.sectors == s.sectors + Times(s.unit, |t.chain|) && Why(fs, top, t.was.used, t.now.used, n, failures)
    requires Goes(s, x, i, n) && Numbered(s, via, x) && Roomy(s.disk, fs.cacheSize) && s.disk.readable <= Bitmaps(s.disk.bitmaps)
    requires t.chain != [] ==> t.after == fs.log && LastRead(Replay(t.before, fs.cacheSize), x, via)
    modifies fs`words, fs`dirty, fs`state, fs`log
    ensures fs.Valid() && Matches(fs, inode, s') && Extended(s, s', r) && Because(fs, r, s, s', failures)
  {
    GoesLate(s, x, i, n);
    if top.Got? { StillHeld(s, t, x, i, n, via, fs.cacheSize); }
    r, s' := Settle(fs, inode, x, i, via, top, data, n, s, t, failures);
  }

  /** A data block under a pointer block that is there. */
  method AttachDirect(fs: Fs, inode: Inode, x: nat, i: nat, via: Via, bg: nat, ghost s: Appended) returns (r: Allocated, ghost s': Appended)
    requires Ready(fs, s.disk, bg) && Matches(fs, inode, s) && Goes(s, x, i, 1) && AtHand(fs, x, via) && Numbered(s, via, x)
    modifies fs, inode`sectors
    ensures fs.Valid() && Matches(fs, inode, s') && Extended(s, s', r) && Because(fs, r, s, s', old(fs.failures))
  {
    ghost var t;
    var top, data;
    ReadableBitmaps(fs.state);
    top, data, t := AllocDirect(fs, inode, bg, s.disk);
    r, s' := Conclude(fs, inode, x, i, via, top, data, 1, s, t, old(fs.failures));
  }

  /** A data block under a new pointer block, under one that is there. */
  method AttachInd(fs: Fs, inode: Inode, x: nat, i: nat, via: Via, bg: nat, ghost s: Appended) returns (r: Allocated, ghost s': Appended)
    requires Ready(fs, s.disk, bg) && Matches(fs, inode, s) && Goes(s, x, i, 2) && AtHand(fs, x, via) && Numbered(s, via, x)
    modifies fs, inode`sectors
    ensures fs.Valid() && Matches(fs, inode, s') && Extended(s, s', r) && Because(fs, r, s, s', old(fs.failures))
  {
    ghost var t;
    var top, data;
    ReadableBitmaps(fs.state);
    top, data, t := AllocInd(fs, inode, bg, s.disk);
    r, s' := Conclude(fs, inode, x, i, via, top, data, 2, s, t, old(fs.failures));
  }

  /** A pointer block, or several, over the first data block under one of the last three words. */
  method AllocTree(fs: Fs, inode: Inode, k: nat, bg: nat, ghost n: nat, ghost was: Disk) returns (r: Allocated, data: nat, ghost t: Taking)
    requires Ready(fs, was, bg) && k < 3 && n == k + 2
    modifies fs, inode`sectors
    ensures fs.Valid() && Took(fs, t, was, old(fs.log)) && Gives(t.chain, r, data, n)
    ensures Why(fs, r, was.used, t.now.used, n, old(fs.failures))
    ensures inode.sectors == old(inode.sectors) + Times(fs.sectorsPerBlock, |t.chain|)
  {
    if k == 0 {
      r, data, t := AllocInd(fs, inode, bg, was);
    } else if k == 1 {
      r, data, t := AllocDind(fs, inode, bg, was);
    } else {
      r, data, t := AllocTind(fs, inode, bg, was);
    }
  }

  /** Word `i` of the inode is where the next pointer goes, over `n` new blocks. */
  datatype Spot = Spot(g: Grove, i: nat, n: nat)

  ghost predicate Opens(o: Spot)
  {
    if o.i < DIRECT then o.g.n == o.i && o.n == 1
    else o.i < 15 && o.g.n == Start(o.g.p, o.i - DIRECT) && o.n == o.i - DIRECT + 2
  }

  type Opening = o: Spot | Opens(o) ghost witness Spot(Forest([], [], 1, 0), 0, 1)

  /** A word, when there is a pointer for it. */
  function RowAfter(row: seq<nat>, i: nat, top: Allocated): (r: seq<nat>)
    ensures |r| == |row|
  {
    if top.Got? && i < |row| then row[i := top.block] else row
  }

  ghost function RootedAt(s: Appended, t: Taking, o: Opening, data: nat): (r: Appended)
    requires t.was == s.disk && t.p == s.g.p && |t.chain| == o.n && t.chain[o.n - 1] == data && o.g == s.g
    ensures r.disk == t.now && r.unit == s.unit && r.sectors == s.sectors + Times(s.unit, o.n)
    ensures RootRow(r.g) == RootRow(s.g)[o.i := t.chain[0]] && Extended(s, r, Got(data))
  {
    if o.i < DIRECT then
      JustOne(t.chain, data);
      Placed(s, t, data)
    else Began(s, t, o.i - DIRECT, data)
  }

  /** What comes of an allocation for word `i` of the inode. */
  ghost function Rooted(s: Appended, t: Taking, o: Opening, top: Allocated, data: nat): (r: Appended)
    requires t.was == s.disk && t.p == s.g.p && Gives(t.chain, top, data, o.n) && o.g == s.g
    ensures r.disk == t.now && r.unit == s.unit && r.sectors == s.sectors + Times(s.unit, |t.chain|)
    ensures RootRow(r.g) == RowAfter(RootRow(s.g), o.i, top)
    ensures Extended(s, r, if top.Got? then Got(data) else top)
  {
    if !top.Got? then Unharmed(s, t) else RootedAt(s, t, o, data)
  }

  /** A pointer goes into the inode itself. */
  method SetRoot(fs: Fs, inode: Inode, i: nat, top: Allocated, data: nat, ghost o: Opening, ghost s: Appended, ghost t: Taking)
    returns (r: Allocated, ghost s': Appended)
    requires t.was == s.disk && t.now == Now(fs) && t.p == s.g.p == fs.pointers && s.unit == fs.sectorsPerBlock
    requires Gives(t.chain, top, data, o.n) && o.g == s.g && o.i == i
    requires inode.block == RootRow(s.g) && inode.sectors == s.sectors + Times(s.unit, |t.chain|)
    modifies inode`block
    ensures Matches(fs, inode, s') && Extended(s, s', r) && s'.disk == t.now && r == if top.Got? then Got(data) else top
  {
    s' := Rooted(s, t, o, top, data);
    inode.block := RowAfter(inode.block, i, top);
    r := if top.Got? then Got(data) else top;
  }

  /** The first block of the `k`th tree. */
  method Begin(fs: Fs, inode: Inode, k: nat, bg: nat, ghost o: Opening, ghost s: Appended) returns (r: Allocated, ghost s': Appended)
    requires Ready(fs, s.disk, bg) && Matches(fs, inode, s) && k < 3 && o == Spot(s.g, DIRECT + k, k + 2)
    modifies fs, inode
    ensures fs.Valid() && Matches(fs, inode, s') && Extended(s, s', r) && Why(fs, r, s.disk.used, s'.disk.used, k + 2, old(fs.failures))
  {
    ghost var t;
    var top, data;
    top, data, t := AllocTree(fs, inode, k, bg, k + 2, s.disk);
    r, s' := SetRoot(fs, inode, DIRECT + k, top, data, o, s, t);
  }

  lemma JustOne(chain: seq<nat>, data: nat)
    requires |chain| == 1 && chain[0] == data
    ensures chain == [data]
  {
  }

  /** One of the twelve direct blocks. */
  method AppendDirect(fs: Fs, inode: Inode, n: nat, bg: nat, ghost s: Appended) returns (r: Allocated, ghost s': Appended)
    requires Ready(fs, s.disk, bg) && Matches(fs, inode, s) && s.g.n == n < DIRECT
    modifies fs, inode
    ensures fs.Valid() && Matches(fs, inode, s') && Extended(s, s', r) && Why(fs, r, s.disk.used, s'.disk.used, 1, old(fs.failures))
  {
    ghost var t;
    var top, data;
    top, data, t := AllocDirect(fs, inode, bg, s.disk);
    r, s' := SetRoot(fs, inode, n, top, data, Spot(s.g, n, 1), s, t);
  }

  /** The third tree's pointer blocks, as far as it has one subtree. */
  lemma InThird(s: Appended)
    requires Start(s.g.p, 2) < s.g.n < Start(s.g.p, 2) + Pow(s.g.p, 2)
    ensures |s.g.trees| == 3 && LastTree(s.g).h == 3 && LastTree(s.g).c == s.g.n - Start(s.g.p, 2)
    ensures var f := LastTree(s.g);
            && !IsFull(f) && |f.t.kids| == 1 && !IsFull(Kid(f, 0)) && Kid(f, 0).c == f.c
            && GrowthAt(f) == GrowthAt(Kid(f, 0)) && Needed(f) == Needed(Kid(f, 0))
  {
    BegunBy(s.g, 2);
    Pows(s.g.p);
    GrowthThree(LastTree(s.g));
  }

  /** In the middle of the `k`th tree. */
  lemma InTree(s: Appended, k: nat)
    requires k < 3 && Start(s.g.p, k) < s.g.n < Start(s.g.p, k + 1)
    ensures |s.g.trees| == k + 1 && !IsFull(LastTree(s.g))
    ensures LastTree(s.g).h == k + 1 && LastTree(s.g).c == s.g.n - Start(s.g.p, k) && RootRow(s.g)[DIRECT + k] == LastTree(s.g).t.block
  {
    BegunBy(s.g, k);
    if |s.g.trees| > k + 1 { StartMono(s.g.p, k + 1, |s.g.trees| - 1); }
  }

  /** Where the next pointer of the second tree goes, by the words on the disk. */
  lemma SecondAt(words: seq<Words>, f: Packed)
    requires f.h == 2 && !IsFull(f) && Stored(words, f.t, f.p)
    ensures f.p > 0 && f.c / f.p >= 0 && f.c % f.p >= 0 && f.t.block < |words| && f.c / f.p < |words[f.t.block]|
    ensures Needed(f) == if f.c % f.p == 0 then 2 else 1
    ensures GrowthAt(f) == if f.c % f.p == 0 then (f.t.block, f.c / f.p) else (words[f.t.block][f.c / f.p], f.c % f.p)
  {
    GrowthTwo(f);
    GrowthStored(words, f);
  }

  /** A word of a pointer block, and the block itself. */
  lemma KidNumber(words: seq<Words>, t: Tree, k: nat, p: nat)
    requires t.Node? && k < |t.kids| && Stored(words, t, p) && Distinct(t)
    ensures words[t.block][k] == t.kids[k].block != t.block
    ensures t.block in multiset(Flatten(t)) && t.kids[k].block in multiset(Flatten(t)) && Distinct(t.kids[k])
  {
    RootApart(t, k);
    OwnBlock(t.kids[k]);
    BlockWithin(t, k, t.kids[k].block);
    KidWithin(t, k);
    assert forall b :: multiset(Flatten(t.kids[k]))[b] <= multiset(Flatten(t))[b];
  }

  lemma OwnBlock(t: Tree)
    ensures t.block in multiset(Flatten(t))
  {
  }

  /** Where the next pointer goes from block `x`, by one word or by two. */
  ghost predicate Points(s: Appended, x: nat, ibn2: nat, ibn: nat)
  {
    var words := s.disk.words;
    && x in All(s.g) && x < |words| && ibn2 < |words[x]|
    && if ibn == 0 then Goes(s, x, ibn2, 2) else words[x][ibn2] != x && Goes(s, words[x][ibn2], ibn, 1)
  }

  lemma SecondPath(s: Appended, c: nat, p: nat)
    requires Start(s.g.p, 1) < s.g.n < Start(s.g.p, 2) && c == s.g.n - Start(s.g.p, 1) && p == s.g.p
    ensures p > 0 && c / p >= 0 && c % p >= 0 && Points(s, RootRow(s.g)[13], c / p, c % p)
  {
    InTree(s, 1);
    var f := LastTree(s.g);
    SecondAt(s.disk.words, f);
    LastDistinct(Keeps(s.disk), s.g);
    OwnBlock(f.t);
    if c % p != 0 {
      GrowthTwo(f);
      KidNumber(s.disk.words, f.t, c / p, p);
    }
  }

  /** ext2_inode_alloc_block in the second tree. */
  method AppendSecond(fs: Fs, inode: Inode, c: nat, bg: nat, ghost s: Appended) returns (r: Allocated, ghost s': Appended)
    requires Ready(fs, s.disk, bg) && Matches(fs, inode, s)
    requires Start(s.g.p, 1) < s.g.n < Start(s.g.p, 2) && c == s.g.n - Start(s.g.p, 1)
    modifies fs, inode`sectors
    ensures fs.Valid() && Matches(fs, inode, s') && Extended(s, s', r) && Because(fs, r, s, s', old(fs.failures))
  {
    SecondPath(s, c, fs.pointers);
    r, s' := IoError, s;
    var ok, ind2 := ReadAtHand(fs, inode.block[13], s.disk);
    if ok { r, s' := AppendBelow(fs, inode, inode.block[13], ind2, c / fs.pointers, c % fs.pointers, InInode, bg, s); }
  }

  lemma FirstAt(s: Appended, c: nat)
    requires Start(s.g.p, 0) < s.g.n < Start(s.g.p, 1) && c == s.g.n - Start(s.g.p, 0)
    ensures Goes(s, RootRow(s.g)[12], c, 1)
  {
    InTree(s, 0);
    GrowthOne(LastTree(s.g));
  }

  /** ext2_inode_alloc_block in the first tree. */
  method AppendFirst(fs: Fs, inode: Inode, c: nat, bg: nat, ghost s: Appended) returns (r: Allocated, ghost s': Appended)
    requires Ready(fs, s.disk, bg) && Matches(fs, inode, s)
    requires Start(s.g.p, 0) < s.g.n < Start(s.g.p, 1) && c == s.g.n - Start(s.g.p, 0)
    modifies fs, inode`sectors
    ensures fs.Valid() && Matches(fs, inode, s') && Extended(s, s', r) && Because(fs, r, s, s', old(fs.failures))
  {
    FirstAt(s, c);
    r, s' := IoError, s;
    var ok, ind := ReadAtHand(fs, inode.block[12], s.disk);
    if ok { r, s' := AttachDirect(fs, inode, inode.block[12], c, InInode, bg, s); }
  }

  /** Where the next pointer of the third tree goes, as long as it has one subtree. */
  lemma ThirdAt(words: seq<Words>, f: Packed)
    requires f.h == 3 && !IsFull(f) && |f.t.kids| == 1 && Stored(words, f.t, f.p) && Kid(f, 0).c == f.c && !IsFull(Kid(f, 0))
    requires GrowthAt(f) == GrowthAt(Kid(f, 0)) && Needed(f) == Needed(Kid(f, 0)) && f.c < f.p * f.p
    ensures f.c / (f.p * f.p) == 0 && f.c % (f.p * f.p) == f.c
    ensures f.p > 0 && f.c / f.p >= 0 && f.c % f.p >= 0 && f.t.block < |words| && 0 < |words[f.t.block]|
    ensures words[f.t.block][0] < |words| && f.c / f.p < |words[words[f.t.block][0]]|
    ensures Needed(f) == if f.c % f.p == 0 then 2 else 1
    ensures GrowthAt(f) == if f.c % f.p == 0 then (words[f.t.block][0], f.c / f.p)
                           else (words[words[f.t.block][0]][f.c / f.p], f.c % f.p)
  {
    DivIs(f.c, 0, f.c, f.p * f.p);
    assert words[f.t.block] == Row(f.t.kids, f.p);
    SecondAt(words, Kid(f, 0));
  }

  /** The words to follow in the third tree. */
  function Third(c: nat, p: nat): (ibn: (nat, nat, nat))
    requires p > 0
  {
    assert p * p > 0;
    DivMod(c, p);
    DivMod(c, p * p);
    DivMod(c % (p * p), p);
    (c / (p * p), c % (p * p) / p, c % p)
  }

  /** Three words lead to the next pointer. */
  ghost predicate Leads(s: Appended, b: nat, ibn: (nat, nat, nat))
  {
    var words := s.disk.words;
    && b in All(s.g) && b < |words| && ibn.0 < |words[b]| && words[b][ibn.0] != b && Points(s, words[b][ibn.0], ibn.1, ibn.2)
    && ibn != (0, 0, 0)
  }

  /** The way to the next pointer of the third tree, from the inode. */
  lemma ThirdPath(s: Appended, c: nat, p: nat)
    requires Start(s.g.p, 2) < s.g.n < Start(s.g.p, 2) + Pow(s.g.p, 2) && c == s.g.n - Start(s.g.p, 2) && p == s.g.p
    ensures p > 0
    ensures Leads(s, RootRow(s.g)[14], Third(c, p))
  {
    InThird(s);
    Pows(p);
    var f := LastTree(s.g);
    ThirdAt(s.disk.words, f);
    LastDistinct(Keeps(s.disk), s.g);
    KidNumber(s.disk.words, f.t, 0, p);
    ThirdWords(s, f, c, p);
  }

  lemma ThirdWords(s: Appended, f: Packed, c: nat, p: nat)
    requires s.g.trees != [] && f == LastTree(s.g) && f.h == 3 && |f.t.kids| == 1 && f.c == c > 0 && p == f.p > 0
    requires Kid(f, 0).c == c && !IsFull(Kid(f, 0)) && Distinct(f.t) && multiset(Flatten(f.t)) <= All(s.g)
    ensures Stored(s.disk.words, f.t, p) && f.t.kids[0].block in All(s.g) && Third(c, p) != (0, 0, 0)
    ensures c % p != 0 ==> c / p >= 0 && f.t.kids[0].block < |s.disk.words| && c / p < |s.disk.words[f.t.kids[0].block]|
                           && s.disk.words[f.t.kids[0].block][c / p] != f.t.kids[0].block
  {
    KidNumber(s.disk.words, f.t, 0, p);
    DivMod(c, p);
    Pows(p);
    Room(Kid(f, 0));
    DivIs(c, 0, c, p * p);
    if c % p != 0 {
      GrowthTwo(Kid(f, 0));
      KidNumber(s.disk.words, f.t.kids[0], c / p, p);
    }
  }

  /**
   ext2_inode_alloc_block in the third tree.  Its branch for a new doubly-indirect block asks
   for a block count of zero, which it does not have here.
   */
  method AppendThird(fs: Fs, inode: Inode, c: nat, bg: nat, ghost s: Appended) returns (r: Allocated, ghost s': Appended)
    requires Ready(fs, s.disk, bg) && Matches(fs, inode, s)
    requires Start(s.g.p, 2) < s.g.n < Start(s.g.p, 2) + Pow(s.g.p, 2) && c == s.g.n - Start(s.g.p, 2)
    modifies fs, inode`sectors
    ensures fs.Valid() && Matches(fs, inode, s') && Extended(s, s', r) && Because(fs, r, s, s', old(fs.failures))
  {
    var p := fs.pointers;
    ThirdPath(s, c, p);
    r, s' := AppendDown(fs, inode, Third(c, p), bg, s);
  }

  /** The three indices are never all zero, so that EFBIG is never reported. */
  method AppendDown(fs: Fs, inode: Inode, ibn: (nat, nat, nat), bg: nat, ghost s: Appended) returns (r: Allocated, ghost s': Appended)
    requires Ready(fs, s.disk, bg) && Matches(fs, inode, s) && |inode.block| == 15 && Leads(s, inode.block[14], ibn)
    modifies fs, inode`sectors
    ensures fs.Valid() && Matches(fs, inode, s') && Extended(s, s', r) && Because(fs, r, s, s', old(fs.failures))
  {
    r, s' := IoError, s;
    if ibn.0 == 0 && ibn.1 == 0 && ibn.2 == 0 {
      assert false;
    } else {
      LeadsOn(s, inode.block[14], ibn);
      r, s' := AppendFrom(fs, inode, inode.block[14], ibn.0, ibn.1, ibn.2, bg, s);
    }
  }

  lemma LeadsOn(s: Appended, b: nat, ibn: (nat, nat, nat))
    requires Leads(s, b, ibn)
    ensures b < |s.disk.words| && ibn.0 < |s.disk.words[b]|
    ensures var x := s.disk.words[b][ibn.0]; Points(s, x, ibn.1, ibn.2) && Numbered(s, InBlock(b, ibn.0), x)
  {
  }

  /** Through a triply-indirect block. */
  method AppendFrom(fs: Fs, inode: Inode, b: nat, j: nat, ibn2: nat, ibn: nat, bg: nat, ghost s: Appended)
    returns (r: Allocated, ghost s': Appended)
    requires Ready(fs, s.disk, bg) && Matches(fs, inode, s) && b < |s.disk.words| && j < |s.disk.words[b]|
    requires var x := s.disk.words[b][j]; Points(s, x, ibn2, ibn) && Numbered(s, InBlock(b, j), x)
    modifies fs, inode`sectors
    ensures fs.Valid() && Matches(fs, inode, s') && Extended(s, s', r) && Because(fs, r, s, s', old(fs.failures))
  {
    r, s' := IoError, s;
    var ok, ind3 := ReadAtHand(fs, b, s.disk);
    if ok { r, s' := AppendThrough(fs, inode, b, j, ind3[j], ibn2, ibn, bg, s); }
  }

  /** Through a doubly-indirect block that has to be read first. */
  method AppendThrough(fs: Fs, inode: Inode, parent: nat, j: nat, x: nat, ibn2: nat, ibn: nat, bg: nat, ghost s: Appended)
    returns (r: Allocated, ghost s': Appended)
    requires Ready(fs, s.disk, bg) && Matches(fs, inode, s) && AtHand(fs, parent, InInode) && Points(s, x, ibn2, ibn)
    requires Numbered(s, InBlock(parent, j), x)
    modifies fs, inode`sectors
    ensures fs.Valid() && Matches(fs, inode, s') && Extended(s, s', r) && Because(fs, r, s, s', old(fs.failures))
  {
    r, s' := IoError, s;
    var ok := ReadUnder(fs, parent, j, x, s.disk);
    if ok { r, s' := AppendBelow(fs, inode, x, fs.words[x], ibn2, ibn, InBlock(parent, j), bg, s); }
  }

  /** Under a doubly-indirect block. */
  method AppendBelow(fs: Fs, inode: Inode, x: nat, ind2: Words, ibn2: nat, ibn: nat, via: Via, bg: nat, ghost s: Appended)
    returns (r: Allocated, ghost s': Appended)
    requires Ready(fs, s.disk, bg) && Matches(fs, inode, s) && Points(s, x, ibn2, ibn) && ind2 == fs.words[x]
    requires AtHand(fs, x, via) && Numbered(s, via, x)
    modifies fs, inode`sectors
    ensures fs.Valid() && Matches(fs, inode, s') && Extended(s, s', r) && Because(fs, r, s, s', old(fs.failures))
  {
    if ibn == 0 {
      r, s' := AttachInd(fs, inode, x, ibn2, via, bg, s);
    } else {
      r, s' := AttachUnder(fs, inode, x, ibn2, ind2[ibn2], ibn, bg, s);
    }
  }

  /** A data block under a pointer block that has to be read first. */
  method AttachUnder(fs: Fs, inode: Inode, parent: nat, j: nat, x: nat, i: nat, bg: nat, ghost s: Appended) returns (r: Allocated, ghost s': Appended)
    requires Ready(fs, s.disk, bg) && Matches(fs, inode, s) && Goes(s, x, i, 1) && AtHand(fs, parent, InInode)
    requires Numbered(s, InBlock(parent, j), x)
    modifies fs, inode`sectors
    ensures fs.Valid() && Matches(fs, inode, s') && Extended(s, s', r) && Because(fs, r, s, s', old(fs.failures))
  {
    r, s' := IoError, s;
    var ok := ReadUnder(fs, parent, j, x, s.disk);
    if ok { r, s' := AttachDirect(fs, inode, x, i, InBlock(parent, j), bg, s); }
  }

  /**
   ext2_inode_alloc_block, for a file of `n` blocks without an attribute block, up to the point
   where the third tree needs a second subtree.
   */
  method AppendBlock(fs: Fs, inode: Inode, n: nat, bg: nat, ghost s: Appended) returns (r: Allocated, ghost s': Appended)
    requires Ready(fs, s.disk, bg) && Matches(fs, inode, s)
    requires s.g.n == n < Start(s.g.p, 2) + Pow(s.g.p, 2)
    modifies fs, inode
    ensures fs.Valid() && Matches(fs, inode, s') && Extended(s, s', r) && Because(fs, r, s, s', old(fs.failures))
    ensures r.ReadOnly? <==> !fs.readWrite
  {
    var p := fs.pointers;
    Starts(p);
    Pows(p);
    if !fs.readWrite {
      r, s' := ReadOnly, s;
    } else if n < 12 {
      r, s' := AppendDirect(fs, inode, n, bg, s);
    } else if n - 12 < p {
      r, s' := AppendBy(fs, inode, 0, n - 12, bg, s);
    } else if n - 12 - p < p * p {
      r, s' := AppendBy(fs, inode, 1, n - 12 - p, bg, s);
    } else {
      r, s' := AppendBy(fs, inode, 2, n - 12 - p - p * p, bg, s);
    }
  }

  /** An append to the `k`th tree, the first one to it or a later one. */
  method AppendBy(fs: Fs, inode: Inode, k: nat, c: nat, bg: nat, ghost s: Appended) returns (r: Allocated, ghost s': Appended)
    requires Ready(fs, s.disk, bg) && Matches(fs, inode, s) && k < 3
    requires s.g.n == Start(s.g.p, k) + c < Start(s.g.p, k) + (if k < 2 then Pow(s.g.p, k + 1) else Pow(s.g.p, 2))
    modifies fs, inode
    ensures fs.Valid() && Matches(fs, inode, s') && Extended(s, s', r) && Because(fs, r, s, s', old(fs.failures))
  {
    if c == 0 {
      BeginsWanted(s.g, k);
      r, s' := Begin(fs, inode, k, bg, Spot(s.g, DIRECT + k, k + 2), s);
    } else if k == 0 {
      r, s' := AppendFirst(fs, inode, c, bg, s);
    } else if k == 1 {
      r, s' := AppendSecond(fs, inode, c, bg, s);
    } else {
      r, s' := AppendThird(fs, inode, c, bg, s);
    }
  }

  /** A new tree is wanted when all before it are full. */
  lemma BeginsWanted(g: Grove, k: nat)
    requires k < 3 && g.n == Start(g.p, k)
    ensures Wanted(g) == k + 2
  {
    TreesSoFar(g, k);
    StartMono(g.p, 0, k);
    if k > 0 { assert IsTree(g.trees[k - 1], g.p, g.n, k - 1); }
  }

  // ---------------------------------------------------------------- looking up

  /** A step of a lookup: the word of a pointer block.  `None` stands for a failed access since there were `failures`. */
  method ReadWord(fs: Fs, b: Option<nat>, i: nat, ghost failures: nat) returns (r: Option<nat>)
    requires fs.Valid() && i < fs.pointers && failures <= fs.failures && (b.Some? <==> fs.failures == failures)
    modifies fs`device, fs`state, fs`log, fs`failures
    ensures fs.Valid() && fs.state == old(fs.state).(device := fs.device) && failures <= fs.failures
    ensures (r.Some? <==> fs.failures == failures) && (r.Some? ==> r == WordAt(fs.words, b, i))
  {
    r := None;
    if b.Some? {
      var ok, w := fs.Read(b.value);
      if ok { r := Some(w[i]); }
    }
  }

  /** Two steps and three. */
  method ReadTwo(fs: Fs, b: nat, i: nat, j: nat) returns (r: Option<nat>)
    requires fs.Valid() && i < fs.pointers && j < fs.pointers
    modifies fs`device, fs`state, fs`log, fs`failures
    ensures fs.Valid() && fs.state == old(fs.state).(device := fs.device) && old(fs.failures) <= fs.failures
    ensures (r.Some? <==> fs.failures == old(fs.failures)) && (r.Some? ==> r == WordAt(fs.words, WordAt(fs.words, Some(b), i), j))
  {
    r := ReadWord(fs, Some(b), i, old(fs.failures));
    r := ReadWord(fs, r, j, old(fs.failures));
  }

  method ReadThree(fs: Fs, b: nat, i: nat, j: nat, k: nat) returns (r: Option<nat>)
    requires fs.Valid() && i < fs.pointers && j < fs.pointers && k < fs.pointers
    modifies fs`device, fs`state, fs`log, fs`failures
    ensures fs.Valid() && fs.state == old(fs.state).(device := fs.device) && old(fs.failures) <= fs.failures
    ensures r.Some? <==> fs.failures == old(fs.failures)
    ensures r.Some? ==> r == WordAt(fs.words, WordAt(fs.words, WordAt(fs.words, Some(b), i), j), k)
  {
    r := ReadTwo(fs, b, i, j);
    r := ReadWord(fs, r, k, old(fs.failures));
  }

  /** The size test, which shifts in 32 bits. */
  predicate Below(i: nat, blockSize: nat, size: nat)
  {
    i * blockSize % 0x1_0000_0000 < size
  }

  /** The logical block is among the first `p * p` of the third tree, or before. */
  predicate Indexed(p: nat, i: nat)
  {
    i < DIRECT + p + p * p + p * p
  }

  /** Just for these is the first index in the third tree one of the words of its block. */
  lemma IndexedIff(p: nat, j: nat)
    requires p > 0
    ensures Indexed(p, DIRECT + p + p * p + j) <==> j / p < p
  {
    DivMod(j, p);
    if j / p > p { MulMono(p, p, j / p); }
    if j / p < p { MulMono(p, j / p, p); }
  }

  /**
   ext2_inode_read_block: the block that a logical block resolves to, and its contents, just
   when it is below the file's size and no access fails.  From the next `p` times `p` blocks of
   the third tree on, the source reads past the end of a buffer.
   */
  method ReadBlock(fs: Fs, inode: Inode, i: nat, blockSize: nat, size: nat) returns (r: Option<nat>, w: Words)
    requires fs.Valid() && |inode.block| == 15 && fs.pointers > 0 && Indexed(fs.pointers, i)
    modifies fs`device, fs`state, fs`log, fs`failures
    ensures fs.Valid() && fs.state == old(fs.state).(device := fs.device)
    ensures r.Some? <==> Below(i, blockSize, size) && fs.failures == old(fs.failures)
    ensures r.Some? ==> r == Resolve(fs.words, inode.block, fs.pointers, i) && r.value < |fs.words| && w == fs.words[r.value]
  {
    r, w := None, [];
    if Below(i, blockSize, size) {
      r := ReadMapped(fs, inode.block, i);
      r, w := ReadData(fs, r, old(fs.failures));
    }
  }

  method ReadData(fs: Fs, b: Option<nat>, ghost failures: nat) returns (r: Option<nat>, w: Words)
    requires fs.Valid() && failures <= fs.failures && (b.Some? <==> fs.failures == failures)
    modifies fs`device, fs`state, fs`log, fs`failures
    ensures fs.Valid() && fs.state == old(fs.state).(device := fs.device)
    ensures (r.Some? <==> fs.failures == failures) && (r.Some? ==> r == b && r.value < |fs.words| && w == fs.words[r.value])
  {
    r, w := None, [];
    if b.Some? {
      var ok;
      ok, w := fs.Read(b.value);
      if ok { r := b; }
    }
  }

  method ReadMapped(fs: Fs, block: seq<nat>, i: nat) returns (r: Option<nat>)
    requires fs.Valid() && |block| == 15 && fs.pointers > 0 && Indexed(fs.pointers, i)
    modifies fs`device, fs`state, fs`log, fs`failures
    ensures fs.Valid() && fs.state == old(fs.state).(device := fs.device) && old(fs.failures) <= fs.failures
    ensures (r.Some? <==> fs.failures == old(fs.failures)) && (r.Some? ==> r == Resolve(fs.words, block, fs.pointers, i))
  {
    var p := fs.pointers;
    if i < 12 {
      r := Some(block[i]);
    } else if i - 12 < p {
      r := ReadWord(fs, Some(block[12]), i - 12, old(fs.failures));
    } else if i - 12 - p < p * p {
      r := ReadSecond(fs, block, i, i - 12 - p);
    } else {
      r := ReadThird(fs, block, i, i - 12 - p - p * p);
    }
  }

  /** A quotient within the square. */
  lemma QuotientBelow(j: nat, p: nat)
    requires j < p * p
    ensures p > 0 && 0 <= j / p < p && 0 <= j % p < p
  {
    DivMod(j, p);
    if j / p >= p { MulMono(p, p - 1, j / p); }
  }

  method ReadSecond(fs: Fs, block: seq<nat>, ghost i: nat, j: nat) returns (r: Option<nat>)
    requires fs.Valid() && |block| == 15 && i == DIRECT + fs.pointers + j && j < fs.pointers * fs.pointers
    modifies fs`device, fs`state, fs`log, fs`failures
    ensures fs.Valid() && fs.pointers > 0 && fs.state == old(fs.state).(device := fs.device) && old(fs.failures) <= fs.failures
    ensures (r.Some? <==> fs.failures == old(fs.failures)) && (r.Some? ==> r == Resolve(fs.words, block, fs.pointers, i))
  {
    var p := fs.pointers;
    QuotientBelow(j, p);
    r := ReadTwo(fs, block[13], j / p, j % p);
  }

  method ReadThird(fs: Fs, block: seq<nat>, ghost i: nat, l: nat) returns (r: Option<nat>)
    requires fs.Valid() && |block| == 15 && i == DIRECT + fs.pointers + fs.pointers * fs.pointers + l && l < fs.pointers * fs.pointers
    modifies fs`device, fs`state, fs`log, fs`failures
    ensures fs.Valid() && fs.pointers > 0 && fs.state == old(fs.state).(device := fs.device) && old(fs.failures) <= fs.failures
    ensures (r.Some? <==> fs.failures == old(fs.failures)) && (r.Some? ==> r == Resolve(fs.words, block, fs.pointers, i))
  {
    var p := fs.pointers;
    QuotientBelow(l, p);
    Small(l % p, p);
    r := ReadThree(fs, block[14], l / p, l % p / p, l % p % p);
  }
}
