/**
 Cluster chains of libkosfat: next-fit allocation on FAT16 and FAT32, what becomes of it on
 FAT12, and erasure, with the count of free clusters that the superblock keeps.
 */
module FatChains {
  import opened Basics
  import opened BlockCache
  import opened FatEntries
  import opened FatTable
  import opened Arith

  const INVALID_CLUSTER := 0xFFFF_FFFF

  function EndOfChain(k: Kind): (v: nat)
  {
    match k case Fat12 => 0xFFF case Fat16 => 0xFFFF case Fat32 => 0x0FFF_FFFF
  }

  /** fat_is_eof. */
  predicate IsEof(k: Kind, cl: nat)
  {
    match k
    case Fat12 => 0xFF8 <= cl < 0x8000_0000
    case Fat16 => 0xFFF8 <= cl < 0x8000_0000
    case Fat32 => cl % 0x1000_0000 >= 0x0FFF_FFF8
  }

  /** The entry is there, and nonzero. */
  predicate InUse(f: Layout, c: seq<Block>, cl: nat)
    requires f.bps > 0
  {
    HasEntry(f, c, cl) && Entry(f, c, cl) != 0
  }

  predicate IsFree(f: Layout, c: seq<Block>, cl: nat)
    requires f.bps > 0
  {
    HasEntry(f, c, cl) && Entry(f, c, cl) == 0
  }

  /** The next entry is in the same sector, or the first one of the next. */
  lemma NextEntry(f: Layout, cl: nat)
    requires ValidLayout(f) && !f.kind.Fat12?
    ensures var s := Sector(f, Position(f, cl));
            Sector(f, Position(f, cl + 1)) == if Position(f, cl + 1) % f.bps == 0 then s + 1 else s
  {
    var p, w := Position(f, cl), Width(f);
    InsideUnlessStraddling(f, cl);
    DivMod(p, f.bps);
    if p % f.bps + w < f.bps {
      SameSector(f, p, w);
    } else {
      assert f.bps * (p / f.bps + 1) == f.bps * (p / f.bps) + f.bps;
      DivIs(p + w, p / f.bps + 1, 0, f.bps);
    }
  }

  /** An entry, as it is read from its sector. */
  lemma Seen(f: Layout, c: seq<Block>, cl: nat)
    requires ValidLayout(f) && !f.kind.Fat12? && HasSector(f, c, Sector(f, Position(f, cl)))
    ensures Inside(f, cl) && HasEntry(f, c, cl)
    ensures Unpacked(f, c[Sector(f, Position(f, cl))], cl) == Entry(f, c, cl)
  {
    InsideUnlessStraddling(f, cl);
    BytesAre(f, c, cl);
  }

  ghost predicate AllInUse(f: Layout, c: seq<Block>, from: nat, end: nat)
    requires f.bps > 0
  {
    forall k :: from <= k < end ==> InUse(f, c, k)
  }

  lemma OneMoreInUse(f: Layout, c: seq<Block>, from: nat, end: nat)
    requires f.bps > 0 && AllInUse(f, c, from, end) && InUse(f, c, end)
    ensures AllInUse(f, c, from, end + 1)
  {
  }

  /** A count that goes round at 32 bits. */
  function Ahead(n: Word, k: nat): (r: Word)
  {
    (n + k) % WORD
  }

  /** The number of free clusters after an allocation, which only FAT32 counts. */
  function CountedDown(k: Kind, n: Word): (r: Word)
  {
    if k.Fat32? then (n - 1) % WORD else n
  }

  // ---------------------------------------------------------------- allocation

  datatype Scanned = Hit(cluster: nat, sector: nat) | Full | Unreadable

  /**
   The entry whose sector is at hand when a pass that began at `from` has come to `i`: no sector
   is fetched any more behind the last cluster.
   */
  function Seat(n: nat, from: nat, i: nat): (k: nat)
    ensures i < n + 2 ==> k == i
  {
    if i < n + 2 then i else if from < n + 2 then n + 1 else from
  }

  function SeatSector(f: Layout, n: nat, from: nat, i: nat): (sn: nat)
    requires f.bps > 0
  {
    Sector(f, Position(f, Seat(n, from, i)))
  }

  /** What a pass takes for an entry: the bytes at its offset in that sector. */
  ghost predicate Empty(f: Layout, t: seq<Block>, n: nat, from: nat, i: nat)
    requires ValidLayout(f) && !f.kind.Fat12?
  {
    InsideUnlessStraddling(f, i);
    var sn := SeatSector(f, n, from, i);
    HasSector(f, t, sn) && Unpacked(f, t[sn], i) == 0
  }

  /** For a cluster of the volume, that is the entry. */
  lemma EmptyIs(f: Layout, t: seq<Block>, n: nat, from: nat, i: nat)
    requires ValidLayout(f) && !f.kind.Fat12? && i < n + 2 && HasSector(f, t, SeatSector(f, n, from, i))
    ensures HasEntry(f, t, i) && (Empty(f, t, n, from, i) <==> IsFree(f, t, i)) && (!Empty(f, t, n, from, i) <==> InUse(f, t, i))
  {
    Seen(f, t, i);
  }

  /** Nothing from `from` to `end` looks empty. */
  ghost predicate NoneEmpty(f: Layout, t: seq<Block>, n: nat, from: nat, end: nat)
    requires ValidLayout(f) && !f.kind.Fat12?
  {
    && AllInUse(f, t, from, if end < n + 2 then end else n + 2)
    && forall k :: n + 2 <= k && from <= k < end ==> !Empty(f, t, n, from, k)
  }

  lemma OneMoreNotEmpty(f: Layout, t: seq<Block>, n: nat, from: nat, end: nat)
    requires ValidLayout(f) && !f.kind.Fat12? && NoneEmpty(f, t, n, from, end) && !Empty(f, t, n, from, end)
    requires HasSector(f, t, SeatSector(f, n, from, end))
    ensures NoneEmpty(f, t, n, from, end + 1)
  {
    if end < n + 2 { EmptyIs(f, t, n, from, end); }
  }

  /** A pass comes to an entry that looks empty, and to none before it. */
  ghost predicate Hits(f: Layout, t: seq<Block>, n: nat, from: nat, last: nat, cl: nat)
    requires ValidLayout(f) && !f.kind.Fat12?
  {
    from <= cl < last && Empty(f, t, n, from, cl) && NoneEmpty(f, t, n, from, cl)
  }

  /** The sector at hand, and its bytes. */
  ghost predicate AtHand(fs: Fat, from: nat, i: nat, sn: nat, blk: Block)
    requires fs.layout.bps > 0 && fs.disk.Indexed()
    reads fs, fs.disk, fs.disk.cache
  {
    && sn == SeatSector(fs.layout, fs.numClusters, from, i) && fs.Fresh(sn)
    && HasSector(fs.layout, fs.Table(), sn) && blk == fs.Table()[sn]
  }

  /** The first sector of a pass, by the 32-bit position of its first entry. */
  function Begin(f: Layout, from: nat): (sn: nat)
    requires f.bps > 0
  {
    Sector(f, Position(f, from) % WORD)
  }

  lemma BeginIs(f: Layout, n: nat, from: nat)
    requires f.bps > 0 && from <= n + 2 && Position(f, n + 2) + 4 <= WORD
    ensures Begin(f, from) == SeatSector(f, n, from, from)
  {
    assert Position(f, from) < WORD;
  }

  /**
   One pass of the allocator: the first entry from `from` up to `last` that is zero.  The sector
   of an entry is fetched at the start, and then whenever an entry begins a new one.
   */
  method Scan(fs: Fat, from: nat, last: nat, ghost t: seq<Block>) returns (r: Scanned)
    requires fs.Valid() && !fs.layout.kind.Fat12? && fs.Table() == t && (from < last ==> from <= fs.numClusters + 2)
    modifies fs.disk`device, fs.disk`buffers, fs.disk.cache
    ensures fs.Valid() && fs.Table() == t
    ensures r.Hit? ==> Hits(fs.layout, t, fs.numClusters, from, last, r.cluster)
    ensures r.Hit? ==> r.sector == SeatSector(fs.layout, fs.numClusters, from, r.cluster) && fs.Fresh(r.sector)
    ensures r.Full? ==> NoneEmpty(fs.layout, t, fs.numClusters, from, last)
  {
    var sn := Begin(fs.layout, from);
    if from < last { BeginIs(fs.layout, fs.numClusters, from); }
    var ok, blk := fs.Fetch(sn);
    r := Unreadable;
    if ok { r := ScanFrom(fs, from, last, sn, blk, t); }
  }

  /** The loop of a pass, once the first sector is in. */
  method ScanFrom(fs: Fat, from: nat, last: nat, sn0: nat, blk0: Block, ghost t: seq<Block>) returns (r: Scanned)
    requires fs.Valid() && !fs.layout.kind.Fat12? && fs.Table() == t
    requires from < last ==> from <= fs.numClusters + 2 && AtHand(fs, from, from, sn0, blk0)
    modifies fs.disk`device, fs.disk`buffers, fs.disk.cache
    ensures fs.Valid() && fs.Table() == t
    ensures r.Hit? ==> Hits(fs.layout, t, fs.numClusters, from, last, r.cluster)
    ensures r.Hit? ==> r.sector == SeatSector(fs.layout, fs.numClusters, from, r.cluster) && fs.Fresh(r.sector)
    ensures r.Full? ==> NoneEmpty(fs.layout, t, fs.numClusters, from, last)
  {
    var i, sn, blk, ok := from, sn0, blk0, true;
    while i < last
      invariant from <= i && fs.Valid() && fs.Table() == t && (i < last ==> AtHand(fs, from, i, sn, blk))
      invariant NoneEmpty(fs.layout, t, fs.numClusters, from, i) && (from < last ==> i <= last)
    {
      InsideUnlessStraddling(fs.layout, i);
      if Unpacked(fs.layout, blk, i) == 0 {
        assert Hits(fs.layout, t, fs.numClusters, from, last, i);
        return Hit(i, sn);
      }
      OneMoreNotEmpty(fs.layout, t, fs.numClusters, from, i);
      i := i + 1;
      ok, sn, blk := Follow(fs, from, i, sn, blk, t);
      if !ok { return Unreadable; }
    }
    r := Full;
  }

  /** The next sector, when the entry `i` is the first one in it and a cluster of the volume. */
  method Follow(fs: Fat, ghost from: nat, i: nat, sn: nat, blk: Block, ghost t: seq<Block>) returns (ok: bool, sn': nat, blk': Block)
    requires fs.Valid() && !fs.layout.kind.Fat12? && fs.Table() == t && from < i && AtHand(fs, from, i - 1, sn, blk)
    modifies fs.disk`device, fs.disk`buffers, fs.disk.cache
    ensures fs.Valid() && fs.Table() == t && (ok ==> AtHand(fs, from, i, sn', blk'))
  {
    ok, sn', blk' := true, sn, blk;
    NextEntry(fs.layout, i - 1);
    if Position(fs.layout, i) % fs.layout.bps == 0 && i < fs.numClusters + 2 {
      sn' := sn + 1;
      ok, blk' := fs.Fetch(sn');
    }
  }

  datatype Allocated = Got(cluster: nat) | ReadOnly | NoSpace | IoError

  /** Where the search begins: the counter goes round. */
  function After(hint: Word): (from: nat)
  {
    if hint + 1 < WORD then hint + 1 else 0
  }

  /**
   fat_allocate_cluster on FAT16 and FAT32: two passes, after the last cluster allocated and
   before it.  Only FAT32 counts the free clusters down.  The last cluster allocated is what a
   superblock may say, unchecked; with a wrong one a cluster may be given that is none.
   */
  method AllocateCluster(fs: Fat, ghost t: seq<Block>) returns (r: Allocated)
    requires fs.Valid() && !fs.layout.kind.Fat12? && fs.lastAlloc < WORD && t == fs.Table()
    modifies fs, fs.disk`device, fs.disk`buffers, fs.disk.cache
    ensures fs.Valid()
    ensures r.ReadOnly? <==> !fs.disk.readWrite
    ensures r.Got? ==> fs.lastAlloc == r.cluster && fs.freeClusters == CountedDown(fs.layout.kind, old(fs.freeClusters))
    ensures r.Got? ==> (2 <= r.cluster < fs.numClusters + 2 <==> !Strays(fs.layout, t, fs.numClusters, old(fs.lastAlloc)))
    ensures r.Got? && r.cluster < fs.numClusters + 2 ==>
              && NextFree(fs.layout, t, old(fs.lastAlloc), r.cluster, fs.numClusters)
              && fs.Table() == Written(fs.layout, t, r.cluster, EndOfChain(fs.layout.kind))
    ensures r.Got? && r.cluster >= fs.numClusters + 2 ==> WrittenBeyond(fs.layout, t, fs.numClusters, r.cluster, fs.Table())
    ensures !r.Got? ==> fs.Table() == t && fs.lastAlloc == old(fs.lastAlloc) && fs.freeClusters == old(fs.freeClusters)
    ensures r.NoSpace? ==> NoneFound(fs.layout, t, fs.numClusters, old(fs.lastAlloc))
  {
    if !fs.disk.readWrite { return ReadOnly; }
    var s := Search(fs, t);
    match s {
      case Hit(i, sn) =>
        Outside(fs.layout, t, fs.numClusters, fs.lastAlloc, i);
        Claim(fs, i, sn, t);
        r := Got(i);
      case Full => r := NoSpace;
      case Unreadable => r := IoError;
    }
  }

  /** The free entry below the end of the volume that a next-fit search from `hint` comes to first. */
  ghost predicate NextFree(f: Layout, t: seq<Block>, hint: Word, cl: nat, n: nat)
    requires f.bps > 0
  {
    && cl < n + 2 && IsFree(f, t, cl)
    && if After(hint) <= cl then AllInUse(f, t, After(hint), cl)
       else AllInUse(f, t, After(hint), n + 2) && AllInUse(f, t, 2, cl) && 2 <= cl < hint
  }

  /** Neither pass comes to anything. */
  ghost predicate NoneFound(f: Layout, t: seq<Block>, n: nat, hint: Word)
    requires ValidLayout(f) && !f.kind.Fat12?
  {
    NoneEmpty(f, t, n, After(hint), n + 2) && NoneEmpty(f, t, n, 2, hint)
  }

  /** What the search comes to. */
  ghost predicate Finds(f: Layout, t: seq<Block>, n: nat, hint: Word, cl: nat)
    requires ValidLayout(f) && !f.kind.Fat12?
  {
    Hits(f, t, n, After(hint), n + 2, cl) || (NoneEmpty(f, t, n, After(hint), n + 2) && Hits(f, t, n, 2, hint, cl))
  }

  /**
   The search goes astray: it begins at one of the two reserved entries and that is zero, or
   it goes on behind the last cluster because all are in use.
   */
  ghost predicate Strays(f: Layout, t: seq<Block>, n: nat, hint: Word)
    requires f.bps > 0
  {
    || (exists k :: After(hint) <= k < 2 && IsFree(f, t, k))
    || (hint > n + 2 && AllInUse(f, t, After(hint), n + 2) && AllInUse(f, t, 2, n + 2))
  }

  /** It cannot, from a cluster of the volume, or one before or after them. */
  lemma InVolume(f: Layout, t: seq<Block>, n: nat, hint: Word)
    requires f.bps > 0 && 1 <= hint <= n + 2 < WORD - 1
    ensures !Strays(f, t, n, hint)
  {
  }

  /**
   The value that stands for an unknown last cluster does: with all entries in use and a zero
   after the last one, the number after the last cluster is given.
   */
  lemma UnknownStrays(f: Layout, t: seq<Block>, n: nat)
    requires ValidLayout(f) && !f.kind.Fat12? && n + 2 < 0xFFFF_FFFF
    requires AllInUse(f, t, 0, n + 2) && Empty(f, t, n, 2, n + 2)
    ensures Strays(f, t, n, 0xFFFF_FFFF) && Finds(f, t, n, 0xFFFF_FFFF, n + 2)
  {
  }

  /** The stores for a number that is no cluster hit the sector of the last one. */
  ghost predicate WrittenBeyond(f: Layout, t: seq<Block>, n: nat, cl: nat, d: seq<Block>)
    requires ValidLayout(f) && !f.kind.Fat12?
  {
    InsideUnlessStraddling(f, cl);
    var sn := SeatSector(f, n, 2, cl);
    HasSector(f, t, sn) && d == t[sn := Packed(f, t[sn], cl, EndOfChain(f.kind))]
  }

  /** Whether what is found is a cluster of the volume, and which one. */
  lemma Outside(f: Layout, t: seq<Block>, n: nat, hint: Word, cl: nat)
    requires ValidLayout(f) && !f.kind.Fat12? && Finds(f, t, n, hint, cl)
    ensures 2 <= cl < n + 2 <==> !Strays(f, t, n, hint)
    ensures cl < n + 2 ==> NextFree(f, t, hint, cl, n)
  {
    if Hits(f, t, n, After(hint), n + 2, cl) {
      OutsideFirst(f, t, n, hint, cl);
    } else {
      OutsideSecond(f, t, n, hint, cl);
    }
  }

  lemma OutsideFirst(f: Layout, t: seq<Block>, n: nat, hint: Word, cl: nat)
    requires ValidLayout(f) && !f.kind.Fat12? && Hits(f, t, n, After(hint), n + 2, cl)
    ensures IsFree(f, t, cl) && NextFree(f, t, hint, cl, n) && (2 <= cl <==> !Strays(f, t, n, hint))
  {
    EmptyIs(f, t, n, After(hint), cl);
    assert !InUse(f, t, cl);
    if 2 <= cl { NotReserved(f, t, hint, cl); }
  }

  /** With the entries in use up to a later one, the search does not begin at a free reserved one. */
  lemma NotReserved(f: Layout, t: seq<Block>, hint: Word, cl: nat)
    requires f.bps > 0 && 2 <= cl && AllInUse(f, t, After(hint), cl)
    ensures !exists k :: After(hint) <= k < 2 && IsFree(f, t, k)
  {
    forall k | After(hint) <= k < 2
      ensures !IsFree(f, t, k)
    {
      assert InUse(f, t, k);
    }
  }

  lemma OutsideSecond(f: Layout, t: seq<Block>, n: nat, hint: Word, cl: nat)
    requires ValidLayout(f) && !f.kind.Fat12? && NoneEmpty(f, t, n, After(hint), n + 2) && Hits(f, t, n, 2, hint, cl)
    ensures 2 <= cl && (cl < n + 2 <==> !Strays(f, t, n, hint)) && (cl < n + 2 ==> NextFree(f, t, hint, cl, n))
  {
    NotReserved(f, t, hint, n + 2);
    if cl < n + 2 {
      EmptyIs(f, t, n, 2, cl);
      assert !InUse(f, t, cl);
    }
  }

  /** Both passes. */
  method Search(fs: Fat, ghost t: seq<Block>) returns (s: Scanned)
    requires fs.Valid() && !fs.layout.kind.Fat12? && fs.lastAlloc < WORD && t == fs.Table()
    modifies fs.disk`device, fs.disk`buffers, fs.disk.cache
    ensures fs.Valid() && fs.Table() == t
    ensures s.Hit? ==> Finds(fs.layout, t, fs.numClusters, fs.lastAlloc, s.cluster)
    ensures s.Hit? ==> s.sector == SeatSector(fs.layout, fs.numClusters, 2, s.cluster) && fs.Fresh(s.sector)
    ensures s.Full? ==> NoneFound(fs.layout, t, fs.numClusters, fs.lastAlloc)
  {
    s := Scan(fs, After(fs.lastAlloc), fs.numClusters + 2, t);
    if s.Full? { s := Scan(fs, 2, fs.lastAlloc, t); }
  }

  /** An end-of-chain value goes where zero has just been looked at. */
  method Claim(fs: Fat, i: nat, sn: nat, ghost t: seq<Block>)
    requires fs.Valid() && t == fs.Table() && !fs.layout.kind.Fat12?
    requires sn == SeatSector(fs.layout, fs.numClusters, 2, i) && fs.Fresh(sn)
    modifies fs, fs.disk`buffers, fs.disk.cache
    ensures fs.Valid() && fs.lastAlloc == i && fs.freeClusters == CountedDown(fs.layout.kind, old(fs.freeClusters))
    ensures if i < fs.numClusters + 2 then HasEntry(fs.layout, t, i) && fs.Table() == Written(fs.layout, t, i, EndOfChain(fs.layout.kind))
            else WrittenBeyond(fs.layout, t, fs.numClusters, i, fs.Table())
  {
    InsideUnlessStraddling(fs.layout, i);
    fs.StoreAt(sn, i, EndOfChain(fs.layout.kind));
    if i < fs.numClusters + 2 { PackedIs(fs.layout, t, i, EndOfChain(fs.layout.kind)); }
    fs.lastAlloc := i;
    fs.freeClusters := CountedDown(fs.layout.kind, fs.freeClusters);
  }

  /** What an allocation does to the map: a free cluster becomes the end of a chain, and no other entry changes. */
  lemma AllocatedEntry(f: Layout, c: seq<Block>, cl: nat, other: nat)
    requires f.bps > 0 && !f.kind.Fat12? && IsFree(f, c, cl) && HasEntry(f, c, other)
    ensures var d := Written(f, c, cl, EndOfChain(f.kind));
            && HasEntry(f, d, other)
            && Entry(f, d, other) == if other == cl then EndOfChain(f.kind) else Entry(f, c, other)
    ensures IsEof(f.kind, EndOfChain(f.kind))
  {
    if other == cl {
      ReadAfterWrite(f, c, cl, EndOfChain(f.kind));
    } else {
      OthersStay(f, c, cl, EndOfChain(f.kind), other);
    }
  }

  // ---------------------------------------------------------------- allocation on FAT12

  /** A write of an end-of-chain value leaves every entry in use that is, clobbered or misread as it may be. */
  lemma InUseStays(f: Layout, c: seq<Block>, cl: nat, k: nat)
    requires ValidLayout(f) && f.kind.Fat12? && HasEntry(f, c, cl) && (k == cl || InUse(f, c, k))
    ensures InUse(f, Written(f, c, cl, 0xFFF), k)
  {
    if k == cl {
      ReadAfterWrite(f, c, cl, 0xFFF);
    } else if Clobbers(f, cl, k) {
      MistakenClobbers(f, c, cl, 0xFFF);
    } else if Misreads(f, cl, k) {
      MistakenMisread(f, c, k, 0xFFF);
    } else {
      OthersStay(f, c, cl, 0xFFF, k);
    }
  }

  /** The table with end-of-chain values in some entries, each of which was free when its turn came. */
  ghost predicate Marked(f: Layout, c: seq<Block>, lost: seq<nat>, d: seq<Block>)
    requires f.bps > 0
  {
    if lost == [] then d == c
    else
      var n := |lost| - 1;
      exists m :: Marked(f, c, lost[..n], m) && IsFree(f, m, lost[n]) && d == Written(f, m, lost[n], 0xFFF)
  }

  /** A search that has marked `lost`, and found no free cluster from `from` to `i` that it has not. */
  ghost predicate Marking(f: Layout, n: nat, t: seq<Block>, lost: seq<nat>, d: seq<Block>)
    requires f.bps > 0
  {
    Marked(f, t, lost, d) && forall i :: 0 <= i < |lost| ==> 2 <= lost[i] < n + 2
  }

  lemma {:induction false} MarkingNext(f: Layout, n: nat, t: seq<Block>, lost: seq<nat>, d: seq<Block>, cl: nat)
    requires f.bps > 0 && Marking(f, n, t, lost, d) && IsFree(f, d, cl) && 2 <= cl < n + 2
    ensures Marking(f, n, t, lost + [cl], Written(f, d, cl, 0xFFF))
  {
    assert (lost + [cl])[..|lost|] == lost;
  }

  lemma AllInUseStays(f: Layout, c: seq<Block>, cl: nat, from: nat, end: nat)
    requires ValidLayout(f) && f.kind.Fat12? && HasEntry(f, c, cl) && AllInUse(f, c, from, end)
    ensures AllInUse(f, Written(f, c, cl, 0xFFF), from, end) && InUse(f, Written(f, c, cl, 0xFFF), cl)
  {
    InUseStays(f, c, cl, cl);
    forall k | from <= k < end
      ensures InUse(f, Written(f, c, cl, 0xFFF), k)
    {
      InUseStays(f, c, cl, k);
    }
  }

  /** One cluster: an entry that is free is marked. */
  method MarkOne(fs: Fat, i: nat, ghost t: seq<Block>, ghost d: seq<Block>, ghost lost: seq<nat>)
    returns (ok: bool, taken: bool, ghost more: seq<nat>)
    requires fs.Valid() && fs.layout.kind.Fat12? && fs.Two() && fs.disk.readWrite && 2 <= i < fs.numClusters + 2 && d == fs.Table()
    requires Marking(fs.layout, fs.numClusters, t, lost, d)
    modifies fs`lastAlloc, fs.disk`device, fs.disk`buffers, fs.disk.cache
    ensures fs.Valid() && (ok ==> HasEntry(fs.layout, d, i)) && (taken ==> ok) && (ok ==> (taken <==> IsFree(fs.layout, d, i)))
    ensures fs.Table() == (if taken then Written(fs.layout, d, i, 0xFFF) else d) && more == (if taken then lost + [i] else lost)
    ensures Marking(fs.layout, fs.numClusters, t, more, fs.Table()) && fs.lastAlloc == if taken then i else old(fs.lastAlloc)
  {
    var val;
    ok, val := fs.ReadFat(i);
    assert ok ==> val == Entry(fs.layout, d, i);
    taken, more := ok && val == 0, lost;
    if taken {
      MarkingNext(fs.layout, fs.numClusters, t, lost, d, i);
      more := Mark(fs, i, d, lost);
    }
  }

  method Mark(fs: Fat, i: nat, ghost d: seq<Block>, ghost lost: seq<nat>) returns (ghost more: seq<nat>)
    requires fs.Valid() && fs.Two() && fs.disk.readWrite && fs.AllCached(i) && i < fs.numClusters + 2 && d == fs.Table()
    modifies fs`lastAlloc, fs.disk`device, fs.disk`buffers, fs.disk.cache
    ensures fs.Valid() && HasEntry(fs.layout, d, i) && fs.Table() == Written(fs.layout, d, i, 0xFFF)
    ensures fs.lastAlloc == i && more == lost + [i]
  {
    var written := fs.WriteFat(i, 0xFFF);
    fs.lastAlloc := i;
    more := lost + [i];
  }

  /** The loop after the last cluster allocated. */
  method MarkAfter(fs: Fat, ghost t: seq<Block>) returns (ok: bool, ghost lost: seq<nat>)
    requires fs.Valid() && fs.layout.kind.Fat12? && fs.Two() && fs.disk.readWrite && 1 <= fs.lastAlloc <= fs.numClusters + 1 && t == fs.Table()
    modifies fs`lastAlloc, fs.disk`device, fs.disk`buffers, fs.disk.cache
    ensures fs.Valid() && 1 <= fs.lastAlloc <= fs.numClusters + 1 && Marking(fs.layout, fs.numClusters, t, lost, fs.Table())
    ensures ok ==> AllInUse(fs.layout, fs.Table(), old(fs.lastAlloc) + 1, fs.numClusters + 2)
    ensures lost == [] ==> fs.lastAlloc == old(fs.lastAlloc)
  {
    ok, lost := true, [];
    ghost var h := fs.lastAlloc;
    var i := fs.lastAlloc + 1;
    while ok && i < fs.numClusters + 2
      invariant fs.Valid() && 1 <= fs.lastAlloc <= fs.numClusters + 1 && h < i <= fs.numClusters + 2
      invariant Marking(fs.layout, fs.numClusters, t, lost, fs.Table())
      invariant AllInUse(fs.layout, fs.Table(), h + 1, i) && (lost == [] ==> fs.lastAlloc == h)
      decreases ok, fs.numClusters + 2 - i
    {
      var taken;
      ghost var d := fs.Table();
      ok, taken, lost := MarkOne(fs, i, t, d, lost);
      if taken { AllInUseStays(fs.layout, d, i, h + 1, i); }
      if ok {
        OneMoreInUse(fs.layout, fs.Table(), h + 1, i);
        i := i + 1;
      }
    }
  }

  /** The loop up to it, which the first cluster marked ends. */
  method MarkFirst(fs: Fat, ghost from: nat, ghost t: seq<Block>, ghost lost: seq<nat>) returns (ok: bool, ghost more: seq<nat>)
    requires fs.Valid() && fs.layout.kind.Fat12? && fs.Two() && fs.disk.readWrite && 1 <= fs.lastAlloc <= fs.numClusters + 1
    requires Marking(fs.layout, fs.numClusters, t, lost, fs.Table()) && AllInUse(fs.layout, fs.Table(), from, fs.numClusters + 2)
    modifies fs`lastAlloc, fs.disk`device, fs.disk`buffers, fs.disk.cache
    ensures fs.Valid() && 1 <= fs.lastAlloc <= fs.numClusters + 1 && Marking(fs.layout, fs.numClusters, t, more, fs.Table())
    ensures AllInUse(fs.layout, fs.Table(), from, fs.numClusters + 2) && lost <= more
    ensures ok && more == lost ==> fs.Table() == old(fs.Table()) && AllInUse(fs.layout, fs.Table(), 2, fs.lastAlloc + 1) && fs.lastAlloc == old(fs.lastAlloc)
  {
    ok, more := true, lost;
    var i, taken := 2, false;
    ghost var d := fs.Table();
    while ok && i < fs.lastAlloc + 1
      invariant fs.Valid() && 1 <= fs.lastAlloc <= fs.numClusters + 1 && Marking(fs.layout, fs.numClusters, t, more, fs.Table())
      invariant AllInUse(fs.layout, fs.Table(), from, fs.numClusters + 2)
      invariant if taken then i == fs.lastAlloc + 1 && lost < more else more == lost && fs.Table() == d && fs.lastAlloc == old(fs.lastAlloc)
      invariant !taken ==> 2 <= i && (i <= fs.lastAlloc + 1 || i == 2) && AllInUse(fs.layout, d, 2, i)
      decreases ok, fs.numClusters + 2 - i
    {
      ok, taken, more := MarkOne(fs, i, t, d, more);
      if taken { AllInUseStays(fs.layout, d, i, from, fs.numClusters + 2); }
      if ok {
        if !taken { OneMoreInUse(fs.layout, d, 2, i); }
        i := i + 1;
      }
    }
  }

  /**
   fat_allocate_cluster on FAT12: neither loop returns the cluster that it finds.  The first
   one marks every free cluster after the last one allocated, the second one the first before
   it; and then there is no space, however many clusters were free.
   */
  method AllocateOn12(fs: Fat, ghost t: seq<Block>) returns (r: Allocated, ghost lost: seq<nat>)
    requires fs.Valid() && fs.layout.kind.Fat12? && fs.Two() && 1 <= fs.lastAlloc <= fs.numClusters + 1 && t == fs.Table()
    modifies fs`lastAlloc, fs.disk`device, fs.disk`buffers, fs.disk.cache
    ensures fs.Valid() && 1 <= fs.lastAlloc <= fs.numClusters + 1
    ensures !r.Got? && (r.ReadOnly? <==> !fs.disk.readWrite) && (r.ReadOnly? ==> lost == [])
    ensures Marking(fs.layout, fs.numClusters, t, lost, fs.Table())
    ensures r.NoSpace? ==> AllInUse(fs.layout, fs.Table(), old(fs.lastAlloc) + 1, fs.numClusters + 2)
    ensures r.NoSpace? ==> (lost == [] <==> AllInUse(fs.layout, t, 2, fs.numClusters + 2))
  {
    lost := [];
    if !fs.disk.readWrite { return ReadOnly, lost; }
    var ok;
    ok, lost := MarkBoth(fs, t);
    r := if ok then NoSpace else IoError;
  }

  /** Both loops. */
  method MarkBoth(fs: Fat, ghost t: seq<Block>) returns (ok: bool, ghost lost: seq<nat>)
    requires fs.Valid() && fs.layout.kind.Fat12? && fs.Two() && fs.disk.readWrite && 1 <= fs.lastAlloc <= fs.numClusters + 1 && t == fs.Table()
    modifies fs`lastAlloc, fs.disk`device, fs.disk`buffers, fs.disk.cache
    ensures fs.Valid() && 1 <= fs.lastAlloc <= fs.numClusters + 1 && Marking(fs.layout, fs.numClusters, t, lost, fs.Table())
    ensures ok ==> AllInUse(fs.layout, fs.Table(), old(fs.lastAlloc) + 1, fs.numClusters + 2)
    ensures ok ==> (lost == [] <==> AllInUse(fs.layout, t, 2, fs.numClusters + 2))
  {
    ghost var h := fs.lastAlloc;
    ok, lost := MarkAfter(fs, t);
    if !ok { return; }
    ghost var before := lost;
    ok, lost := MarkFirst(fs, h + 1, t, before);
    if ok { LostIff(fs.layout, fs.numClusters, t, lost, fs.Table(), h); }
  }

  /** Something is lost just when something was free. */
  lemma {:induction false} LostIff(f: Layout, n: nat, t: seq<Block>, lost: seq<nat>, d: seq<Block>, h: nat)
    requires f.bps > 0 && Marking(f, n, t, lost, d) && AllInUse(f, d, h + 1, n + 2) && (lost == [] ==> AllInUse(f, d, 2, h + 1))
    ensures lost == [] <==> AllInUse(f, t, 2, n + 2)
  {
    if lost == [] {
      assert d == t;
    } else {
      FirstLost(f, n, t, lost, d);
      assert !InUse(f, t, lost[0]);
    }
  }

  /** The first cluster lost was free. */
  lemma {:induction false} FirstLost(f: Layout, n: nat, t: seq<Block>, lost: seq<nat>, d: seq<Block>)
    requires f.bps > 0 && Marking(f, n, t, lost, d) && lost != []
    ensures IsFree(f, t, lost[0]) && 2 <= lost[0] < n + 2
  {
    var k := |lost| - 1;
    var m :| Marked(f, t, lost[..k], m) && IsFree(f, m, lost[k]) && d == Written(f, m, lost[k], 0xFFF);
    if k > 0 {
      assert forall i :: 0 <= i < k ==> lost[..k][i] == lost[i];
      FirstLost(f, n, t, lost[..k], m);
    }
  }

  // ---------------------------------------------------------------- erasure

  /**
   The chain of clusters from `start`: each in range and with no reserved bits in its entry,
   which is the next one, up to an end-of-chain value.
   */
  ghost predicate IsChain(f: Layout, c: seq<Block>, chain: seq<nat>, start: nat, n: nat)
    requires f.bps > 0
  {
    if chain == [] then IsEof(f.kind, start)
    else
      && chain[0] == start && !IsEof(f.kind, start) && 2 <= start < n + 2
      && InUse(f, c, start) && Entry(f, c, start) < 0x1000_0000
      && IsChain(f, c, chain[1..], Entry(f, c, start), n)
  }

  ghost predicate Acyclic(chain: seq<nat>)
  {
    forall i, j :: 0 <= i < j < |chain| ==> chain[i] != chain[j]
  }

  /** A write of one entry leaves the other alone. */
  predicate Independent(f: Layout, cl: nat, other: nat)
    requires f.bps > 0
  {
    cl != other && !Clobbers(f, cl, other) && !Misreads(f, cl, other)
  }

  /** The clusters are different, and none gets in the way of another, as a mistaken one would. */
  ghost predicate Undisturbed(f: Layout, chain: seq<nat>)
    requires f.bps > 0
  {
    forall i, j :: 0 <= i < |chain| && 0 <= j < |chain| && i != j ==> Independent(f, chain[i], chain[j])
  }

  /** On FAT16 and FAT32 it is enough that they are different. */
  lemma UndisturbedIs(f: Layout, chain: seq<nat>)
    requires f.bps > 0 && !f.kind.Fat12? && Acyclic(chain)
    ensures Undisturbed(f, chain)
  {
  }

  /** A write outside a chain leaves it one. */
  lemma {:induction false} ChainStays(f: Layout, c: seq<Block>, cl: nat, v: nat, chain: seq<nat>, start: nat, n: nat)
    requires f.bps > 0 && HasEntry(f, c, cl) && IsChain(f, c, chain, start, n)
    requires forall k :: 0 <= k < |chain| ==> Independent(f, cl, chain[k])
    ensures IsChain(f, Written(f, c, cl, v), chain, start, n)
  {
    if chain != [] {
      OthersStay(f, c, cl, v, start);
      ChainStays(f, c, cl, v, chain[1..], Entry(f, c, start), n);
    }
  }

  /** All the clusters of a chain are there. */
  ghost predicate AllThere(f: Layout, c: seq<Block>, chain: seq<nat>)
    requires f.bps > 0
  {
    forall k :: 0 <= k < |chain| ==> HasEntry(f, c, chain[k])
  }

  /** The table with the clusters of a chain set free, one after another. */
  ghost function Freed(f: Layout, c: seq<Block>, chain: seq<nat>): (r: seq<Block>)
    requires f.bps > 0 && AllThere(f, c, chain)
    ensures |r| == |c| && forall k :: 0 <= k < |c| ==> |r[k]| == |c[k]|
  {
    if chain == [] then c
    else
      var n := |chain| - 1;
      var r := Freed(f, c, chain[..n]);
      HasEntryStays(f, c, r, chain[n]);
      Written(f, r, chain[n], 0)
  }

  /** What erasing does to the map: the clusters of the chain become free, and no other entry changes. */
  lemma {:induction false} FreedEntry(f: Layout, c: seq<Block>, chain: seq<nat>, cl: nat)
    requires f.bps > 0 && AllThere(f, c, chain) && Undisturbed(f, chain) && HasEntry(f, c, cl)
    requires forall k :: 0 <= k < |chain| ==> Entry(f, c, chain[k]) < 0x1000_0000 && (cl == chain[k] || Independent(f, chain[k], cl))
    ensures HasEntry(f, Freed(f, c, chain), cl)
    ensures Entry(f, Freed(f, c, chain), cl) == if cl in chain then 0 else Entry(f, c, cl)
  {
    HasEntryStays(f, c, Freed(f, c, chain), cl);
    if chain != [] {
      var n := |chain| - 1;
      var front, last := chain[..n], chain[n];
      FreedEntry(f, c, front, cl);
      var before := Entry(f, Freed(f, c, front), cl);
      assert cl in chain <==> cl in front || cl == last;
      FreedOne(f, c, Freed(f, c, front), last, cl, before);
    }
  }

  lemma FreedOne(f: Layout, c: seq<Block>, r: seq<Block>, last: nat, cl: nat, before: nat)
    requires f.bps > 0 && |r| == |c| && (forall k :: 0 <= k < |c| ==> |r[k]| == |c[k]|) && (cl == last || Independent(f, last, cl))
    requires HasEntry(f, c, last) && HasEntry(f, r, cl) && before == Entry(f, r, cl) && (cl == last ==> before < 0x1000_0000)
    ensures HasEntry(f, r, last) && HasEntry(f, Written(f, r, last, 0), cl)
    ensures Entry(f, Written(f, r, last, 0), cl) == if cl == last then 0 else before
  {
    HasEntryStays(f, c, r, last);
    if cl == last {
      ReadAfterWrite(f, r, cl, 0);
      HeldZero(f, before);
    } else {
      OthersStay(f, r, last, 0, cl);
    }
  }

  /** An entry without reserved bits is zero after a write of zero. */
  lemma HeldZero(f: Layout, before: nat)
    requires before < 0x1000_0000
    ensures Held(f, 0, before) == 0
  {
  }

  lemma {:induction false} ChainInUse(f: Layout, c: seq<Block>, chain: seq<nat>, start: nat, n: nat)
    requires f.bps > 0 && IsChain(f, c, chain, start, n)
    ensures AllThere(f, c, chain)
    ensures forall k :: 0 <= k < |chain| ==> 2 <= chain[k] < n + 2 && InUse(f, c, chain[k]) && Entry(f, c, chain[k]) < 0x1000_0000
  {
    if chain != [] {
      ChainInUse(f, c, chain[1..], Entry(f, c, start), n);
      assert forall k :: 0 < k < |chain| ==> chain[k] == chain[1..][k - 1];
    }
  }

  /** One turn of the erasing loop: false when the entry cannot be read. */
  method EraseOne(fs: Fat, cluster: nat, ghost t: seq<Block>) returns (ok: bool, next: nat)
    requires fs.Valid() && t == fs.Table() && fs.disk.readWrite && cluster < fs.numClusters + 2
    requires fs.Two() || !Straddles(fs.layout, cluster)
    modifies fs`freeClusters, fs.disk`device, fs.disk`buffers, fs.disk.cache
    ensures fs.Valid()
    ensures !ok ==> fs.Table() == t && next == cluster && fs.freeClusters == old(fs.freeClusters)
    ensures ok ==> HasEntry(fs.layout, t, cluster) && next == Entry(fs.layout, t, cluster) != INVALID_CLUSTER
    ensures ok ==> fs.Table() == Written(fs.layout, t, cluster, 0) && fs.freeClusters == Ahead(old(fs.freeClusters), 1)
  {
    ok, next := fs.ReadFat(cluster);
    ok := ok && next != INVALID_CLUSTER;
    if ok {
      var written := fs.WriteFat(cluster, 0);
      fs.freeClusters := Ahead(fs.freeClusters, 1);
    } else {
      next := cluster;
    }
  }

  /** How far an erasure has got: the first `k` clusters of the chain are free in `t`. */
  datatype Erasing = Erasing(f: Layout, c: seq<Block>, chain: seq<nat>, n: nat, k: nat, t: seq<Block>, cluster: nat)

  /** The chain was one in `c`, and what is left of it in `t` still is one, from `cluster`. */
  ghost predicate OnCourse(e: Erasing)
  {
    && e.f.bps > 0 && AllThere(e.f, e.c, e.chain) && Undisturbed(e.f, e.chain)
    && e.k <= |e.chain| && e.t == Freed(e.f, e.c, e.chain[..e.k])
    && IsChain(e.f, e.t, e.chain[e.k..], e.cluster, e.n)
  }

  type Erasure = e: Erasing | OnCourse(e) ghost witness Erasing(Layout(Fat16, 0, 4), [], [], 0, 0, [], 0xFFF8)

  /** A cluster of the chain, before it is freed. */
  lemma OnwardFrom(e: Erasure)
    requires !IsEof(e.f.kind, e.cluster)
    ensures e.k < |e.chain| && e.cluster == e.chain[e.k] < e.n + 2
    ensures InUse(e.f, e.t, e.cluster) && Entry(e.f, e.t, e.cluster) < 0x1000_0000
    ensures e.chain[..e.k + 1][..e.k] == e.chain[..e.k]
    ensures IsChain(e.f, Written(e.f, e.t, e.cluster, 0), e.chain[e.k + 1..], Entry(e.f, e.t, e.cluster), e.n)
  {
    ChainHead(e.f, e.t, e.chain, e.k, e.cluster, e.n);
    ChainStays(e.f, e.t, e.cluster, 0, e.chain[e.k + 1..], Entry(e.f, e.t, e.cluster), e.n);
  }

  lemma ChainHead(f: Layout, t: seq<Block>, chain: seq<nat>, k: nat, cluster: nat, n: nat)
    requires f.bps > 0 && k <= |chain| && IsChain(f, t, chain[k..], cluster, n) && !IsEof(f.kind, cluster)
    ensures k < |chain| && cluster == chain[k] < n + 2 && InUse(f, t, cluster) && Entry(f, t, cluster) < 0x1000_0000
    ensures IsChain(f, t, chain[k + 1..], Entry(f, t, cluster), n) && chain[..k + 1][..k] == chain[..k]
  {
    assert chain[k..] != [];
    assert chain[k..][1..] == chain[k + 1..] && chain[k..][0] == chain[k];
  }

  /** The next cluster becomes free. */
  ghost function Onward(e: Erasure): (r: Erasure)
    requires !IsEof(e.f.kind, e.cluster)
    ensures e.k < |e.chain| && e.cluster == e.chain[e.k] < e.n + 2
    ensures InUse(e.f, e.t, e.cluster) && Entry(e.f, e.t, e.cluster) < 0x1000_0000
    ensures r == e.(k := e.k + 1, t := Written(e.f, e.t, e.cluster, 0), cluster := Entry(e.f, e.t, e.cluster))
  {
    OnwardFrom(e);
    e.(k := e.k + 1, t := Written(e.f, e.t, e.cluster, 0), cluster := Entry(e.f, e.t, e.cluster))
  }

  lemma CountsOn(n: Word, k: nat)
    ensures Ahead(n, 0) == n && Ahead(Ahead(n, k), 1) == Ahead(n, k + 1)
  {
  }

  /** No entry of the chain needs more sectors in the cache than it can hold. */
  ghost predicate Fitting(fs: Fat, chain: seq<nat>)
    requires fs.layout.bps > 0
  {
    fs.Two() || forall k :: 0 <= k < |chain| ==> !Straddles(fs.layout, chain[k])
  }

  /**
   fat_erase_chain, from the start of a chain of undisturbed clusters.  A failed read stops it
   with the clusters before it free.  The write cannot fail, since the read has just brought
   the sectors in.
   */
  method EraseChain(fs: Fat, start: nat, ghost c: seq<Block>, ghost chain: seq<nat>) returns (ok: bool, ghost done: nat)
    requires fs.Valid() && c == fs.Table() && IsChain(fs.layout, c, chain, start, fs.numClusters)
    requires Undisturbed(fs.layout, chain) && Fitting(fs, chain)
    modifies fs`freeClusters, fs.disk`device, fs.disk`buffers, fs.disk.cache
    ensures fs.Valid() && done <= |chain| && AllThere(fs.layout, c, chain)
    ensures fs.Table() == Freed(fs.layout, c, chain[..done])
    ensures fs.freeClusters == Ahead(old(fs.freeClusters), done)
    ensures ok ==> fs.disk.readWrite && done == |chain|
    ensures !fs.disk.readWrite ==> done == 0
  {
    ok, done := fs.disk.readWrite, 0;
    CountsOn(fs.freeClusters, 0);
    ChainInUse(fs.layout, c, chain, start, fs.numClusters);
    assert chain[0..] == chain;
    if ok {
      ghost var e;
      ok, e := EraseFrom(fs, start, Erasing(fs.layout, c, chain, fs.numClusters, 0, c, start));
      done := e.k;
    }
  }

  method EraseFrom(fs: Fat, start: nat, ghost begin: Erasure) returns (ok: bool, ghost e: Erasure)
    requires fs.Valid() && fs.disk.readWrite && begin.k == 0
    requires begin.f == fs.layout && begin.n == fs.numClusters && begin.t == fs.Table() && begin.cluster == start
    requires Fitting(fs, begin.chain)
    modifies fs`freeClusters, fs.disk`device, fs.disk`buffers, fs.disk.cache
    ensures fs.Valid() && fs.Table() == e.t && e.chain == begin.chain && e.c == begin.c && e.f == begin.f
    ensures fs.freeClusters == Ahead(old(fs.freeClusters), e.k)
    ensures ok ==> IsEof(e.f.kind, e.cluster)
  {
    ok, e := true, begin;
    var cluster := start;
    ghost var free := fs.freeClusters;
    CountsOn(free, 0);
    while ok && !IsEof(fs.layout.kind, cluster)
      invariant fs.Valid() && fs.disk.readWrite && fs.freeClusters == Ahead(free, e.k)
      invariant e == begin.(k := e.k, t := fs.Table(), cluster := cluster)
      decreases ok, |e.chain| - e.k
    {
      ok, cluster, e := EraseTurn(fs, cluster, e, free);
    }
  }

  method EraseTurn(fs: Fat, cluster: nat, ghost e: Erasure, ghost free: Word) returns (ok: bool, next: nat, ghost e': Erasure)
    requires fs.Valid() && fs.disk.readWrite && fs.freeClusters == Ahead(free, e.k) && !IsEof(fs.layout.kind, cluster)
    requires e.f == fs.layout && e.n == fs.numClusters && e.t == fs.Table() && e.cluster == cluster && Fitting(fs, e.chain)
    modifies fs`freeClusters, fs.disk`device, fs.disk`buffers, fs.disk.cache
    ensures fs.Valid() && fs.freeClusters == Ahead(free, e'.k) && e.k <= e'.k
    ensures e' == e.(k := e'.k, t := fs.Table(), cluster := next) && (ok ==> e.k < e'.k)
  {
    ghost var r := Onward(e);
    CountsOn(free, e.k);
    ok, next := EraseOne(fs, cluster, e.t);
    e' := if ok then r else e;
  }

  // ---------------------------------------------------------------- the count of free clusters

  ghost predicate Whole(f: Layout, c: seq<Block>, n: nat)
    requires f.bps > 0
  {
    forall k :: 2 <= k < n + 2 ==> HasEntry(f, c, k)
  }

  /** The values of the `n` clusters. */
  ghost function Values(f: Layout, c: seq<Block>, n: nat): (r: seq<nat>)
    requires f.bps > 0 && Whole(f, c, n)
    ensures |r| == n && forall k :: 2 <= k < n + 2 ==> r[k - 2] == Entry(f, c, k)
  {
    seq(n, k requires 0 <= k < n => Entry(f, c, k + 2))
  }

  function Zeros(s: seq<nat>): (r: nat)
  {
    if s == [] then 0 else Zeros(s[..|s| - 1]) + if s[|s| - 1] == 0 then 1 else 0
  }

  lemma {:induction false} ZerosUpdate(s: seq<nat>, i: nat, x: nat)
    requires i < |s|
    ensures Zeros(s[i := x]) == Zeros(s) + (if x == 0 then 1 else 0) - (if s[i] == 0 then 1 else 0)
  {
    var n, t := |s| - 1, s[i := x];
    if i < n {
      assert t[..n] == s[..n][i := x];
      ZerosUpdate(s[..n], i, x);
    } else {
      assert t[..n] == s[..n];
    }
  }

  /** How many of the `n` clusters are free. */
  ghost function FreeCount(f: Layout, c: seq<Block>, n: nat): (r: nat)
    requires f.bps > 0 && Whole(f, c, n)
  {
    Zeros(Values(f, c, n))
  }

  lemma WrittenCount(f: Layout, c: seq<Block>, cl: nat, v: nat, n: nat)
    requires f.bps > 0 && !f.kind.Fat12? && Whole(f, c, n) && 2 <= cl < n + 2
    ensures var d := Written(f, c, cl, v);
            Whole(f, d, n) && Values(f, d, n) == Values(f, c, n)[cl - 2 := Entry(f, d, cl)]
    ensures var d := Written(f, c, cl, v);
            FreeCount(f, d, n)
            == FreeCount(f, c, n) + (if Entry(f, d, cl) == 0 then 1 else 0) - (if Entry(f, c, cl) == 0 then 1 else 0)
  {
    var d := Written(f, c, cl, v);
    forall k | 2 <= k < n + 2
      ensures HasEntry(f, d, k)
      ensures k != cl ==> Entry(f, d, k) == Entry(f, c, k)
    {
      if k == cl { HasEntryStays(f, c, d, cl); } else { OthersStay(f, c, cl, v, k); }
    }
    assert Values(f, d, n) == Values(f, c, n)[cl - 2 := Entry(f, d, cl)];
    ZerosUpdate(Values(f, c, n), cl - 2, Entry(f, d, cl));
  }

  lemma CountsDown(k: Kind, n: Word)
    requires k.Fat32? && n > 0
    ensures CountedDown(k, n) == n - 1
  {
  }

  /** An allocation on FAT32 keeps the superblock's count true. */
  lemma AllocationCounted(f: Layout, c: seq<Block>, cl: nat, n: nat, free: Word)
    requires f.bps > 0 && f.kind.Fat32? && Whole(f, c, n) && 2 <= cl < n + 2 && IsFree(f, c, cl) && free == FreeCount(f, c, n)
    ensures var d := Written(f, c, cl, EndOfChain(f.kind));
            Whole(f, d, n) && CountedDown(f.kind, free) == FreeCount(f, d, n)
  {
    var v := EndOfChain(f.kind);
    WrittenCount(f, c, cl, v, n);
    AllocatedEntry(f, c, cl, cl);
    CountsDown(f.kind, free);
  }

  lemma FreeingCounted(f: Layout, c: seq<Block>, cl: nat, n: nat)
    requires f.bps > 0 && !f.kind.Fat12? && Whole(f, c, n) && 2 <= cl < n + 2
    requires 0 < Entry(f, c, cl) < 0x1000_0000
    ensures Whole(f, Written(f, c, cl, 0), n) && FreeCount(f, Written(f, c, cl, 0), n) == FreeCount(f, c, n) + 1
  {
    var d := Written(f, c, cl, 0);
    WrittenCount(f, c, cl, 0, n);
    ReadAfterWrite(f, c, cl, 0);
    HeldZero(f, Entry(f, c, cl));
    assert Entry(f, d, cl) == 0;
  }

  lemma OneCounted(f: Layout, c: seq<Block>, front: seq<nat>, cl: nat, n: nat)
    requires f.bps > 0 && !f.kind.Fat12? && HasEntry(f, c, cl) && Acyclic(front) && AllThere(f, c, front) && 2 <= cl < n + 2
    requires forall i :: 0 <= i < |front| ==> Entry(f, c, front[i]) < 0x1000_0000
    requires cl !in front && 0 < Entry(f, c, cl) < 0x1000_0000 && Whole(f, Freed(f, c, front), n)
    ensures HasEntry(f, Freed(f, c, front), cl)
    ensures var r := Freed(f, c, front);
            Whole(f, Written(f, r, cl, 0), n) && FreeCount(f, Written(f, r, cl, 0), n) == FreeCount(f, r, n) + 1
  {
    UndisturbedIs(f, front);
    FreedEntry(f, c, front, cl);
    FreeingCounted(f, Freed(f, c, front), cl, n);
  }

  /** Erasing a chain keeps it true too: each of its clusters is counted once. */
  lemma {:induction false} ErasureCounted(f: Layout, c: seq<Block>, chain: seq<nat>, n: nat, k: nat)
    requires f.bps > 0 && !f.kind.Fat12? && Whole(f, c, n) && Acyclic(chain) && AllThere(f, c, chain) && k <= |chain|
    requires forall i :: 0 <= i < |chain| ==> 2 <= chain[i] < n + 2 && 0 < Entry(f, c, chain[i]) < 0x1000_0000
    ensures var d := Freed(f, c, chain[..k]);
            Whole(f, d, n) && FreeCount(f, d, n) == FreeCount(f, c, n) + k
  {
    if k > 0 {
      ErasureCounted(f, c, chain, n, k - 1);
      assert chain[..k][..k - 1] == chain[..k - 1];
      OneCounted(f, c, chain[..k - 1], chain[k - 1], n);
    }
  }

  // ---------------------------------------------------------------- runs, and how the count drifts

  /** The table of a FAT16 or FAT32 volume with `n` clusters. */
  datatype Map = Map(f: Layout, c: seq<Block>, n: nat)

  type FatMap = m: Map | m.f.bps > 0 && !m.f.kind.Fat12? && Whole(m.f, m.c, m.n) ghost witness Map(Layout(Fat16, 0, 4), [], 0)

  ghost function Free(m: FatMap): (r: nat)
  {
    FreeCount(m.f, m.c, m.n)
  }

  /** A cluster is allocated, or a chain erased. */
  datatype Change = Allocate(cluster: nat) | Erase(chain: seq<nat>)

  /** A change that the allocator or an erasure could make. */
  ghost predicate Fits(m: FatMap, change: Change)
  {
    match change
    case Allocate(cl) => 2 <= cl < m.n + 2 && IsFree(m.f, m.c, cl)
    case Erase(chain) =>
      Acyclic(chain) && AllThere(m.f, m.c, chain)
      && forall i :: 0 <= i < |chain| ==> 2 <= chain[i] < m.n + 2 && 0 < Entry(m.f, m.c, chain[i]) < 0x1000_0000
  }

  ghost function AfterAllocation(m: FatMap, cl: nat): (r: FatMap)
    requires Fits(m, Allocate(cl))
    ensures r == Map(m.f, Written(m.f, m.c, cl, EndOfChain(m.f.kind)), m.n) && Free(m) == Free(r) + 1
  {
    WrittenCount(m.f, m.c, cl, EndOfChain(m.f.kind), m.n);
    AllocatedEntry(m.f, m.c, cl, cl);
    Map(m.f, Written(m.f, m.c, cl, EndOfChain(m.f.kind)), m.n)
  }

  ghost function AfterErasure(m: FatMap, chain: seq<nat>): (r: FatMap)
    requires Fits(m, Erase(chain))
    ensures r == Map(m.f, Freed(m.f, m.c, chain), m.n) && Free(r) == Free(m) + |chain|
  {
    ErasureCounted(m.f, m.c, chain, m.n, |chain|);
    assert chain[..|chain|] == chain;
    Map(m.f, Freed(m.f, m.c, chain), m.n)
  }

  /** The table after one change. */
  ghost function Changed(m: FatMap, change: Change): (r: FatMap)
    requires Fits(m, change)
    ensures r.f == m.f
  {
    if change.Allocate? then AfterAllocation(m, change.cluster) else AfterErasure(m, change.chain)
  }

  /** What the superblock counts after one. */
  function CountAfter(k: Kind, free: Word, change: Change): (r: Word)
  {
    match change
    case Allocate(_) => CountedDown(k, free)
    case Erase(chain) => Ahead(free, |chain|)
  }

  /** A volume, its count of free clusters, and how many allocations there have been. */
  datatype Volume = Volume(m: FatMap, count: Word, allocations: nat)

  ghost predicate Follows(v: Volume, change: Change, w: Volume)
  {
    && Fits(v.m, change) && w.m == Changed(v.m, change) && w.count == CountAfter(v.m.f.kind, v.count, change)
    && w.allocations == v.allocations + if change.Allocate? then 1 else 0
  }

  /** A run from a volume whose count is right. */
  ghost predicate IsRun(vs: seq<Volume>, changes: seq<Change>)
  {
    && |vs| == |changes| + 1 && vs[0].count == Free(vs[0].m) && vs[0].allocations == 0
    && forall i :: 0 <= i < |changes| ==> Follows(vs[i], changes[i], vs[i + 1])
  }

  /** How far the count is ahead of the number of free clusters: on FAT16 by one for each allocation. */
  function Drift(k: Kind, allocations: nat): (n: nat)
  {
    if k.Fat16? then allocations else 0
  }

  /** A number as 32 bits hold it. */
  function Wrap(x: nat): (r: Word)
  {
    if x < WORD then x else Wrap(x - WORD)
  }

  lemma {:induction false} WrapIs(x: nat)
    ensures Wrap(x) == x % WORD
  {
    if x >= WORD {
      WrapIs(x - WORD);
      assert x % WORD == (x - WORD) % WORD;
    }
  }

  lemma WrapLess(k: Kind, x: nat, y: nat)
    requires x > 0 && y == if k.Fat32? then x - 1 else x
    ensures CountedDown(k, Wrap(x)) == Wrap(y)
  {
    WrapIs(x);
    WrapIs(y);
  }

  lemma WrapMore(x: nat, k: nat, y: nat)
    requires y == x + k
    ensures Ahead(Wrap(x), k) == Wrap(y)
  {
    WrapIs(x);
    WrapIs(y);
    var q := x / WORD;
    assert y == WORD * q + (x % WORD + k);
  }

  /** The count is the number of free clusters, but for the drift. */
  ghost predicate Drifted(v: Volume)
  {
    v.count == Wrap(Free(v.m) + Drift(v.m.f.kind, v.allocations))
  }

  lemma DriftStep(v: Volume, change: Change, w: Volume)
    requires Follows(v, change, w) && Drifted(v)
    ensures Drifted(w)
  {
    var k := Counted(v, change, w);
    DriftOn(k, Free(v.m), Free(w.m), v.allocations, change);
  }

  lemma Counted(v: Volume, change: Change, w: Volume) returns (k: Kind)
    requires Follows(v, change, w) && Drifted(v)
    ensures k == v.m.f.kind == w.m.f.kind && !k.Fat12?
    ensures if change.Allocate? then Free(v.m) == Free(w.m) + 1 else Free(w.m) == Free(v.m) + |change.chain|
    ensures w.count == CountAfter(k, Wrap(Free(v.m) + Drift(k, v.allocations)), change)
    ensures w.allocations == v.allocations + if change.Allocate? then 1 else 0
  {
    k := v.m.f.kind;
    ChangedFree(v.m, change);
  }

  /** What a change does to the number of free clusters. */
  lemma ChangedFree(m: FatMap, change: Change)
    requires Fits(m, change)
    ensures change.Allocate? ==> Free(m) == Free(Changed(m, change)) + 1
    ensures change.Erase? ==> Free(Changed(m, change)) == Free(m) + |change.chain|
  {
  }

  lemma DriftOn(k: Kind, free: nat, free': nat, allocations: nat, change: Change)
    requires !k.Fat12? && if change.Allocate? then free == free' + 1 else free' == free + |change.chain|
    ensures CountAfter(k, Wrap(free + Drift(k, allocations)), change)
            == Wrap(free' + Drift(k, allocations + if change.Allocate? then 1 else 0))
  {
    if change.Allocate? {
      WrapLess(k, free + Drift(k, allocations), free' + Drift(k, allocations + 1));
    } else {
      WrapMore(free + Drift(k, allocations), |change.chain|, free' + Drift(k, allocations));
    }
  }

  /**
   Over any run of allocations and erasures, the superblock's count is the number of free
   clusters on FAT32; on FAT16, where only erasing counts, it is ahead by the number of
   allocations.
   */
  lemma {:induction false} CountDrifts(vs: seq<Volume>, changes: seq<Change>, i: nat)
    requires IsRun(vs, changes) && i <= |changes|
    ensures Drifted(vs[i])
  {
    if i == 0 {
      WrapIs(Free(vs[0].m));
    } else {
      CountDrifts(vs, changes, i - 1);
      DriftStep(vs[i - 1], changes[i - 1], vs[i]);
    }
  }
}
