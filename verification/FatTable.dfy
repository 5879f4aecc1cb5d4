/**
 The FAT of libkosfat over its sector cache: `fat_read_fat` and `fat_write_fat`.  The table's
 cache has its own number of entries, but fat.c's make_mru goes by the size of the other cache
 of the mount; the two need not be equal.
 */
module FatTable {
  import opened Basics
  import opened BlockCache
  import opened FatEntries

  /** A 32-bit count. */
  type Word = n: int | 0 <= n < WORD

  // ---------------------------------------------------------------- one sector

  /** An entry within one sector. */
  predicate Inside(f: Layout, cl: nat)
    requires f.bps > 0
  {
    Position(f, cl) % f.bps + Width(f) <= f.bps
  }

  lemma InsideUnlessStraddling(f: Layout, cl: nat)
    requires ValidLayout(f)
    ensures Inside(f, cl) <==> !Straddles(f, cl)
  {
    if !f.kind.Fat12? { Aligned(f, Position(f, cl), Width(f)); }
  }

  /** The value of an entry, from the bytes of its sector. */
  function Unpacked(f: Layout, blk: Block, cl: nat): (val: nat)
    requires f.bps > 0 && Inside(f, cl) && |blk| == f.bps
  {
    var off := Position(f, cl) % f.bps;
    var low := blk[off] as nat + 256 * blk[off + 1] as nat;
    match f.kind
    case Fat12 => if cl % 2 == 1 then low / 16 else low % 4096
    case Fat16 => low
    case Fat32 => low + 65536 * blk[off + 2] as nat + 16777216 * blk[off + 3] as nat
  }

  /** The sector of an entry after the stores of a value. */
  function Packed(f: Layout, blk: Block, cl: nat, v: nat): (r: Block)
    requires f.bps > 0 && Inside(f, cl) && |blk| == f.bps
    ensures |r| == |blk|
  {
    var off := Position(f, cl) % f.bps;
    match f.kind
    case Fat12 =>
      if cl % 2 == 1 then SetByte(SetByte(blk, off, UnderHigh(blk[off], v)), off + 1, v / 16 % 256)
      else SetByte(SetByte(blk, off + 1, AboveLow(blk[off + 1], v / 256)), off, v % 256)
    case Fat16 => SetByte(SetByte(blk, off, v % 256), off + 1, v / 256 % 256)
    case Fat32 =>
      var low := SetByte(SetByte(SetByte(blk, off, v % 256), off + 1, v / 256 % 256), off + 2, v / 65536 % 256);
      SetByte(low, off + 3, AboveLow(blk[off + 3], v / 16777216))
  }

  /** The sector of an entry is on the device. */
  predicate HasSector(f: Layout, c: seq<Block>, sn: nat)
  {
    sn < |c| && |c[sn]| == f.bps
  }

  lemma ByteIs(f: Layout, c: seq<Block>, pos: nat, i: nat)
    requires f.bps > 0 && pos % f.bps + i < f.bps && HasSector(f, c, Sector(f, pos))
    ensures Reachable(f, c, pos + i) && Sector(f, pos + i) == Sector(f, pos)
    ensures (pos + i) % f.bps == pos % f.bps + i
    ensures ByteAt(f, c, pos + i) == c[Sector(f, pos)][pos % f.bps + i]
  {
    SameSector(f, pos, i);
  }

  lemma BytesAre(f: Layout, c: seq<Block>, cl: nat)
    requires f.bps > 0 && Inside(f, cl) && HasSector(f, c, Sector(f, Position(f, cl)))
    ensures HasEntry(f, c, cl) && Entry(f, c, cl) == Unpacked(f, c[Sector(f, Position(f, cl))], cl)
  {
    var p := Position(f, cl);
    ByteIs(f, c, p, 0);
    ByteIs(f, c, p, 1);
    if f.kind.Fat32? {
      ByteIs(f, c, p, 2);
      ByteIs(f, c, p, 3);
    }
  }

  /** A store within a sector. */
  lemma SetIs(f: Layout, c: seq<Block>, pos: nat, i: nat, v: byte)
    requires f.bps > 0 && pos % f.bps + i < f.bps && HasSector(f, c, Sector(f, pos))
    ensures Reachable(f, c, pos + i)
    ensures SetAt(f, c, pos + i, v) == c[Sector(f, pos) := SetByte(c[Sector(f, pos)], pos % f.bps + i, v)]
  {
    SameSector(f, pos, i);
  }

  /** The stores within the sector are the write of the entry. */
  lemma PackedIs(f: Layout, c: seq<Block>, cl: nat, v: nat)
    requires f.bps > 0 && Inside(f, cl) && HasSector(f, c, Sector(f, Position(f, cl)))
    ensures HasEntry(f, c, cl)
    ensures var s := Sector(f, Position(f, cl)); Written(f, c, cl, v) == c[s := Packed(f, c[s], cl, v)]
  {
    var p := Position(f, cl);
    BytesAre(f, c, cl);
    ByteIs(f, c, p, 0);
    ByteIs(f, c, p, 1);
    match f.kind {
      case Fat12 => PackedIs12(f, c, cl, v);
      case Fat16 =>
        Twice(f, c, p, 0, v % 256, 1, v / 256 % 256);
      case Fat32 =>
        PackedIs32(f, c, cl, v);
    }
  }

  lemma PackedIs12(f: Layout, c: seq<Block>, cl: nat, v: nat)
    requires f.bps > 0 && f.kind.Fat12? && Inside(f, cl) && HasSector(f, c, Sector(f, Position(f, cl)))
    requires HasEntry(f, c, cl)
    ensures var s := Sector(f, Position(f, cl)); Written(f, c, cl, v) == c[s := Packed(f, c[s], cl, v)]
  {
    var p := Position(f, cl);
    if cl % 2 == 1 {
      ByteIs(f, c, p, 0);
      var b: byte := UnderHigh(ByteAt(f, c, p), v);
      assert Written(f, c, cl, v) == SetAt(f, SetAt(f, c, p, b), p + 1, v / 16 % 256);
      Twice(f, c, p, 0, b, 1, v / 16 % 256);
    } else {
      ByteIs(f, c, p, 1);
      var b: byte := AboveLow(ByteAt(f, c, p + 1), v / 256);
      assert Written(f, c, cl, v) == SetAt(f, SetAt(f, c, p + 1, b), p, v % 256);
      Twice(f, c, p, 1, b, 0, v % 256);
    }
  }

  lemma PackedIs32(f: Layout, c: seq<Block>, cl: nat, v: nat)
    requires f.bps > 0 && f.kind.Fat32? && Inside(f, cl) && HasSector(f, c, Sector(f, Position(f, cl)))
    requires HasEntry(f, c, cl)
    ensures var s := Sector(f, Position(f, cl)); Written(f, c, cl, v) == c[s := Packed(f, c[s], cl, v)]
  {
    var p := Position(f, cl);
    ByteIs(f, c, p, 3);
    Four(f, c, p, v % 256, v / 256 % 256, v / 65536 % 256, AboveLow(ByteAt(f, c, p + 3), v / 16777216));
  }

  lemma Four(f: Layout, c: seq<Block>, pos: nat, v0: byte, v1: byte, v2: byte, v3: byte)
    requires f.bps > 0 && pos % f.bps + 4 <= f.bps && HasSector(f, c, Sector(f, pos))
    ensures Reachable(f, c, pos) && Reachable(f, c, pos + 1) && Reachable(f, c, pos + 2) && Reachable(f, c, pos + 3)
    ensures var s, off := Sector(f, pos), pos % f.bps;
            SetAt(f, SetAt(f, SetAt(f, SetAt(f, c, pos, v0), pos + 1, v1), pos + 2, v2), pos + 3, v3)
            == c[s := SetByte(SetByte(SetByte(SetByte(c[s], off, v0), off + 1, v1), off + 2, v2), off + 3, v3)]
  {
    var s, off := Sector(f, pos), pos % f.bps;
    Twice(f, c, pos, 0, v0, 1, v1);
    var x := SetByte(SetByte(c[s], off, v0), off + 1, v1);
    Twice(f, c[s := x], pos, 2, v2, 3, v3);
  }

  /** Two stores within a sector. */
  lemma Twice(f: Layout, c: seq<Block>, pos: nat, i: nat, v: byte, j: nat, w: byte)
    requires f.bps > 0 && pos % f.bps + i < f.bps && pos % f.bps + j < f.bps && HasSector(f, c, Sector(f, pos))
    ensures Reachable(f, c, pos + i) && Reachable(f, c, pos + j)
    ensures var s, off := Sector(f, pos), pos % f.bps;
            SetAt(f, SetAt(f, c, pos + i, v), pos + j, w) == c[s := SetByte(SetByte(c[s], off + i, v), off + j, w)]
  {
    ByteIs(f, c, pos, i);
    ByteIs(f, c, pos, j);
    SetIs(f, c, pos, i, v);
    SetIs(f, SetAt(f, c, pos + i, v), pos, j, w);
  }

  // ---------------------------------------------------------------- two sectors

  /** The bytes of a straddling entry. */
  lemma AcrossAre(f: Layout, c: seq<Block>, cl: nat)
    requires f.bps > 0 && Straddles(f, cl)
    requires var s := Sector(f, Position(f, cl)); HasSector(f, c, s) && HasSector(f, c, s + 1)
    ensures HasEntry(f, c, cl)
    ensures var s := Sector(f, Position(f, cl));
            Entry(f, c, cl) == (c[s][f.bps - 1] as nat + 256 * c[s + 1][0] as nat) / 16
  {
    NextSector(f, Position(f, cl));
  }

  lemma StoredAcross(f: Layout, c: seq<Block>, cl: nat, v: nat)
    requires f.bps > 0 && Straddles(f, cl)
    requires var s := Sector(f, Position(f, cl)); HasSector(f, c, s) && HasSector(f, c, s + 1)
    ensures HasEntry(f, c, cl)
    ensures var s := Sector(f, Position(f, cl));
            Written(f, c, cl, v)
            == c[s := SetByte(c[s], f.bps - 1, UnderHigh(c[s][f.bps - 1], v))][s + 1 := SetByte(c[s + 1], 0, v / 16 % 256)]
  {
    NextSector(f, Position(f, cl));
  }

  // ---------------------------------------------------------------- one sector in place of two

  /** The next sector's last byte instead of the first one's: what is read when both come into one buffer. */
  function Folded(f: Layout, c: seq<Block>, cl: nat): (v: nat)
    requires f.bps > 0 && HasSector(f, c, Sector(f, Position(f, cl)) + 1)
  {
    var next := c[Sector(f, Position(f, cl)) + 1];
    (next[f.bps - 1] as nat + 256 * next[0] as nat) / 16
  }

  /** What is written then. */
  function FoldedWritten(f: Layout, c: seq<Block>, cl: nat, v: nat): (r: seq<Block>)
    requires f.bps > 0 && HasSector(f, c, Sector(f, Position(f, cl)) + 1)
  {
    var s := Sector(f, Position(f, cl)) + 1;
    c[s := SetByte(SetByte(c[s], f.bps - 1, UnderHigh(c[s][f.bps - 1], v)), 0, v / 16 % 256)]
  }

  /** A straddling entry that is read so is right just when the two last bytes agree in the bits that count. */
  lemma FoldedIff(f: Layout, c: seq<Block>, cl: nat)
    requires f.bps > 0 && Straddles(f, cl)
    requires var s := Sector(f, Position(f, cl)); HasSector(f, c, s) && HasSector(f, c, s + 1)
    ensures HasEntry(f, c, cl)
    ensures var s := Sector(f, Position(f, cl));
            Folded(f, c, cl) == Entry(f, c, cl) <==> c[s][f.bps - 1] / 16 == c[s + 1][f.bps - 1] / 16
  {
    AcrossAre(f, c, cl);
    var s := Sector(f, Position(f, cl));
    Sixteenth(c[s][f.bps - 1], c[s + 1][0]);
    Sixteenth(c[s + 1][f.bps - 1], c[s + 1][0]);
  }

  lemma Sixteenth(a: byte, b: byte)
    ensures (a as nat + 256 * b as nat) / 16 == a / 16 + 16 * b
  {
  }

  /** One that is written so is right just when its low bits happen to be there in both sectors. */
  lemma FoldedWrittenIff(f: Layout, c: seq<Block>, cl: nat, v: nat)
    requires f.bps > 1 && Straddles(f, cl)
    requires var s := Sector(f, Position(f, cl)); HasSector(f, c, s) && HasSector(f, c, s + 1)
    ensures HasEntry(f, c, cl)
    ensures var s := Sector(f, Position(f, cl));
            FoldedWritten(f, c, cl, v) == Written(f, c, cl, v) <==> c[s][f.bps - 1] / 16 == v % 16 == c[s + 1][f.bps - 1] / 16
  {
    StoredAcross(f, c, cl, v);
    var s, e := Sector(f, Position(f, cl)), f.bps - 1;
    SameUnder(c[s][e], v);
    SameUnder(c[s + 1][e], v);
    var folded, written := FoldedWritten(f, c, cl, v), Written(f, c, cl, v);
    assert folded[s][e] == c[s][e] && written[s][e] == UnderHigh(c[s][e], v);
    assert folded[s + 1][e] == UnderHigh(c[s + 1][e], v) && written[s + 1][e] == c[s + 1][e];
    if UnderHigh(c[s][e], v) == c[s][e] && UnderHigh(c[s + 1][e], v) == c[s + 1][e] {
      SameByte(c[s], e);
      SameByte(c[s + 1], e);
    }
  }

  lemma SameUnder(b: byte, v: nat)
    ensures UnderHigh(b, v) == b <==> b / 16 == v % 16
  {
  }

  lemma SameByte(d: Block, off: nat)
    requires off < |d|
    ensures SetByte(d, off, d[off]) == d
  {
  }

  /** What fat_read_fat finds, with `two` sectors in the cache at once or not. */
  function Found(f: Layout, c: seq<Block>, cl: nat, two: bool): (v: nat)
    requires f.bps > 0 && HasEntry(f, c, cl) && (Straddles(f, cl) && !two ==> HasSector(f, c, Sector(f, Position(f, cl)) + 1))
  {
    if Straddles(f, cl) && !two then Folded(f, c, cl) else Entry(f, c, cl)
  }

  function Left(f: Layout, c: seq<Block>, cl: nat, v: nat, two: bool): (r: seq<Block>)
    requires f.bps > 0 && HasEntry(f, c, cl) && (Straddles(f, cl) && !two ==> HasSector(f, c, Sector(f, Position(f, cl)) + 1))
  {
    if Straddles(f, cl) && !two then FoldedWritten(f, c, cl, v) else Written(f, c, cl, v)
  }

  /** Twelve bits from two sectors. */
  function Across(f: Layout, blk: Block, blk2: Block): (v: nat)
    requires 0 < f.bps == |blk| == |blk2|
  {
    (blk[f.bps - 1] as nat + 256 * blk2[0] as nat) / 16
  }

  lemma FoundAcross(f: Layout, c: seq<Block>, cl: nat, two: bool)
    requires f.bps > 0 && Straddles(f, cl)
    requires var s := Sector(f, Position(f, cl)); HasSector(f, c, s) && HasSector(f, c, s + 1)
    ensures HasEntry(f, c, cl)
    ensures var s := Sector(f, Position(f, cl)); Found(f, c, cl, two) == Across(f, c[if two then s else s + 1], c[s + 1])
  {
    AcrossAre(f, c, cl);
  }

  class Fat {
    const disk: Cache
    const layout: Layout
    const numClusters: nat
    var lastAlloc: nat
    var freeClusters: Word

    ghost predicate Valid()
      reads this, disk, disk.cache
    {
      && disk.Valid() && ValidLayout(layout) && disk.blockSize == layout.bps
      && Position(layout, numClusters + 2) + 4 <= WORD
    }

    constructor (disk: Cache, layout: Layout, numClusters: nat, lastAlloc: nat, freeClusters: Word)
      requires disk.Valid() && ValidLayout(layout) && disk.blockSize == layout.bps
      requires Position(layout, numClusters + 2) + 4 <= WORD
      ensures Valid() && this.disk == disk && this.layout == layout && this.numClusters == numClusters
      ensures this.lastAlloc == lastAlloc && this.freeClusters == freeClusters
    {
      this.disk, this.layout, this.numClusters := disk, layout, numClusters;
      this.lastAlloc, this.freeClusters := lastAlloc, freeClusters;
    }

    /** The sectors as the client sees them. */
    ghost function Table(): (r: seq<Block>)
      requires disk.Indexed()
      reads disk, disk.cache
    {
      disk.Contents()
    }

    /** The sector is the most recently used one. */
    ghost predicate Fresh(sn: nat)
      reads this, disk, disk.cache
    {
      disk.Top() < disk.cache.Length && var last := disk.cache[disk.Top()]; last.valid && last.block == sn
    }

    ghost predicate Cached(sn: nat)
      reads disk, disk.cache
    {
      Lookup(disk.cache[..], sn) >= 0
    }

    /** All that an entry needs is cached. */
    ghost predicate AllCached(cl: nat)
      requires layout.bps > 0
      reads disk, disk.cache
    {
      var sn := Sector(layout, Position(layout, cl));
      Cached(sn) && (Straddles(layout, cl) ==> Cached(sn + 1))
    }

    /** The cache can hold two sectors. */
    predicate Two()
    {
      disk.cacheSize >= 2
    }

    // -------------------------------------------------------------- one entry

    /** fat_read_fatblock, and the bytes behind the pointer that it returns. */
    method Fetch(sn: nat) returns (ok: bool, blk: Block)
      requires Valid()
      modifies disk`device, disk`buffers, disk.cache
      ensures Valid() && Table() == old(Table())
      ensures ok ==> Fresh(sn) && HasSector(layout, Table(), sn) && blk == Table()[sn]
      ensures old(Cached(sn)) ==> ok && forall b :: old(Cached(b)) ==> Cached(b)
    {
      var rv;
      ghost var s := disk.cache[..];
      ok, rv := disk.Read(sn);
      blk := [];
      if Lookup(s, sn) >= 0 {
        forall b: nat | Lookup(s, b) >= 0
          ensures Cached(b)
        {
          TouchedLookup(s, Lookup(s, sn), disk.cacheSize, b);
        }
      }
      if ok {
        blk := disk.buffers[rv];
        disk.Shows(disk.Top(), {});
      }
    }

    /**
     A second sector fetched right after a first one leaves that one's entry and buffer alone,
     if there is room for two; else it comes into the same buffer.
     */
    method FetchSecond(sn: nat) returns (ok: bool, blk: Block)
      requires Valid() && disk.cache[disk.Top()].block != sn
      modifies disk`device, disk`buffers, disk.cache
      ensures Valid() && Table() == old(Table())
      ensures ok ==> Fresh(sn) && HasSector(layout, Table(), sn) && blk == Table()[sn]
      ensures old(Cached(sn)) ==> ok
      ensures ok && Two() ==> disk.cache[disk.Top() - 1] == old(disk.cache[disk.Top()])
      ensures ok && !Two() ==> disk.cache[0].buffer == old(disk.cache[0].buffer)
    {
      var rv;
      ok, rv := disk.Read(sn);
      blk := [];
      if ok {
        blk := disk.buffers[rv];
        disk.Shows(disk.Top(), {});
      }
    }

    /** fat_read_fat: the first of two sectors is read through its pointer after the second one is in. */
    method ReadFat(cl: nat) returns (ok: bool, val: nat)
      requires Valid() && Position(layout, cl) + 4 <= WORD
      modifies disk`device, disk`buffers, disk.cache
      ensures Valid() && Table() == old(Table())
      ensures ok ==> HasEntry(layout, Table(), cl) && (Straddles(layout, cl) ==> HasSector(layout, Table(), Sector(layout, Position(layout, cl)) + 1))
      ensures ok ==> val == Found(layout, Table(), cl, Two())
      ensures ok && (Two() || !Straddles(layout, cl)) ==> AllCached(cl)
    {
      var pos, blk := Position(layout, cl), [];
      var sn := Sector(layout, pos);
      ok, blk := Fetch(sn);
      val := 0xFFFF_FFFF;
      InsideUnlessStraddling(layout, cl);
      if ok && layout.kind.Fat12? && pos % layout.bps == layout.bps - 1 {
        ok, val := ReadAcross(cl);
      } else if ok {
        BytesAre(layout, Table(), cl);
        val := Unpacked(layout, blk, cl);
      }
    }

    /** What the first pointer points to when the second sector is in. */
    lemma Pointed(sn: nat, rv: nat)
      requires Valid() && Fresh(sn + 1)
      requires if Two() then var prev := disk.cache[disk.Top() - 1]; prev.valid && prev.block == sn && prev.buffer == rv
               else disk.cache[0].buffer == rv
      ensures rv < |disk.buffers| && sn + 1 < |Table()| && (Two() ==> sn < |Table()| && Cached(sn) && Cached(sn + 1))
      ensures disk.buffers[rv] == Table()[if Two() then sn else sn + 1]
    {
      if Two() {
        disk.Shows(disk.Top() - 1, {});
        assert disk.cache[..][disk.Top() - 1].block == sn && disk.cache[..][disk.Top()].block == sn + 1;
      }
      disk.Shows(disk.Top(), {});
    }

    lemma Joined(cl: nat, sn: nat, rv: nat, blk2: Block)
      requires Valid() && Straddles(layout, cl) && sn == Sector(layout, Position(layout, cl)) && Fresh(sn + 1)
      requires if Two() then var prev := disk.cache[disk.Top() - 1]; prev.valid && prev.block == sn && prev.buffer == rv
               else disk.cache[0].buffer == rv
      requires HasSector(layout, Table(), sn) && HasSector(layout, Table(), sn + 1) && blk2 == Table()[sn + 1]
      ensures HasEntry(layout, Table(), cl) && (Two() ==> AllCached(cl))
      ensures rv < |disk.buffers| && |disk.buffers[rv]| == layout.bps && |blk2| == layout.bps
      ensures Across(layout, disk.buffers[rv], blk2) == Found(layout, Table(), cl, Two())
    {
      Pointed(sn, rv);
      FoundAcross(layout, Table(), cl, Two());
    }

    method ReadAcross(cl: nat) returns (ok: bool, val: nat)
      requires Valid() && Straddles(layout, cl) && Fresh(Sector(layout, Position(layout, cl)))
      modifies disk`device, disk`buffers, disk.cache
      ensures Valid() && Table() == old(Table())
      ensures ok ==> HasEntry(layout, Table(), cl) && HasSector(layout, Table(), Sector(layout, Position(layout, cl)) + 1)
      ensures ok ==> val == Found(layout, Table(), cl, Two())
      ensures ok && Two() ==> AllCached(cl)
    {
      var sn, rv, blk2 := Sector(layout, Position(layout, cl)), disk.cache[disk.Top()].buffer, [];
      disk.Shows(disk.Top(), {});
      ok, blk2 := FetchSecond(sn + 1);
      val := 0xFFFF_FFFF;
      if ok {
        Joined(cl, sn, rv, blk2);
        val := Across(layout, disk.buffers[rv], blk2);
      }
    }

    /** The stores of an entry into its cached sector, which is then marked dirty. */
    method StoreInside(cl: nat, v: nat)
      requires Valid() && Inside(layout, cl) && Fresh(Sector(layout, Position(layout, cl)))
      modifies disk`buffers, disk.cache
      ensures Valid() && old(HasEntry(layout, Table(), cl))
      ensures Table() == Written(layout, old(Table()), cl, v)
    {
      var sn := Sector(layout, Position(layout, cl));
      disk.Shows(disk.Top(), {});
      PackedIs(layout, Table(), cl, v);
      StoreAt(sn, cl, v);
    }

    /** The same into the sector read last, whichever it is. */
    method StoreAt(sn: nat, cl: nat, v: nat)
      requires Valid() && Inside(layout, cl) && Fresh(sn)
      modifies disk`buffers, disk.cache
      ensures Valid() && old(HasSector(layout, Table(), sn))
      ensures Table() == old(Table())[sn := Packed(layout, old(Table())[sn], cl, v)]
    {
      var last := disk.Top();
      disk.Shows(last, {});
      disk.Edit(last, Packed(layout, disk.buffers[disk.cache[last].buffer], cl, v));
    }

    /** The stores of an entry that straddles two cached sectors. */
    method StoreAcross(cl: nat, v: nat)
      requires Valid() && Two() && Straddles(layout, cl) && Fresh(Sector(layout, Position(layout, cl)) + 1)
      requires var prev := disk.cache[disk.Top() - 1]; prev.valid && prev.block == Sector(layout, Position(layout, cl))
      modifies disk`buffers, disk.cache
      ensures Valid() && old(HasEntry(layout, Table(), cl))
      ensures Table() == Written(layout, old(Table()), cl, v)
    {
      var sn := Sector(layout, Position(layout, cl));
      var blk, blk2 := Both(sn);
      ghost var t := Table();
      StoredAcross(layout, t, cl, v);
      var first, second := SetByte(blk, layout.bps - 1, UnderHigh(blk[layout.bps - 1], v)), SetByte(blk2, 0, v / 16 % 256);
      assert Written(layout, t, cl, v) == t[sn := first][sn + 1 := second];
      EditBoth(sn, first, second);
    }

    /** The bytes behind the two pointers. */
    method Both(sn: nat) returns (blk: Block, blk2: Block)
      requires Valid() && Two() && Fresh(sn + 1)
      requires var prev := disk.cache[disk.Top() - 1]; prev.valid && prev.block == sn
      ensures HasSector(layout, Table(), sn) && HasSector(layout, Table(), sn + 1)
      ensures blk == Table()[sn] && blk2 == Table()[sn + 1]
    {
      var last := disk.Top();
      disk.Shows(last - 1, {});
      disk.Shows(last, {});
      blk, blk2 := disk.buffers[disk.cache[last - 1].buffer], disk.buffers[disk.cache[last].buffer];
    }

    /** Stores into the two sectors read last, which are then marked dirty. */
    method EditBoth(sn: nat, first: Block, second: Block)
      requires Valid() && Two() && Fresh(sn + 1) && |first| == |second| == layout.bps
      requires var prev := disk.cache[disk.Top() - 1]; prev.valid && prev.block == sn
      modifies disk`buffers, disk.cache
      ensures Valid() && Table() == old(Table())[sn := first][sn + 1 := second]
    {
      var last := disk.Top();
      disk.Shows(last - 1, {});
      disk.Shows(last, {});
      disk.Store(last - 1, first, {});
      disk.Store(last, second, {} + {sn});
      SettleBoth(sn);
    }

    /**
     The same stores when both pointers are into one buffer: they all go into the second sector,
     and marking the first one dirty fails, which goes unnoticed.
     */
    method StoreFolded(cl: nat, v: nat)
      requires Valid() && !Two() && Straddles(layout, cl) && Fresh(Sector(layout, Position(layout, cl)) + 1)
      modifies disk`buffers, disk.cache
      ensures Valid() && HasSector(layout, old(Table()), Sector(layout, Position(layout, cl)) + 1)
      ensures Table() == FoldedWritten(layout, old(Table()), cl, v)
    {
      var sn := Sector(layout, Position(layout, cl));
      disk.Shows(0, {});
      var blk := disk.buffers[disk.cache[0].buffer];
      disk.Store(0, SetByte(SetByte(blk, layout.bps - 1, UnderHigh(blk[layout.bps - 1], v)), 0, v / 16 % 256), {});
      var marked := disk.MarkDirty(sn, {} + {sn + 1});
      assert {} + {sn + 1} - {sn} == {} + {sn + 1};
      Settle(sn + 1);
    }

    /** A sector in which bytes were stored is marked dirty. */
    method Settle(sn: nat)
      requires disk.ValidBut({} + {sn})
      modifies disk.cache
      ensures disk.Valid() && Table() == old(Table())
    {
      var marked := disk.MarkDirty(sn, {} + {sn});
      assert {} + {sn} - {sn} == {};
    }

    method SettleBoth(sn: nat)
      requires disk.ValidBut({} + {sn} + {sn + 1})
      modifies disk.cache
      ensures disk.Valid() && Table() == old(Table())
    {
      var marked := disk.MarkDirty(sn, {} + {sn} + {sn + 1});
      assert {} + {sn} + {sn + 1} - {sn} == {} + {sn + 1};
      Settle(sn + 1);
    }

    /** fat_write_fat. */
    method WriteFat(cl: nat, v: nat) returns (ok: bool)
      requires Valid() && Position(layout, cl) + 4 <= WORD
      modifies disk`device, disk`buffers, disk.cache
      ensures Valid() && (!ok ==> Table() == old(Table()))
      ensures ok ==> disk.readWrite && old(HasEntry(layout, Table(), cl))
      ensures ok && Straddles(layout, cl) ==> HasSector(layout, old(Table()), Sector(layout, Position(layout, cl)) + 1)
      ensures ok ==> Table() == Left(layout, old(Table()), cl, v, Two())
      ensures disk.readWrite && old(AllCached(cl)) ==> ok
    {
      var blk := [];
      ok := disk.readWrite;
      if ok { ok, blk := Fetch(Sector(layout, Position(layout, cl))); }
      InsideUnlessStraddling(layout, cl);
      if ok && layout.kind.Fat12? && Position(layout, cl) % layout.bps == layout.bps - 1 {
        ok := WriteAcross(cl, v);
      } else if ok {
        StoreInside(cl, v);
      }
    }

    method WriteAcross(cl: nat, v: nat) returns (ok: bool)
      requires Valid() && Straddles(layout, cl) && Fresh(Sector(layout, Position(layout, cl)))
      modifies disk`device, disk`buffers, disk.cache
      ensures Valid() && (!ok ==> Table() == old(Table()))
      ensures ok ==> old(HasEntry(layout, Table(), cl)) && HasSector(layout, old(Table()), Sector(layout, Position(layout, cl)) + 1)
      ensures ok ==> Table() == Left(layout, old(Table()), cl, v, Two())
      ensures old(AllCached(cl)) ==> ok
    {
      var sn, blk := Sector(layout, Position(layout, cl)), [];
      disk.Shows(disk.Top(), {});
      ok, blk := FetchSecond(sn + 1);
      if ok {
        AcrossAre(layout, Table(), cl);
        if Two() { StoreAcross(cl, v); } else { StoreFolded(cl, v); }
      }
    }
  }
}
