/**
 The file allocation table as bytes: where an entry of each width lives, what
 `fat_read_fat` and `fat_write_fat` make of it, and when the table behaves as a map from
 clusters to values.
 */
module FatEntries {
  import opened Basics
  import opened BlockCache
  import opened Arith

  datatype Kind = Fat12 | Fat16 | Fat32

  /** Where a table lives: its kind, its first sector, the size of a sector. */
  datatype Layout = Layout(kind: Kind, reserved: nat, bps: nat)

  predicate ValidLayout(f: Layout)
  {
    f.bps >= 4 && f.bps % 4 == 0
  }

  // ---------------------------------------------------------------- bytes of the table

  function Sector(f: Layout, pos: nat): (s: nat)
    requires f.bps > 0
  {
    f.reserved + pos / f.bps
  }

  /** The byte at `pos` exists on the device. */
  predicate Reachable(f: Layout, c: seq<Block>, pos: nat)
    requires f.bps > 0
  {
    Sector(f, pos) < |c| && |c[Sector(f, pos)]| == f.bps
  }

  function ByteAt(f: Layout, c: seq<Block>, pos: nat): (v: byte)
    requires f.bps > 0 && Reachable(f, c, pos)
  {
    c[Sector(f, pos)][pos % f.bps]
  }

  function SetAt(f: Layout, c: seq<Block>, pos: nat, v: byte): (r: seq<Block>)
    requires f.bps > 0 && Reachable(f, c, pos)
    ensures |r| == |c| && forall k :: 0 <= k < |c| ==> |r[k]| == |c[k]|
  {
    c[Sector(f, pos) := SetByte(c[Sector(f, pos)], pos % f.bps, v)]
  }

  /** A store is seen at its own position and nowhere else. */
  lemma SetGet(f: Layout, c: seq<Block>, pos: nat, v: byte, p: nat)
    requires f.bps > 0 && Reachable(f, c, pos) && Reachable(f, c, p)
    ensures Reachable(f, SetAt(f, c, pos, v), p)
    ensures ByteAt(f, SetAt(f, c, pos, v), p) == if p == pos then v else ByteAt(f, c, p)
  {
    if p / f.bps == pos / f.bps && p % f.bps == pos % f.bps {
      assert p == f.bps * (p / f.bps) + p % f.bps;
      assert pos == f.bps * (pos / f.bps) + pos % f.bps;
    }
  }

  /** Neighbouring bytes of a sector. */
  lemma SameSector(f: Layout, pos: nat, k: nat)
    requires f.bps > 0 && pos % f.bps + k < f.bps
    ensures (pos + k) / f.bps == pos / f.bps && (pos + k) % f.bps == pos % f.bps + k
  {
    DivIs(pos + k, pos / f.bps, pos % f.bps + k, f.bps);
  }

  /** The byte after the last one of a sector. */
  lemma NextSector(f: Layout, pos: nat)
    requires f.bps > 0 && pos % f.bps == f.bps - 1
    ensures (pos + 1) / f.bps == pos / f.bps + 1 && (pos + 1) % f.bps == 0
  {
    assert f.bps * (pos / f.bps + 1) == f.bps * (pos / f.bps) + f.bps;
    DivIs(pos + 1, pos / f.bps + 1, 0, f.bps);
  }

  /** An entry of 2 or 4 bytes never straddles a sector. */
  lemma Aligned(f: Layout, x: nat, w: nat)
    requires ValidLayout(f) && ((w == 2 && x % 2 == 0) || (w == 4 && x % 4 == 0))
    ensures x % f.bps + w <= f.bps
  {
    DivMod(x, f.bps);
    AlignedBy(x, f.bps, x / f.bps, x % f.bps, f.bps / 4, w);
  }

  lemma AlignedBy(x: nat, b: nat, q: nat, r: nat, m: nat, w: nat)
    requires ((w == 2 && x % 2 == 0) || (w == 4 && x % 4 == 0)) && x == b * q + r && r < b == 4 * m
    ensures r + w <= b
  {
    Quadruple(b, m, q);
    Fits(w, x, m * q, r, m);
  }

  lemma Quadruple(b: nat, m: nat, q: nat)
    requires b == 4 * m
    ensures b * q == 4 * (m * q)
  {
  }

  lemma Fits(w: nat, x: nat, k: nat, r: nat, m: nat)
    requires ((w == 2 && x % 2 == 0) || (w == 4 && x % 4 == 0)) && x == 4 * k + r && r < 4 * m
    ensures r + w <= 4 * m
  {
  }

  // ---------------------------------------------------------------- entries

  /** Where the bytes of an entry begin. */
  function Position(f: Layout, cl: nat): (p: nat)
  {
    match f.kind
    case Fat12 => cl / 2 + cl
    case Fat16 => 2 * cl
    case Fat32 => 4 * cl
  }

  /** The number of bytes an entry touches. */
  function Width(f: Layout): (w: nat)
  {
    if f.kind.Fat32? then 4 else 2
  }

  /** The bytes of an entry exist on the device. */
  predicate HasEntry(f: Layout, c: seq<Block>, cl: nat)
    requires f.bps > 0
  {
    var p := Position(f, cl);
    Reachable(f, c, p) && Reachable(f, c, p + 1) && (f.kind.Fat32? ==> Reachable(f, c, p + 2) && Reachable(f, c, p + 3))
  }

  /** A 12-bit entry whose two bytes lie in different sectors. */
  predicate Straddles(f: Layout, cl: nat)
    requires f.bps > 0
  {
    f.kind.Fat12? && Position(f, cl) % f.bps == f.bps - 1
  }

  /** The entries that the code mistakes for odd ones. */
  predicate Mistaken(f: Layout, cl: nat)
    requires f.bps > 0
  {
    Straddles(f, cl) && cl % 2 == 0
  }

  /** What fat_read_fat returns. */
  function Entry(f: Layout, c: seq<Block>, cl: nat): (v: nat)
    requires f.bps > 0 && HasEntry(f, c, cl)
  {
    var p := Position(f, cl);
    var w := ByteAt(f, c, p) as nat + 256 * ByteAt(f, c, p + 1);
    match f.kind
    case Fat12 => if Straddles(f, cl) || cl % 2 == 1 then w / 16 else w % 4096
    case Fat16 => w
    case Fat32 => w + 65536 * ByteAt(f, c, p + 2) + 16777216 * ByteAt(f, c, p + 3)
  }

  /** What the FAT format says an entry is. */
  function FormatEntry(f: Layout, c: seq<Block>, cl: nat): (v: nat)
    requires f.bps > 0 && HasEntry(f, c, cl)
  {
    var p := Position(f, cl);
    var w := ByteAt(f, c, p) as nat + 256 * ByteAt(f, c, p + 1);
    match f.kind
    case Fat12 => if cl % 2 == 1 then w / 16 else w % 4096
    case Fat16 => w
    case Fat32 => w + 65536 * ByteAt(f, c, p + 2) + 16777216 * ByteAt(f, c, p + 3)
  }

  /** The low nibble of one byte under the low nibble of a value ... */
  function UnderHigh(b: byte, n: nat): (r: byte)
  {
    b % 16 + n % 16 * 16
  }

  /** ... and its high nibble above the low nibble of a value. */
  function AboveLow(b: byte, n: nat): (r: byte)
  {
    b / 16 * 16 + n % 16
  }

  /** The table after fat_write_fat. */
  function Written(f: Layout, c: seq<Block>, cl: nat, v: nat): (r: seq<Block>)
    requires f.bps > 0 && HasEntry(f, c, cl)
    ensures |r| == |c| && forall k :: 0 <= k < |c| ==> |r[k]| == |c[k]|
  {
    var p := Position(f, cl);
    match f.kind
    case Fat12 =>
      if Straddles(f, cl) || cl % 2 == 1 then
        SetAt(f, SetAt(f, c, p, UnderHigh(ByteAt(f, c, p), v)), p + 1, v / 16 % 256)
      else
        SetAt(f, SetAt(f, c, p + 1, AboveLow(ByteAt(f, c, p + 1), v / 256)), p, v % 256)
    case Fat16 => SetAt(f, SetAt(f, c, p, v % 256), p + 1, v / 256 % 256)
    case Fat32 =>
      var low := SetAt(f, SetAt(f, SetAt(f, c, p, v % 256), p + 1, v / 256 % 256), p + 2, v / 65536 % 256);
      SetAt(f, low, p + 3, AboveLow(ByteAt(f, c, p + 3), v / 16777216))
  }

  /** The value an entry can hold: 12, 16 or 28 bits of what is written, above the bits that are kept. */
  function Held(f: Layout, v: nat, before: nat): (r: nat)
  {
    match f.kind
    case Fat12 => v % 4096
    case Fat16 => v % 65536
    case Fat32 => before / 268435456 * 268435456 + v % 268435456
  }

  lemma HasEntryStays(f: Layout, c: seq<Block>, d: seq<Block>, cl: nat)
    requires f.bps > 0 && HasEntry(f, c, cl) && |c| == |d| && forall k :: 0 <= k < |c| ==> |d[k]| == |c[k]|
    ensures HasEntry(f, d, cl)
  {
  }

  /** The bytes of an entry after a write, when it is written as an odd 12-bit one ... */
  lemma WrittenOdd(f: Layout, c: seq<Block>, cl: nat, v: nat, q: nat)
    requires f.bps > 0 && HasEntry(f, c, cl) && Reachable(f, c, q) && f.kind.Fat12? && (Straddles(f, cl) || cl % 2 == 1)
    ensures var p, d := Position(f, cl), Written(f, c, cl, v);
            && Reachable(f, d, q)
            && ByteAt(f, d, q) == if q == p then UnderHigh(ByteAt(f, c, p), v)
                                  else if q == p + 1 then v / 16 % 256 else ByteAt(f, c, q)
  {
    var p := Position(f, cl);
    var b: byte := UnderHigh(ByteAt(f, c, p), v);
    SetGet(f, c, p, b, q);
    SetGet(f, SetAt(f, c, p, b), p + 1, v / 16 % 256, q);
  }

  /** ... as an even one ... */
  lemma WrittenEven(f: Layout, c: seq<Block>, cl: nat, v: nat, q: nat)
    requires f.bps > 0 && HasEntry(f, c, cl) && Reachable(f, c, q) && f.kind.Fat12? && !Straddles(f, cl) && cl % 2 == 0
    ensures var p, d := Position(f, cl), Written(f, c, cl, v);
            && Reachable(f, d, q)
            && ByteAt(f, d, q) == if q == p then v % 256
                                  else if q == p + 1 then AboveLow(ByteAt(f, c, p + 1), v / 256) else ByteAt(f, c, q)
  {
    var p := Position(f, cl);
    var b: byte := AboveLow(ByteAt(f, c, p + 1), v / 256);
    SetGet(f, c, p + 1, b, q);
    SetGet(f, SetAt(f, c, p + 1, b), p, v % 256, q);
  }

  /** ... as a 16-bit one ... */
  lemma Written16(f: Layout, c: seq<Block>, cl: nat, v: nat, q: nat)
    requires f.bps > 0 && HasEntry(f, c, cl) && Reachable(f, c, q) && f.kind.Fat16?
    ensures var p, d := Position(f, cl), Written(f, c, cl, v);
            && Reachable(f, d, q)
            && ByteAt(f, d, q) == if q == p then v % 256 else if q == p + 1 then v / 256 % 256 else ByteAt(f, c, q)
  {
    var p := Position(f, cl);
    SetGet(f, c, p, v % 256, q);
    SetGet(f, SetAt(f, c, p, v % 256), p + 1, v / 256 % 256, q);
  }

  /** ... and as a 32-bit one, whose top nibble is kept. */
  lemma Written32(f: Layout, c: seq<Block>, cl: nat, v: nat, q: nat)
    requires f.bps > 0 && HasEntry(f, c, cl) && Reachable(f, c, q) && f.kind.Fat32?
    ensures var p, d := Position(f, cl), Written(f, c, cl, v);
            && Reachable(f, d, q)
            && ByteAt(f, d, q) == if q == p then v % 256 else if q == p + 1 then v / 256 % 256
                                  else if q == p + 2 then v / 65536 % 256
                                  else if q == p + 3 then AboveLow(ByteAt(f, c, p + 3), v / 16777216) else ByteAt(f, c, q)
  {
    var p := Position(f, cl);
    var x := SetAt(f, c, p, v % 256);
    var y := SetAt(f, x, p + 1, v / 256 % 256);
    var z := SetAt(f, y, p + 2, v / 65536 % 256);
    SetGet(f, c, p, v % 256, q);
    SetGet(f, x, p + 1, v / 256 % 256, q);
    SetGet(f, y, p + 2, v / 65536 % 256, q);
    SetGet(f, z, p + 3, AboveLow(ByteAt(f, c, p + 3), v / 16777216), q);
  }

  // ---------------------------------------------------------------- the table as a map

  /** What is written is what is read back, as far as the entry can hold it. */
  lemma ReadAfterWrite(f: Layout, c: seq<Block>, cl: nat, v: nat)
    requires f.bps > 0 && HasEntry(f, c, cl)
    ensures HasEntry(f, Written(f, c, cl, v), cl)
    ensures Entry(f, Written(f, c, cl, v), cl) == Held(f, v, Entry(f, c, cl))
  {
    HasEntryStays(f, c, Written(f, c, cl, v), cl);
    match f.kind {
      case Fat12 => ReadAfterWrite12(f, c, cl, v);
      case Fat16 => ReadAfterWrite16(f, c, cl, v);
      case Fat32 => ReadAfterWrite32(f, c, cl, v);
    }
  }

  lemma ReadAfterWrite16(f: Layout, c: seq<Block>, cl: nat, v: nat)
    requires f.bps > 0 && HasEntry(f, c, cl) && f.kind.Fat16? && HasEntry(f, Written(f, c, cl, v), cl)
    ensures Entry(f, Written(f, c, cl, v), cl) == v % 65536
  {
    Written16(f, c, cl, v, 2 * cl);
    Written16(f, c, cl, v, 2 * cl + 1);
    Value16(v);
  }

  lemma Value16(v: nat)
    ensures v % 256 + 256 * (v / 256 % 256) == v % 65536
  {
    var r, k := v % 256, v / 256;
    var h, l := k / 256, k % 256;
    assert v == 65536 * h + (256 * l + r);
  }

  lemma ReadAfterWrite12(f: Layout, c: seq<Block>, cl: nat, v: nat)
    requires f.bps > 0 && HasEntry(f, c, cl) && f.kind.Fat12? && HasEntry(f, Written(f, c, cl, v), cl)
    ensures Entry(f, Written(f, c, cl, v), cl) == v % 4096
  {
    var p := Position(f, cl);
    if Straddles(f, cl) || cl % 2 == 1 {
      WrittenOdd(f, c, cl, v, p);
      WrittenOdd(f, c, cl, v, p + 1);
      OddValue(ByteAt(f, c, p), v);
    } else {
      WrittenEven(f, c, cl, v, p);
      WrittenEven(f, c, cl, v, p + 1);
      EvenValue(ByteAt(f, c, p + 1), v);
    }
  }

  lemma ReadAfterWrite32(f: Layout, c: seq<Block>, cl: nat, v: nat)
    requires f.bps > 0 && HasEntry(f, c, cl) && f.kind.Fat32? && HasEntry(f, Written(f, c, cl, v), cl)
    ensures Entry(f, Written(f, c, cl, v), cl) == Held(f, v, Entry(f, c, cl))
  {
    var p := 4 * cl;
    Written32(f, c, cl, v, p);
    Written32(f, c, cl, v, p + 1);
    Written32(f, c, cl, v, p + 2);
    Written32(f, c, cl, v, p + 3);
    Value32(ByteAt(f, c, p) as nat + 256 * ByteAt(f, c, p + 1) + 65536 * ByteAt(f, c, p + 2), ByteAt(f, c, p + 3), v);
  }

  lemma OddValue(b: byte, v: nat)
    ensures (UnderHigh(b, v) as nat + 256 * (v / 16 % 256)) / 16 == v % 4096
  {
    var r, k := v % 16, v / 16;
    var h, l := k / 256, k % 256;
    assert v == 4096 * h + (16 * l + r);
    Mod4096(h, 16 * l + r);
    HighNibbles(b % 16, r, l);
  }

  lemma HighNibbles(n: nat, r: nat, l: nat)
    requires n < 16
    ensures (n + 16 * r + 256 * l) / 16 == r + 16 * l
  {
  }

  lemma Mod4096(q: nat, s: nat)
    requires s < 4096
    ensures (4096 * q + s) % 4096 == s
  {
  }

  lemma EvenValue(b: byte, v: nat)
    ensures (v % 256 + 256 * (AboveLow(b, v / 256) as nat)) % 4096 == v % 4096
  {
    var r, k := v % 256, v / 256;
    var h, l, t := k / 16, k % 16, b / 16;
    assert AboveLow(b, k) == 16 * t + l;
    Mod4096(h, 256 * l + r);
    Mod4096(t, 256 * l + r);
  }

  lemma Value32(low: nat, b: byte, v: nat)
    requires low < 16777216
    ensures v % 256 + 256 * (v / 256 % 256) + 65536 * (v / 65536 % 256) + 16777216 * (AboveLow(b, v / 16777216) as nat)
            == (low + 16777216 * b) / 268435456 * 268435456 + v % 268435456
  {
    var v0, x := v % 256, v / 256;
    var v1, y := x % 256, x / 256;
    var v2, z := y % 256, y / 256;
    var v3, w := z % 16, z / 16;
    assert v / 65536 == y && v / 16777216 == z;
    assert v == 268435456 * w + (v0 + 256 * v1 + 65536 * v2 + 16777216 * v3);
    assert v % 268435456 == v0 + 256 * v1 + 65536 * v2 + 16777216 * v3;
    var h, l := b / 16, b % 16;
    assert low + 16777216 * b == 268435456 * h + (16777216 * l + low);
    assert (low + 16777216 * b) / 268435456 == h;
  }

  /** A 12-bit entry by its nibbles. */
  lemma EntryNibbles(f: Layout, c: seq<Block>, cl: nat)
    requires f.bps > 0 && HasEntry(f, c, cl) && f.kind.Fat12?
    ensures var x, y := ByteAt(f, c, Position(f, cl)), ByteAt(f, c, Position(f, cl) + 1);
            Entry(f, c, cl) == if Straddles(f, cl) || cl % 2 == 1 then x / 16 + 16 * y else x + 256 * (y % 16)
  {
    Nibbles(ByteAt(f, c, Position(f, cl)), ByteAt(f, c, Position(f, cl) + 1));
  }

  lemma Nibbles(x: byte, y: byte)
    ensures (x as nat + 256 * y) / 16 == x / 16 + 16 * y && (x as nat + 256 * y) % 4096 == x + 256 * (y % 16)
  {
    assert x as nat + 256 * y == 4096 * (y / 16) + (x + 256 * (y % 16));
  }

  lemma KeptNibbles(b: byte, v: nat)
    ensures UnderHigh(b, v) % 16 == b % 16 && AboveLow(b, v / 256) / 16 == b / 16
    ensures (v / 16 % 256) / 16 == v / 256 % 16
  {
    assert v / 16 / 16 == v / 256;
    assert v / 16 == 256 * (v / 16 / 256) + (16 * (v / 256 % 16) + v / 16 % 16);
  }

  /** The two ways a mistaken entry gets in the way of its neighbour: by being written, and by being read. */
  predicate Clobbers(f: Layout, cl: nat, other: nat)
    requires f.bps > 0
  {
    Mistaken(f, cl) && other == cl + 1
  }

  predicate Misreads(f: Layout, cl: nat, other: nat)
    requires f.bps > 0
  {
    Mistaken(f, other) && cl == other + 1
  }

  /**
   When a write leaves another entry as it was: always, but for the entry after a mistaken
   one that is written, and for a mistaken one before an entry that is written.
   */
  lemma OthersStayIff(f: Layout, c: seq<Block>, cl: nat, v: nat, other: nat)
    requires ValidLayout(f) && HasEntry(f, c, cl) && HasEntry(f, c, other) && other != cl
    ensures HasEntry(f, Written(f, c, cl, v), other)
    ensures Entry(f, Written(f, c, cl, v), other) == Entry(f, c, other) <==>
            && (Clobbers(f, cl, other) ==> v / 256 % 16 == Entry(f, c, other) % 16)
            && (Misreads(f, cl, other) ==> v % 16 == Entry(f, c, other) / 256)
  {
    if Clobbers(f, cl, other) {
      MistakenClobbers(f, c, cl, v);
    } else if Misreads(f, cl, other) {
      MistakenMisread(f, c, other, v);
    } else {
      OthersStay(f, c, cl, v, other);
    }
  }

  /** No other entry changes, but for those two cases. */
  lemma OthersStay(f: Layout, c: seq<Block>, cl: nat, v: nat, other: nat)
    requires f.bps > 0 && HasEntry(f, c, cl) && HasEntry(f, c, other) && other != cl
    requires !Clobbers(f, cl, other) && !Misreads(f, cl, other)
    ensures HasEntry(f, Written(f, c, cl, v), other)
    ensures Entry(f, Written(f, c, cl, v), other) == Entry(f, c, other)
  {
    HasEntryStays(f, c, Written(f, c, cl, v), other);
    match f.kind {
      case Fat12 => OthersStay12(f, c, cl, v, other);
      case Fat16 =>
        Written16(f, c, cl, v, 2 * other);
        Written16(f, c, cl, v, 2 * other + 1);
      case Fat32 => OthersStay32(f, c, cl, v, other);
    }
  }

  lemma OthersStay32(f: Layout, c: seq<Block>, cl: nat, v: nat, other: nat)
    requires f.bps > 0 && HasEntry(f, c, cl) && HasEntry(f, c, other) && other != cl && f.kind.Fat32?
    requires HasEntry(f, Written(f, c, cl, v), other)
    ensures Entry(f, Written(f, c, cl, v), other) == Entry(f, c, other)
  {
    var p := 4 * other;
    Written32(f, c, cl, v, p);
    Written32(f, c, cl, v, p + 1);
    Written32(f, c, cl, v, p + 2);
    Written32(f, c, cl, v, p + 3);
  }

  lemma OthersStay12(f: Layout, c: seq<Block>, cl: nat, v: nat, other: nat)
    requires f.bps > 0 && HasEntry(f, c, cl) && HasEntry(f, c, other) && other != cl && f.kind.Fat12?
    requires !Clobbers(f, cl, other) && !Misreads(f, cl, other) && HasEntry(f, Written(f, c, cl, v), other)
    ensures Entry(f, Written(f, c, cl, v), other) == Entry(f, c, other)
  {
    EntryNibbles(f, c, other);
    EntryNibbles(f, Written(f, c, cl, v), other);
    if Straddles(f, cl) || cl % 2 == 1 {
      OthersStayOdd(f, c, cl, v, other);
    } else {
      OthersStayEven(f, c, cl, v, other);
    }
  }

  /** The bytes of another entry, as far as it uses them, after an odd write ... */
  lemma OthersStayOdd(f: Layout, c: seq<Block>, cl: nat, v: nat, other: nat)
    requires f.bps > 0 && HasEntry(f, c, cl) && HasEntry(f, c, other) && other != cl && f.kind.Fat12?
    requires !Clobbers(f, cl, other) && !Misreads(f, cl, other) && HasEntry(f, Written(f, c, cl, v), other)
    requires Straddles(f, cl) || cl % 2 == 1
    ensures SameNibbles(f, c, Written(f, c, cl, v), other)
  {
    WrittenOdd(f, c, cl, v, Position(f, other));
    WrittenOdd(f, c, cl, v, Position(f, other) + 1);
    KeptNibbles(ByteAt(f, c, Position(f, cl)), v);
  }

  /** ... and after an even one. */
  lemma OthersStayEven(f: Layout, c: seq<Block>, cl: nat, v: nat, other: nat)
    requires f.bps > 0 && HasEntry(f, c, cl) && HasEntry(f, c, other) && other != cl && f.kind.Fat12?
    requires !Misreads(f, cl, other) && HasEntry(f, Written(f, c, cl, v), other) && !Straddles(f, cl) && cl % 2 == 0
    ensures SameNibbles(f, c, Written(f, c, cl, v), other)
  {
    WrittenEven(f, c, cl, v, Position(f, other));
    WrittenEven(f, c, cl, v, Position(f, other) + 1);
    KeptNibbles(ByteAt(f, c, Position(f, cl) + 1), v);
  }

  /** The nibbles that are read as a 12-bit entry are the same. */
  predicate SameNibbles(f: Layout, c: seq<Block>, d: seq<Block>, cl: nat)
    requires f.bps > 0 && HasEntry(f, c, cl) && HasEntry(f, d, cl)
  {
    var p := Position(f, cl);
    if Straddles(f, cl) || cl % 2 == 1 then
      ByteAt(f, d, p) / 16 == ByteAt(f, c, p) / 16 && ByteAt(f, d, p + 1) == ByteAt(f, c, p + 1)
    else
      ByteAt(f, d, p) == ByteAt(f, c, p) && ByteAt(f, d, p + 1) % 16 == ByteAt(f, c, p + 1) % 16
  }

  /**
   Writing a mistaken entry clobbers the entry after it, unless the top four bits of the
   value happen to be that entry's low four bits.
   */
  lemma MistakenClobbers(f: Layout, c: seq<Block>, cl: nat, v: nat)
    requires ValidLayout(f) && HasEntry(f, c, cl) && HasEntry(f, c, cl + 1) && Mistaken(f, cl)
    ensures HasEntry(f, Written(f, c, cl, v), cl + 1)
    ensures var d := Written(f, c, cl, v);
            && Entry(f, d, cl + 1) == Entry(f, c, cl + 1) / 16 * 16 + v / 256 % 16
            && (Entry(f, d, cl + 1) == Entry(f, c, cl + 1) <==> v / 256 % 16 == Entry(f, c, cl + 1) % 16)
  {
    var p, d := Position(f, cl), Written(f, c, cl, v);
    assert Position(f, cl + 1) == p + 1;
    HasEntryStays(f, c, d, cl + 1);
    WrittenOdd(f, c, cl, v, p + 1);
    WrittenOdd(f, c, cl, v, p + 2);
    EntryNibbles(f, c, cl + 1);
    EntryNibbles(f, d, cl + 1);
    KeptNibbles(0, v);
    Clobbered(ByteAt(f, c, p + 1), ByteAt(f, c, p + 2), v / 256 % 16);
  }

  lemma Clobbered(x: byte, y: byte, n: nat)
    requires n < 16
    ensures var e, e' := x / 16 + 16 * y, n + 16 * y; e' == e / 16 * 16 + n && (e' == e <==> n == e % 16)
  {
  }

  /**
   Writing the entry after a mistaken one changes what is read as that one, unless the low
   four bits of the value happen to be its top four bits.
   */
  lemma MistakenMisread(f: Layout, c: seq<Block>, cl: nat, v: nat)
    requires ValidLayout(f) && HasEntry(f, c, cl) && HasEntry(f, c, cl + 1) && Mistaken(f, cl)
    ensures HasEntry(f, Written(f, c, cl + 1, v), cl)
    ensures var d := Written(f, c, cl + 1, v);
            && Entry(f, d, cl) == Entry(f, c, cl) % 256 + v % 16 * 256
            && (Entry(f, d, cl) == Entry(f, c, cl) <==> v % 16 == Entry(f, c, cl) / 256)
  {
    var p, d := Position(f, cl), Written(f, c, cl + 1, v);
    assert Position(f, cl + 1) == p + 1;
    HasEntryStays(f, c, d, cl);
    WrittenOdd(f, c, cl + 1, v, p);
    WrittenOdd(f, c, cl + 1, v, p + 1);
    EntryNibbles(f, c, cl);
    EntryNibbles(f, d, cl);
    Misread(ByteAt(f, c, p), ByteAt(f, c, p + 1), v % 16);
  }

  lemma Misread(x: byte, y: byte, n: nat)
    requires n < 16
    ensures var e, e' := x / 16 + 16 * y, x / 16 + 16 * (y % 16 + n * 16); e' == e % 256 + n * 256 && (e' == e <==> n == e / 256)
  {
    assert x / 16 + 16 * y == 256 * (y / 16) + (x / 16 + 16 * (y % 16));
  }

  /**
   Elsewhere the code reads what the format says.  A mistaken entry it reads one nibble too far:
   without its own lowest nibble, and with the lowest one of the next entry on top.  That is
   right just when the four nibbles are the same.
   */
  lemma ReadsFormat(f: Layout, c: seq<Block>, cl: nat)
    requires f.bps > 0 && HasEntry(f, c, cl)
    ensures !Mistaken(f, cl) ==> Entry(f, c, cl) == FormatEntry(f, c, cl)
    ensures Mistaken(f, cl) ==>
              var e, n := FormatEntry(f, c, cl), NibbleAfter(f, c, cl);
              && Entry(f, c, cl) == e / 16 + 256 * n
              && (Entry(f, c, cl) == e <==> e % 16 == e / 16 % 16 == e / 256 == n)
  {
    if Mistaken(f, cl) {
      var p := Position(f, cl);
      EntryNibbles(f, c, cl);
      OneNibbleFurther(ByteAt(f, c, p), ByteAt(f, c, p + 1));
    }
  }

  lemma OneNibbleFurther(x: byte, y: byte)
    ensures var e, n := (x as nat + 256 * y) % 4096, y / 16;
            && x / 16 + 16 * y == e / 16 + 256 * n
            && (x / 16 + 16 * y == e <==> e % 16 == e / 16 % 16 == e / 256 == n)
  {
    Nibbles(x, y);
    var x0, x1, y0, y1 := x % 16, x / 16, y % 16, y / 16;
    assert x + 256 * y0 == x0 + 16 * x1 + 256 * y0 && x1 + 16 * y == x1 + 16 * y0 + 256 * y1;
    ByNibbles(x0, x1, y0);
    SameNibble(x0, x1, y0, y1);
  }

  lemma ByNibbles(x0: nat, x1: nat, x2: nat)
    requires x0 < 16 && x1 < 16 && x2 < 16
    ensures var e := x0 + 16 * x1 + 256 * x2; e % 16 == x0 && e / 16 == x1 + 16 * x2 && e / 256 == x2
    ensures (x1 + 16 * x2) % 16 == x1
  {
  }

  lemma SameNibble(x0: nat, x1: nat, x2: nat, x3: nat)
    requires x0 < 16 && x1 < 16 && x2 < 16 && x3 < 16
    ensures x1 + 16 * x2 + 256 * x3 == x0 + 16 * x1 + 256 * x2 <==> x0 == x1 == x2 == x3
  {
    ByNibbles(x0, x1, x2);
    ByNibbles(x1, x2, x3);
  }

  /** The four bits after a 12-bit entry that begins with a byte ... */
  function NibbleAfter(f: Layout, c: seq<Block>, cl: nat): (n: nat)
    requires f.bps > 0 && Mistaken(f, cl) && HasEntry(f, c, cl)
  {
    ByteAt(f, c, Position(f, cl) + 1) / 16
  }

  /** ... are the lowest ones of the next entry. */
  lemma NibbleOfNext(f: Layout, c: seq<Block>, cl: nat)
    requires ValidLayout(f) && HasEntry(f, c, cl) && HasEntry(f, c, cl + 1) && Mistaken(f, cl)
    ensures NibbleAfter(f, c, cl) == FormatEntry(f, c, cl + 1) % 16
  {
    var p := Position(f, cl);
    assert Position(f, cl + 1) == p + 1 && !Mistaken(f, cl + 1);
    EntryNibbles(f, c, cl + 1);
    ReadsFormat(f, c, cl + 1);
    LowNibble(ByteAt(f, c, p + 1), ByteAt(f, c, p + 2));
  }

  lemma LowNibble(x: byte, y: byte)
    ensures (x / 16 + 16 * y) % 16 == x / 16
  {
  }

  /** With sectors of 512 bytes, cluster 682 is the first mistaken one. */
  lemma FirstMistaken(reserved: nat, cl: nat)
    ensures Mistaken(Layout(Fat12, reserved, 512), 682)
    ensures Mistaken(Layout(Fat12, reserved, 512), cl) ==> cl >= 682
  {
    var f := Layout(Fat12, reserved, 512);
    assert Position(f, 682) == 1023;
    if cl < 682 && cl % 2 == 0 { assert Position(f, cl) == 3 * (cl / 2); }
  }
}
