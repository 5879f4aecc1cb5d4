/**
 Block allocation in libkosext2fs: `ext2_block_alloc` and `mark_block_free` over the block
 cache.  Blocks are taken as their 32-bit words.  What the cache does is modelled as far as it
 matters here: the order in which it keeps blocks, since a pointer into a buffer is good only
 while its block stays cached, and which blocks may differ from the device.
 */
module Ext2Fs {
  import opened Recency
  import opened Ext2Bits
  import opened Ext2Volume

  type Words = seq<nat>

  /** What an allocation reports. */
  datatype Allocated = Got(block: nat) | ReadOnly | NoSpace | IoError

  function Zeros(p: nat): (r: Words)
    ensures |r| == p && forall k :: 0 <= k < p ==> r[k] == 0
  {
    seq(p, _ => 0)
  }

  function SetWord(words: seq<Words>, b: nat, i: nat, v: nat): (r: seq<Words>)
    requires b < |words| && i < |words[b]|
  {
    words[b := words[b][..i] + [v] + words[b][i + 1..]]
  }

  /** One bit of a block of words set or cleared. */
  function SetIn(words: seq<Words>, b: nat, i: nat, v: bool): (r: seq<Words>)
    ensures |r| == |words| && forall k :: 0 <= k < |words| && k != b ==> r[k] == words[k]
  {
    if b >= |words| || i >= 32 * |words[b]| then words
    else words[b := if v then SetBit(words[b], i) else ClearBit(words[b], i)]
  }

  function BitmapOf(bitmaps: seq<nat>, k: nat): (b: nat)
  {
    if k < |bitmaps| then bitmaps[k] else 0
  }

  // ---------------------------------------------------------------- bitmaps on the disk

  /** The bits that count in a group's bitmap. */
  ghost function Low(t: Words, n: nat): (r: seq<bool>)
  {
    if n <= 32 * |t| then Bits(t)[..n] else []
  }

  /** The bitmap blocks hold the bits, and are in use themselves. */
  ghost predicate Mapped(bitmaps: seq<nat>, words: seq<Words>, a: Books, p: nat)
  {
    && |bitmaps| == |a.bits| && NoDup(bitmaps) && a.geo.perGroup <= 32 * p
    && forall k :: 0 <= k < |bitmaps| ==> MappedAt(bitmaps[k], words, a, p, k)
  }

  ghost predicate MappedAt(b: nat, words: seq<Words>, a: Books, p: nat, k: nat)
    requires k < |a.bits|
  {
    Taken(a, b) && b < |words| && |words[b]| == p && a.bits[k] == Low(words[b], a.geo.perGroup)
  }

  lemma StillMapped(bm: nat, b: nat, words: seq<Words>, words': seq<Words>, a: Books, r: Books, p: nat, k: nat, l: nat, i: nat, v: bool)
    requires k < |a.bits| == |r.bits| && l < |a.bits| && r.geo == a.geo && i < a.geo.perGroup <= 32 * p
    requires MappedAt(bm, words, a, p, k) && MappedAt(b, words, a, p, l) && Taken(r, b) && (l == k <==> b == bm)
    requires r.bits == a.bits[k := a.bits[k][i := v]]
    requires |words'| == |words| && |words'[bm]| == p && Bits(words'[bm]) == Bits(words[bm])[i := v]
    requires b != bm ==> words'[b] == words[b]
    ensures MappedAt(b, words', r, p, l)
  {
  }

  lemma MapSet(bitmaps: seq<nat>, words: seq<Words>, a: Books, p: nat, b: nat, k: nat, i: nat)
    requires Mapped(bitmaps, words, a, p) && Available(a, b) && k == Group(a.geo, b) && i == Index(a.geo, b)
    ensures Mapped(bitmaps, SetIn(words, BitmapOf(bitmaps, k), i, true), Take(a, b), p)
  {
    MapChange(bitmaps, words, a, Take(a, b), p, k, i, true);
  }

  lemma MapClear(bitmaps: seq<nat>, words: seq<Words>, a: Books, p: nat, b: nat, k: nat, i: nat)
    requires Mapped(bitmaps, words, a, p) && Taken(a, b) && b !in bitmaps && k == Group(a.geo, b) && i == Index(a.geo, b)
    ensures Mapped(bitmaps, SetIn(words, BitmapOf(bitmaps, k), i, false), Release(a, b), p)
  {
    MapChange(bitmaps, words, a, Release(a, b), p, k, i, false);
  }

  /** One bit changes, and the bitmaps stay in use. */
  lemma MapChange(bitmaps: seq<nat>, words: seq<Words>, a: Books, r: Books, p: nat, k: nat, i: nat, v: bool)
    requires Mapped(bitmaps, words, a, p) && k < |a.bits| && i < a.geo.perGroup
    requires r.geo == a.geo && r.bits == a.bits[k := a.bits[k][i := v]]
    requires forall b :: b in bitmaps && b in Used(a) ==> b in Used(r)
    ensures Mapped(bitmaps, SetIn(words, BitmapOf(bitmaps, k), i, v), r, p)
  {
    var words' := SetIn(words, bitmaps[k], i, v);
    assert MappedAt(bitmaps[k], words, a, p, k);
    forall l | 0 <= l < |bitmaps|
      ensures MappedAt(bitmaps[l], words', r, p, l)
    {
      assert MappedAt(bitmaps[l], words, a, p, l);
      if l != k { Unequal(bitmaps, k, l); }
      assert bitmaps[l] in Used(a);
      StillMapped(bitmaps[k], bitmaps[l], words, words', a, r, p, k, l, i, v);
    }
  }

  lemma MapOther(bitmaps: seq<nat>, words: seq<Words>, a: Books, p: nat, b: nat, w: Words)
    requires Mapped(bitmaps, words, a, p) && b < |words| && b !in bitmaps
    ensures Mapped(bitmaps, words[b := w], a, p)
  {
    forall l | 0 <= l < |bitmaps|
      ensures MappedAt(bitmaps[l], words[b := w], a, p, l)
    {
      assert MappedAt(bitmaps[l], words, a, p, l);
    }
  }

  /** The bitmaps that a search may read: those of groups whose count is not zero. */
  function Readable(bitmaps: seq<nat>, groupFree: seq<nat>): (r: set<nat>)
  {
    set k | 0 <= k < |bitmaps| && k < |groupFree| && groupFree[k] > 0 :: bitmaps[k]
  }

  // ---------------------------------------------------------------- states

  /** The fields of a mounted file system. */
  datatype State = State(geo: Geometry, bitmaps: seq<nat>, pointers: nat, groupFree: seq<nat>, free: nat,
                         words: seq<Words>, device: seq<Words>, dirty: set<nat>, books: Books, used: iset<nat>)

  /** The fields hold the books, and a block that is not dirty is on the device. */
  ghost predicate IsSound(s: State)
  {
    && s.books.geo == s.geo && s.books.groupFree == s.groupFree && s.books.free == s.free && s.used == Used(s.books)
    && Mapped(s.bitmaps, s.words, s.books, s.pointers)
    && OnDevice(s.words, s.device, s.dirty, s.pointers)
  }

  ghost predicate OnDevice(words: seq<Words>, device: seq<Words>, dirty: set<nat>, p: nat)
  {
    && |device| == |words| && (forall b :: 0 <= b < |words| ==> |words[b]| == p)
    && (forall b :: 0 <= b < |words| && b !in dirty ==> device[b] == words[b])
  }

  lemma DirtyDiffers(words: seq<Words>, device: seq<Words>, dirty: set<nat>, p: nat, b: nat, w: Words)
    requires OnDevice(words, device, dirty, p) && b < |words| && |w| == p
    ensures OnDevice(words[b := w], device, dirty + {b}, p)
  {
  }

  type Sound = s: State | IsSound(s)
    ghost witness State(Layout(0, 1, 0), [], 1, [], 0, [], [], {}, Alloc(Layout(0, 1, 0), [], [], 0), iset{})

  lemma BitmapInUse(s: Sound, k: nat)
    requires k < |s.bitmaps|
    ensures |s.bitmaps| == s.geo.groups && s.bitmaps[k] in s.used && s.bitmaps[k] < |s.words|
    ensures s.geo.perGroup <= 32 * |s.words[s.bitmaps[k]]| && |s.books.bits[k]| == s.geo.perGroup
    ensures forall i :: 0 <= i < s.geo.perGroup ==> s.books.bits[k][i] == IsSet(s.words[s.bitmaps[k]], i)
  {
    assert MappedAt(s.bitmaps[k], s.words, s.books, s.pointers, k);
  }

  /** A block taken, in the bitmap and the counts. */
  ghost function TakenFrom(s: Sound, b: nat, k: nat, i: nat): (r: Sound)
    requires Available(s.books, b) && k == Group(s.geo, b) && i == Index(s.geo, b)
    ensures s.free > 0
  {
    var bm, books := BitmapOf(s.bitmaps, k), Take(s.books, b);
    MapSet(s.bitmaps, s.words, s.books, s.pointers, b, k, i);
    BitChanged(s, bm, i, true);
    s.(groupFree := Bump(s.groupFree, k, false), free := s.free - 1, words := SetIn(s.words, bm, i, true),
       dirty := s.dirty + {bm}, books := books, used := s.used + iset{b})
  }

  lemma BitChanged(s: Sound, bm: nat, i: nat, v: bool)
    ensures OnDevice(SetIn(s.words, bm, i, v), s.device, s.dirty + {bm}, s.pointers)
  {
  }

  lemma NotBitmap(s: Sound, b: nat)
    requires b !in s.used
    ensures b !in s.bitmaps
  {
    forall k | 0 <= k < |s.bitmaps|
      ensures s.bitmaps[k] in s.used
    {
      BitmapInUse(s, k);
    }
  }

  /** A block released. */
  ghost function ReleasedFrom(s: Sound, b: nat, k: nat, i: nat): (r: Sound)
    requires b in s.used && b !in s.bitmaps && k == Group(s.geo, b) && i == Index(s.geo, b)
  {
    var bm, books := BitmapOf(s.bitmaps, k), Release(s.books, b);
    MapClear(s.bitmaps, s.words, s.books, s.pointers, b, k, i);
    BitChanged(s, bm, i, false);
    s.(groupFree := Bump(s.groupFree, k, true), free := s.free + 1, words := SetIn(s.words, bm, i, false),
       dirty := s.dirty + {bm}, books := books, used := s.used - iset{b})
  }

  /** A block that is no bitmap is overwritten, and marked dirty. */
  ghost function StoredFrom(s: Sound, b: nat, w: Words): (r: Sound)
    requires b < |s.words| && |w| == s.pointers && b !in s.bitmaps
    ensures r == s.(words := s.words[b := w], dirty := s.dirty + {b})
  {
    MapOther(s.bitmaps, s.words, s.books, s.pointers, b, w);
    DirtyDiffers(s.words, s.device, s.dirty, s.pointers, b, w);
    s.(words := s.words[b := w], dirty := s.dirty + {b})
  }

  ghost function Bitmaps(bitmaps: seq<nat>): (r: set<nat>)
  {
    set b | b in bitmaps
  }

  /** Nothing but bitmaps has changed. */
  ghost predicate OffBitmaps(bitmaps: seq<nat>, was: seq<Words>, now: seq<Words>)
  {
    |now| == |was| && forall b :: 0 <= b < |was| && b !in bitmaps ==> now[b] == was[b]
  }

  /** A block taken, and filled with zeros. */
  ghost function WipedFrom(s: Sound, b: nat, k: nat, i: nat): (r: Sound)
    requires Available(s.books, b) && b < |s.words| && k == Group(s.geo, b) && i == Index(s.geo, b)
    ensures b !in s.bitmaps && s.free > 0
  {
    NotBitmap(s, b);
    StoredFrom(TakenFrom(s, b, k, i), b, Zeros(s.pointers))
  }

  /** What that means to others. */
  lemma WipeOutcome(s: Sound, b: nat, k: nat, i: nat)
    requires Available(s.books, b) && b < |s.words| && k == Group(s.geo, b) && i == Index(s.geo, b)
    ensures WipedFrom(s, b, k, i).used == s.used + iset{b} && s.dirty + {b} <= WipedFrom(s, b, k, i).dirty
  {
  }

  lemma WipedWords(s: Sound, b: nat, k: nat, i: nat)
    requires Available(s.books, b) && b < |s.words| && k == Group(s.geo, b) && i == Index(s.geo, b)
    ensures OffBitmaps(s.bitmaps, s.words[b := Zeros(s.pointers)], WipedFrom(s, b, k, i).words)
  {
    BitmapInUse(s, k);
  }

  lemma ReadableAfter(s: Sound, b: nat, k: nat, i: nat)
    requires Available(s.books, b) && b < |s.words| && k == Group(s.geo, b) && i == Index(s.geo, b)
    ensures Readable(s.bitmaps, WipedFrom(s, b, k, i).groupFree) <= Readable(s.bitmaps, s.groupFree)
    ensures BitmapOf(s.bitmaps, k) in Readable(s.bitmaps, s.groupFree)
  {
    BitmapInUse(s, k);
    TakeCounted(s.books, b);
    FewerReadable(s.bitmaps, s.groupFree, k);
  }

  lemma FewerReadable(bitmaps: seq<nat>, counts: seq<nat>, k: nat)
    requires k < |bitmaps| && k < |counts| && counts[k] > 0
    ensures Readable(bitmaps, Bump(counts, k, false)) <= Readable(bitmaps, counts) && bitmaps[k] in Readable(bitmaps, counts)
  {
  }

  lemma ReleaseOutcome(s: Sound, b: nat, k: nat, i: nat)
    requires b in s.used && b !in s.bitmaps && k == Group(s.geo, b) && i == Index(s.geo, b)
    ensures var r := ReleasedFrom(s, b, k, i);
            && OffBitmaps(s.bitmaps, s.words, r.words) && r.used == s.used - iset{b} && s.dirty <= r.dirty <= s.dirty + Bitmaps(s.bitmaps)
  {
    BitmapInUse(s, k);
  }

  /** An attempt to take a block: whether it did, the states before and after, the block. */
  datatype Attempt = Attempt(ok: bool, s: Sound, r: Sound, b: nat)

  /** What another sees of it. */
  ghost predicate IsClaim(c: Attempt)
  {
    && c.r.geo == c.s.geo && c.r.bitmaps == c.s.bitmaps && c.r.pointers == c.s.pointers
    && if c.ok then
         && c.b in Volume(c.s.geo) && c.b !in c.s.used && c.b < |c.s.words| && c.b !in c.s.bitmaps
         && c.r.used == c.s.used + iset{c.b} && c.s.dirty + {c.b} <= c.r.dirty
         && OffBitmaps(c.s.bitmaps, c.s.words[c.b := Zeros(c.s.pointers)], c.r.words)
         && Readable(c.s.bitmaps, c.r.groupFree) <= Readable(c.s.bitmaps, c.s.groupFree)
         && BitmapOf(c.s.bitmaps, Group(c.s.geo, c.b)) in Readable(c.s.bitmaps, c.s.groupFree)
       else c.r == c.s.(device := c.r.device)
  }

  type Claim = c: Attempt | IsClaim(c) ghost witness Attempt(false, NoState(), NoState(), 0)

  ghost function NoState(): (s: Sound)
  {
    State(Layout(0, 1, 0), [], 1, [], 0, [], [], {}, Alloc(Layout(0, 1, 0), [], [], 0), iset{})
  }

  /** A block taken, after a read. */
  ghost function Claimed(s: Sound, read: Sound, b: nat, k: nat, i: nat): (c: Claim)
    requires read == s.(device := read.device)
    requires Available(s.books, b) && b < |s.words| && k == Group(s.geo, b) && i == Index(s.geo, b)
  {
    NotBitmap(read, b);
    WipeOutcome(read, b, k, i);
    WipedWords(read, b, k, i);
    ReadableAfter(read, b, k, i);
    SameShape(read, b, k, i);
    Attempt(true, s, WipedFrom(read, b, k, i), b)
  }

  lemma SameShape(s: Sound, b: nat, k: nat, i: nat)
    requires Available(s.books, b) && b < |s.words| && k == Group(s.geo, b) && i == Index(s.geo, b)
    ensures var r := WipedFrom(s, b, k, i); r.geo == s.geo && r.bitmaps == s.bitmaps && r.pointers == s.pointers
  {
  }

  ghost function Unclaimed(s: Sound, r: Sound): (c: Claim)
    requires r == s.(device := r.device)
  {
    Attempt(false, s, r, 0)
  }

  /** What an allocation reports is what happened. */
  ghost predicate Reports(r: Allocated, c: Claim, s: Sound, now: Sound)
  {
    c == Attempt(r.Got?, s, now, if r.Got? then r.block else 0)
  }

  /** A group with a clear bit besides the last, and the block of such a bit. */
  ghost predicate FoundIn(s: Sound, k: nat, b: nat)
  {
    k < s.geo.groups && InVolume(s.geo, b) && Group(s.geo, b) == k && !Filled(s.books, k)
  }

  /** The bitmaps read in vain before group `h` gives a block. */
  function TriedAll(bitmaps: seq<nat>, groupFree: seq<nat>, n: nat): (bs: seq<nat>)
  {
    if n == 0 then [] else TriedAll(bitmaps, groupFree, n - 1) + Tried(bitmaps, groupFree, n - 1)
  }

  ghost function InVain(s: Sound, bg: nat, h: nat): (bs: seq<nat>)
    requires bg < s.geo.groups
  {
    if !Filled(s.books, bg) then [] else Tried(s.bitmaps, s.groupFree, bg) + TriedAll(s.bitmaps, s.groupFree, h)
  }

  /** The group in which the search ends: the one asked for, or the first that is not filled. */
  ghost predicate EndsAt(s: Sound, bg: nat, h: nat)
    requires bg < s.geo.groups
  {
    h < s.geo.groups && !Filled(s.books, h) && if Filled(s.books, bg) then AllFilled(s.books, h) else h == bg
  }

  /** The bitmap that a group's attempt reads in vain, if its count is not zero. */
  function Tried(bitmaps: seq<nat>, groupFree: seq<nat>, k: nat): (bs: seq<nat>)
  {
    if k < |groupFree| && groupFree[k] == 0 then [] else [BitmapOf(bitmaps, k)]
  }

  /** The uses of the cache by an allocation, once the bitmap has been read. */
  function Taking(log: Log, bitmaps: seq<nat>, k: nat, b: nat): (r: Log)
  {
    Touched(Touched(Touched(log, b), BitmapOf(bitmaps, k)), b)
  }

  /** All groups before `k` are filled; `k` is not, and gave block `b`. */
  ghost predicate FoundAfter(s: Sound, k: nat, b: nat, before: Log, now: Log)
  {
    && FoundIn(s, k, b) && AllFilled(s.books, k)
    && now == Taking(Touched(TouchAll(before, TriedAll(s.bitmaps, s.groupFree, k)), BitmapOf(s.bitmaps, k)), s.bitmaps, k, b)
  }

  /** What an allocation did to the cache, from the group `bg` that was asked for. */
  ghost predicate Searched(s: Sound, bg: nat, b: nat, before: Log, now: Log)
  {
    && bg < s.geo.groups && InVolume(s.geo, b) && var h := Group(s.geo, b);
    && EndsAt(s, bg, h)
    && now == Taking(Touched(TouchAll(before, InVain(s, bg, h)), BitmapOf(s.bitmaps, h)), s.bitmaps, h, b)
  }

  lemma SearchedFirst(s: Sound, bg: nat, b: nat, before: Log, now: Log)
    requires FoundIn(s, bg, b) && now == Taking(Touched(before, BitmapOf(s.bitmaps, bg)), s.bitmaps, bg, b)
    ensures Searched(s, bg, b, before, now)
  {
  }

  lemma SearchedAll(s: Sound, bg: nat, b: nat, k: nat, before: Log, mid: Log, now: Log)
    requires bg < s.geo.groups && Filled(s.books, bg) && FoundAfter(s, k, b, mid, now)
    requires mid == TouchAll(before, Tried(s.bitmaps, s.groupFree, bg))
    ensures Searched(s, bg, b, before, now)
  {
    TouchAllConcat(before, Tried(s.bitmaps, s.groupFree, bg), TriedAll(s.bitmaps, s.groupFree, k));
  }

  // ---------------------------------------------------------------- the file system

  class Fs {
    const geo: Geometry
    const bitmaps: seq<nat>
    const pointers: nat
    const sectorsPerBlock: nat
    const readWrite: bool
    var groupFree: seq<nat>
    var free: nat
    var words: seq<Words>
    var device: seq<Words>
    var dirty: set<nat>
    const cacheSize: nat
    ghost var log: Log
    ghost var failures: nat
    ghost var state: Sound

    ghost predicate Valid()
      reads this
    {
      cacheSize >= 2 && state == State(geo, bitmaps, pointers, groupFree, free, words, device, dirty, state.books, state.used)
    }

    /** The blocks in the cache, the most recently used one last. */
    ghost function Recent(): (r: seq<nat>)
      reads this
    {
      Replay(log, cacheSize)
    }

    /** An eviction from the cache, at any time: a dirty block goes to the device, or fails to. */
    method Evict()
      requires Valid()
      modifies this`device, this`state
      ensures Valid() && state == old(state).(device := device)
    {
      var k: nat, junk: Words := *, *;
      if k < |device| && k in dirty { device := device[k := junk]; }
      state := state.(words := words, device := device, dirty := dirty);
    }

    /**
     ext2_block_read: the block is then the one used last.  A failure may have made room for it,
     and is counted.
     */
    method Read(b: nat) returns (ok: bool, w: Words)
      requires Valid()
      modifies this`device, this`state, this`log, this`failures
      ensures Valid() && state == old(state).(device := device)
      ensures ok ==> b < |words| && w == words[b] && log == Touched(old(log), b)
      ensures failures == if ok then old(failures) else old(failures) + 1
    {
      Evict();
      w := [];
      ok := *;
      ok := ok && b < |words|;
      if ok {
        w := words[b];
        log := Touched(log, b);
      } else {
        ghost var emptied: bool := *;
        log, failures := Failed(log, emptied), failures + 1;
      }
    }

    /** An I/O error is reported just when an access has failed. */
    ghost predicate Told(r: Allocated, before: nat)
      reads this
    {
      failures == if r.IoError? then before + 1 else before
    }

    /** ext2_block_read_nc: straight from the device. */
    method ReadUncached(b: nat) returns (ok: bool, w: Words)
      modifies this`failures
      ensures ok ==> b < |device| && w == device[b]
      ensures failures == if ok then old(failures) else old(failures) + 1
    {
      w := [];
      ok := *;
      ok := ok && b < |device|;
      if ok { w := device[b]; } else { failures := failures + 1; }
    }

    /**
     A store through the pointer into the buffer of a cached block.  Were the block not cached
     any more, the store would go into another block.
     */
    method Poke(b: nat, i: nat, v: nat)
      requires Valid() && b in Recent() && b in dirty && b < |words| && i < pointers && b !in bitmaps
      modifies this`words, this`state
      ensures Valid() && words == SetWord(old(words), b, i, v) && state == old(state).(words := words)
    {
      ghost var next := StoredFrom(state, b, words[b][..i] + [v] + words[b][i + 1..]);
      assert dirty + {b} == dirty;
      words := SetWord(words, b, i, v);
      state := next;
    }

    /** Such a store, and ext2_block_mark_dirty. */
    method Store(b: nat, i: nat, v: nat)
      requires Valid() && b in Recent() && b < |words| && i < pointers && b !in bitmaps
      modifies this`words, this`dirty, this`state, this`log
      ensures Valid() && words == SetWord(old(words), b, i, v) && dirty == old(dirty) + {b}
      ensures state == old(state).(words := words, dirty := dirty) && log == Touched(old(log), b)
    {
      ghost var next := StoredFrom(state, b, words[b][..i] + [v] + words[b][i + 1..]);
      words, dirty := SetWord(words, b, i, v), dirty + {b};
      state, log := next, Touched(log, b);
    }

    /**
     Such a store, and ext2_block_mark_dirty of the number that is then read from word `j` of
     `parent`, through the pointer into that block's buffer.
     */
    method StoreVia(parent: nat, j: nat, b: nat, i: nat, v: nat)
      requires Valid() && b in Recent() && b < |words| && i < pointers && b !in bitmaps
      requires parent in Recent() && parent != b && parent < |words| && j < |words[parent]| && words[parent][j] == b
      modifies this`words, this`dirty, this`state, this`log
      ensures Valid() && words == SetWord(old(words), b, i, v) && dirty == old(dirty) + {b}
      ensures state == old(state).(words := words, dirty := dirty) && log == Touched(old(log), b)
    {
      ghost var next := StoredFrom(state, b, words[b][..i] + [v] + words[b][i + 1..]);
      words := SetWord(words, b, i, v);
      var again := words[parent][j];
      dirty := dirty + {again};
      state, log := next, Touched(log, again);
    }

    /** ext2_block_cache_wb. */
    method WriteBack() returns (ok: bool)
      requires Valid()
      modifies this`device, this`dirty, this`state, this`failures
      ensures failures == if ok then old(failures) else old(failures) + 1
      ensures Valid() && state == old(state).(device := device, dirty := dirty) && (ok && (readWrite || old(dirty) == {}) ==> dirty == {})
    {
      Evict();
      ok := *;
      if !ok { failures := failures + 1; }
      if ok && readWrite {
        device, dirty := words, {};
        state := state.(words := words, device := device, dirty := dirty);
      }
    }

    /** mark_block_free, of a block that is in use. */
    method MarkFree(b: nat) returns (ok: bool)
      requires Valid() && b in state.used && b !in bitmaps
      modifies this`groupFree, this`free, this`words, this`device, this`dirty, this`state, this`log, this`failures
      ensures Valid() && OffBitmaps(bitmaps, old(words), words)
      ensures state.used == (if ok then old(state.used) - iset{b} else old(state.used)) && old(dirty) <= dirty <= old(dirty) + Bitmaps(bitmaps)
      ensures failures == if ok then old(failures) else old(failures) + 1
    {
      var k, w := Group(geo, b), [];
      BitmapInUse(state, k);
      ok, w := Read(bitmaps[k]);
      if ok {
        LastUsed(bitmaps[k], old(log));
        ReleaseOutcome(state, b, k, Index(geo, b));
        ReleaseBlock(b, k, Index(geo, b));
      }
    }

    /** The free counts of a group and of the file system go up or down. */
    method Count(k: nat, up: bool)
      requires up || free > 0
      modifies this`groupFree, this`free
      ensures groupFree == Bump(old(groupFree), k, up) && free == if up then old(free) + 1 else old(free) - 1
    {
      groupFree := Bump(groupFree, k, up);
      free := if up then free + 1 else free - 1;
    }

    /** The block used last is in the cache, with nothing above it. */
    lemma LastUsed(b: nat, before: Log)
      requires Valid() && log == Touched(before, b)
      ensures OnTop(b)
    {
      ReplayOrder(before, cacheSize);
      UseOrder(Replay(before, cacheSize), b, cacheSize);
    }

    ghost predicate OnTop(b: nat)
      reads this
    {
      b in Recent() && Above(Recent(), b) == {}
    }

    /** A block used before another one is still there, since the cache has two entries. */
    lemma UsedBefore(x: nat, b: nat, before: Log)
      requires Valid() && log == Touched(before, b) && x != b
      requires x in Replay(before, cacheSize) && Above(Replay(before, cacheSize), x) == {}
      ensures x in Recent() && Above(Recent(), x) == {b}
    {
      ReplayOrder(before, cacheSize);
      UsedOnce(Replay(before, cacheSize), x, b, cacheSize);
      assert {} + {b} == {b};
    }

    /** The bitmap's buffer is still good when the block has been read. */
    lemma BothHeld(b: nat, k: nat, before: Log)
      requires Valid() && log == Touched(before, b) && Available(state.books, b) && k < geo.groups
      requires BitmapOf(bitmaps, k) in Replay(before, cacheSize) && Above(Replay(before, cacheSize), BitmapOf(bitmaps, k)) == {}
      ensures OnTop(b) && BitmapOf(bitmaps, k) in Recent()
    {
      BitmapInUse(state, k);
      LastUsed(b, before);
      UsedBefore(BitmapOf(bitmaps, k), b, before);
    }

    /** A bit is changed through the buffer of a cached block, which is then marked dirty. */
    method MarkBit(b: nat, i: nat, v: bool)
      requires b in Recent()
      modifies this`words, this`dirty, this`log
      ensures words == SetIn(old(words), b, i, v) && dirty == old(dirty) + {b} && log == Touched(old(log), b)
    {
      words, dirty := SetIn(words, b, i, v), dirty + {b};
      log := Touched(log, b);
    }

    /** A bit of group `k`'s bitmap, and the counts. */
    method MarkAndCount(k: nat, i: nat, v: bool)
      requires BitmapOf(bitmaps, k) in Recent() && (v ==> free > 0)
      modifies this`groupFree, this`free, this`words, this`dirty, this`log
      ensures groupFree == Bump(old(groupFree), k, !v) && free == (if v then old(free) - 1 else old(free) + 1)
      ensures words == SetIn(old(words), BitmapOf(bitmaps, k), i, v) && dirty == old(dirty) + {BitmapOf(bitmaps, k)}
      ensures log == Touched(old(log), BitmapOf(bitmaps, k))
    {
      MarkBit(BitmapOf(bitmaps, k), i, v);
      Count(k, !v);
    }

    method ReleaseBlock(b: nat, k: nat, i: nat)
      requires Valid() && b in state.used && b !in bitmaps && k == Group(geo, b) && i == Index(geo, b)
      requires BitmapOf(bitmaps, k) in Recent()
      modifies this`groupFree, this`free, this`words, this`dirty, this`state, this`log
      ensures Valid() && state == ReleasedFrom(old(state), b, k, i)
    {
      ghost var next := ReleasedFrom(state, b, k, i);
      MarkAndCount(k, i, false);
      state := next;
    }

    /** The bit and the counts of a block that is taken. */
    method TakeBit(b: nat, k: nat, i: nat)
      requires Valid() && Available(state.books, b) && k == Group(geo, b) && i == Index(geo, b)
      requires BitmapOf(bitmaps, k) in Recent()
      modifies this`groupFree, this`free, this`words, this`dirty, this`state, this`log
      ensures Valid() && state == TakenFrom(old(state), b, k, i) && log == Touched(old(log), BitmapOf(bitmaps, k))
    {
      ghost var next := TakenFrom(state, b, k, i);
      MarkAndCount(k, i, true);
      state := next;
    }

    /** A block is filled with zeros through its buffer and marked dirty. */
    method Wipe(b: nat)
      requires Valid() && b in Recent() && b < |words| && b !in bitmaps
      modifies this`words, this`dirty, this`state, this`log
      ensures Valid() && state == StoredFrom(old(state), b, Zeros(pointers)) && log == Touched(old(log), b)
    {
      ghost var next := StoredFrom(state, b, Zeros(pointers));
      words, dirty := words[b := Zeros(pointers)], dirty + {b};
      state, log := next, Touched(log, b);
    }

    /**
     A block that has just been read is taken; its bitmap, whose buffer has been in hand since
     before that, and it are marked dirty.
     */
    method TakeBlock(b: nat, k: nat, i: nat)
      requires Valid() && Available(state.books, b) && b < |words| && k == Group(geo, b) && i == Index(geo, b)
      requires OnTop(b) && BitmapOf(bitmaps, k) in Recent()
      modifies this`groupFree, this`free, this`words, this`dirty, this`state, this`log
      ensures Valid() && b !in bitmaps && state == WipedFrom(old(state), b, k, i)
      ensures log == Touched(Touched(old(log), BitmapOf(bitmaps, k)), b)
    {
      NotBitmap(state, b);
      BitmapInUse(state, k);
      ghost var before := log;
      TakeBit(b, k, i);
      UsedBefore(b, BitmapOf(bitmaps, k), before);
      Wipe(b);
    }

    /** One group's attempt at an allocation.  It reads the bitmap only if the count is not zero. */
    method TryGroup(k: nat) returns (r: Allocated, ghost c: Claim)
      requires Valid() && k < geo.groups
      modifies this`groupFree, this`free, this`words, this`device, this`dirty, this`state, this`log, this`failures
      ensures Valid() && !r.ReadOnly? && Reports(r, c, old(state), state) && Told(r, old(failures))
      ensures r.Got? ==> FoundIn(old(state), k, r.block) && log == Taking(Touched(old(log), BitmapOf(bitmaps, k)), bitmaps, k, r.block)
      ensures r.NoSpace? ==> Filled(state.books, k) && log == TouchAll(old(log), Tried(bitmaps, groupFree, k))
    {
      if groupFree[k] == 0 {
        NoClearBit(state.books.bits[k]);
        r, c := NoSpace, Unclaimed(state, state);
      } else {
        r, c := SearchGroup(k);
      }
    }

    method SearchGroup(k: nat) returns (r: Allocated, ghost c: Claim)
      requires Valid() && k < geo.groups && groupFree[k] != 0
      modifies this`groupFree, this`free, this`words, this`device, this`dirty, this`state, this`log, this`failures
      ensures Valid() && !r.ReadOnly? && Reports(r, c, old(state), state) && Told(r, old(failures))
      ensures r.Got? ==> FoundIn(old(state), k, r.block) && log == Taking(Touched(old(log), BitmapOf(bitmaps, k)), bitmaps, k, r.block)
      ensures r.NoSpace? ==> Filled(state.books, k) && groupFree[k] != 0 && log == Touched(old(log), BitmapOf(bitmaps, k))
    {
      ghost var s := state;
      var ok, w := Read(BitmapOf(bitmaps, k));
      r, c := IoError, Unclaimed(s, state);
      if ok {
        LastUsed(BitmapOf(bitmaps, k), old(log));
        r, c := SearchBitmap(k, w, s);
      }
    }

    method SearchBitmap(k: nat, w: Words, ghost s: Sound) returns (r: Allocated, ghost c: Claim)
      requires Valid() && k < geo.groups && state == s.(device := device)
      requires BitmapOf(bitmaps, k) < |words| && w == words[BitmapOf(bitmaps, k)] && OnTop(BitmapOf(bitmaps, k))
      modifies this`groupFree, this`free, this`words, this`device, this`dirty, this`state, this`log, this`failures
      ensures Valid() && !r.ReadOnly? && Reports(r, c, s, state) && Told(r, old(failures))
      ensures r.Got? ==> FoundIn(s, k, r.block) && log == Taking(old(log), bitmaps, k, r.block)
      ensures r.NoSpace? ==> Filled(state.books, k) && groupFree == old(groupFree) && log == old(log)
    {
      BitmapInUse(state, k);
      var index := FindZero(w, 0, geo.perGroup - 1);
      if index < geo.perGroup {
        r, c := TakeFound(k, index, s);
      } else {
        r, c := NoSpace, Unclaimed(s, state);
      }
    }

    /** The block of a clear bit is read, and taken. */
    method TakeFound(k: nat, index: nat, ghost s: Sound) returns (r: Allocated, ghost c: Claim)
      requires Valid() && k < geo.groups && index < geo.perGroup && state == s.(device := device) && !s.books.bits[k][index]
      requires OnTop(BitmapOf(bitmaps, k))
      modifies this`groupFree, this`free, this`words, this`device, this`dirty, this`state, this`log, this`failures
      ensures Valid() && (r.Got? || r.IoError?) && Reports(r, c, s, state) && Told(r, old(failures))
      ensures r.Got? ==> r.block == BlockNumber(geo, k, index) && log == Taking(old(log), bitmaps, k, r.block)
    {
      var b := BlockNumber(geo, k, index);
      var ok, w := Read(b);
      r, c := IoError, Unclaimed(s, state);
      if ok {
        BothHeld(b, k, old(log));
        c := Claimed(s, state, b, k, index);
        TakeBlock(b, k, index);
        r := Got(b);
      }
    }

    /**
     ext2_block_alloc: the group asked for, then all of them in turn.  The search stops short
     of the last bit of a group, so that one may still be free when there is no space, and the
     bitmap of such a group is read in vain.
     */
    method BlockAlloc(bg: nat) returns (r: Allocated, ghost c: Claim)
      requires Valid() && bg < geo.groups
      modifies this`groupFree, this`free, this`words, this`device, this`dirty, this`state, this`log, this`failures
      ensures Valid() && (r.ReadOnly? <==> !readWrite) && Reports(r, c, old(state), state) && Told(r, old(failures))
      ensures r.Got? ==> Searched(old(state), bg, r.block, old(log), log)
      ensures r.NoSpace? ==> AllFilled(state.books, geo.groups)
    {
      c := Unclaimed(state, state);
      if !readWrite { return ReadOnly, c; }
      if free == 0 {
        NoneFree(state.books);
        return NoSpace, c;
      }
      r, c := SearchFrom(bg);
    }

    method SearchFrom(bg: nat) returns (r: Allocated, ghost c: Claim)
      requires Valid() && bg < geo.groups
      modifies this`groupFree, this`free, this`words, this`device, this`dirty, this`state, this`log, this`failures
      ensures Valid() && !r.ReadOnly? && Reports(r, c, old(state), state) && Told(r, old(failures))
      ensures r.Got? ==> Searched(old(state), bg, r.block, old(log), log)
      ensures r.NoSpace? ==> AllFilled(state.books, geo.groups)
    {
      ghost var s, l := state, log;
      r, c := TryGroup(bg);
      if r.Got? { SearchedFirst(s, bg, r.block, l, log); }
      if r.NoSpace? { r, c := SearchOn(bg, s, l); }
    }

    method SearchOn(bg: nat, ghost s: Sound, ghost l: Log) returns (r: Allocated, ghost c: Claim)
      requires Valid() && bg < geo.groups && state == s.(device := device) && Filled(s.books, bg)
      requires log == TouchAll(l, Tried(bitmaps, s.groupFree, bg))
      modifies this`groupFree, this`free, this`words, this`device, this`dirty, this`state, this`log, this`failures
      ensures Valid() && !r.ReadOnly? && Reports(r, c, s, state) && Told(r, old(failures))
      ensures r.Got? ==> Searched(s, bg, r.block, l, log)
      ensures r.NoSpace? ==> AllFilled(state.books, geo.groups)
    {
      ghost var mid, k := log, 0;
      r, c, k := TryAll(s);
      if r.Got? { SearchedAll(s, bg, r.block, k, l, mid, log); }
    }

    /** The next group of the search through all of them. */
    method TryNext(k: nat, ghost s: Sound, ghost l: Log) returns (r: Allocated, ghost c: Claim)
      requires Valid() && state == s.(device := device) && k < geo.groups && AllFilled(s.books, k)
      requires log == TouchAll(l, TriedAll(bitmaps, s.groupFree, k))
      modifies this`groupFree, this`free, this`words, this`device, this`dirty, this`state, this`log, this`failures
      ensures Valid() && !r.ReadOnly? && Reports(r, c, s, state) && Told(r, old(failures))
      ensures r.NoSpace? ==> AllFilled(s.books, k + 1) && log == TouchAll(l, TriedAll(bitmaps, s.groupFree, k + 1))
      ensures r.Got? ==> FoundAfter(s, k, r.block, l, log)
    {
      ghost var before := state;
      r, c := TryGroup(k);
      c := Attempt(c.ok, s, c.r, c.b);
      if r.NoSpace? {
        OneMoreFilled(s.books, k);
        TouchAllConcat(l, TriedAll(bitmaps, s.groupFree, k), Tried(bitmaps, s.groupFree, k));
      }
    }

    method TryAll(ghost s: Sound) returns (r: Allocated, ghost c: Claim, ghost h: nat)
      requires Valid() && state == s.(device := device)
      modifies this`groupFree, this`free, this`words, this`device, this`dirty, this`state, this`log, this`failures
      ensures Valid() && !r.ReadOnly? && Reports(r, c, s, state) && Told(r, old(failures))
      ensures r.Got? ==> FoundAfter(s, h, r.block, old(log), log)
      ensures r.NoSpace? ==> AllFilled(s.books, geo.groups)
    {
      r, c := NoSpace, Unclaimed(s, state);
      ghost var l := log;
      var k := 0;
      while r.NoSpace? && k < geo.groups
        invariant k <= geo.groups && Valid() && !r.ReadOnly? && Reports(r, c, s, state) && Told(r, old(failures))
        invariant r.NoSpace? ==> AllFilled(s.books, k) && log == TouchAll(l, TriedAll(bitmaps, s.groupFree, k))
        invariant r.Got? ==> k > 0 && FoundAfter(s, k - 1, r.block, l, log)
      {
        r, c := TryNext(k, s, l);
        k := k + 1;
      }
      h := if k > 0 then k - 1 else 0;
    }
  }
}
