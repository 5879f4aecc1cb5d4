/**
 How long a pointer into a cached block is good across an allocation.  `ext2_block_alloc` may
 read many bitmaps before it finds a block: those of all groups of which only the last bit is
 clear, since it never takes that bit and their counts stay nonzero.
 */
module Ext2Held {
  import opened Recency
  import opened Ext2Volume
  import opened Ext2Fs

  /** The blocks that an allocation uses. */
  ghost function Touches(s: Sound, bg: nat, b: nat): (r: set<nat>)
    requires bg < s.geo.groups && InVolume(s.geo, b)
  {
    Elements(InVain(s, bg, Group(s.geo, b))) + {BitmapOf(s.bitmaps, Group(s.geo, b)), b}
  }

  /**
   A buffer in hand is still good after an allocation just when the blocks used since it was
   read, those of the allocation among them, are fewer than the cache has entries.
   */
  lemma HeldThrough(s: Sound, bg: nat, b: nat, before: Log, now: Log, x: nat, cap: nat)
    requires Searched(s, bg, b, before, now) && 0 < cap && x in Replay(before, cap) && x !in Touches(s, bg, b)
    ensures x in Replay(now, cap) <==> |Above(Replay(before, cap), x) + Touches(s, bg, b)| < cap
    ensures x in Replay(now, cap) ==> Above(Replay(now, cap), x) == Above(Replay(before, cap), x) + Touches(s, bg, b)
  {
    var h := Group(s.geo, b);
    var vain, bm := InVain(s, bg, h), BitmapOf(s.bitmaps, h);
    LogOf(before, vain, bm, b);
    HeldAfter(before, vain + [bm, b, bm, b], Touches(s, bg, b), x, cap);
  }

  lemma HeldAfter(before: Log, bs: seq<nat>, used: set<nat>, x: nat, cap: nat)
    requires 0 < cap && x in Replay(before, cap) && x !in used && Elements(bs) == used
    ensures x in Replay(TouchAll(before, bs), cap) <==> |Above(Replay(before, cap), x) + used| < cap
    ensures x in Replay(TouchAll(before, bs), cap) ==> Above(Replay(TouchAll(before, bs), cap), x) == Above(Replay(before, cap), x) + used
  {
    ReplayAll(before, bs, cap);
    ReplayOrder(before, cap);
    UsedSince(Replay(before, cap), x, bs, cap);
  }

  lemma LogOf(before: Log, vain: seq<nat>, bm: nat, b: nat)
    ensures TouchAll(before, vain + [bm, b, bm, b]) == Touched(Touched(Touched(Touched(TouchAll(before, vain), bm), b), bm), b)
  {
    TouchAllConcat(before, vain, [bm, b, bm, b]);
    var l := TouchAll(before, vain);
    assert [bm, b, bm, b][..3] == [bm, b, bm] && [bm, b, bm][..2] == [bm, b] && [bm, b][..1] == [bm] && [bm][..0] == [];
    assert TouchAll(l, [bm]) == Touched(l, bm);
    assert TouchAll(l, [bm, b]) == Touched(Touched(l, bm), b);
    assert TouchAll(l, [bm, b, bm]) == Touched(Touched(Touched(l, bm), b), bm);
  }

  // ---------------------------------------------------------------- how many blocks

  lemma {:induction false} TriedReadable(bitmaps: seq<nat>, groupFree: seq<nat>, n: nat)
    requires n <= |bitmaps| == |groupFree|
    ensures Elements(TriedAll(bitmaps, groupFree, n)) <= Readable(bitmaps, groupFree)
  {
    if n > 0 {
      TriedReadable(bitmaps, groupFree, n - 1);
      assert groupFree[n - 1] > 0 ==> bitmaps[n - 1] in Readable(bitmaps, groupFree);
    }
  }

  /** At most the bitmaps of groups with a count, and the block. */
  lemma TouchesBounded(s: Sound, bg: nat, b: nat)
    requires bg < s.geo.groups && InVolume(s.geo, b) && BitmapOf(s.bitmaps, Group(s.geo, b)) in Readable(s.bitmaps, s.groupFree)
    ensures Touches(s, bg, b) <= Readable(s.bitmaps, s.groupFree) + {b}
  {
    BitmapInUse(s, bg);
    TriedReadable(s.bitmaps, s.groupFree, Group(s.geo, b));
    assert s.groupFree[bg] > 0 ==> s.bitmaps[bg] in Readable(s.bitmaps, s.groupFree);
  }

  /** When the first `n` groups all have a count, all their bitmaps are read. */
  lemma {:induction false} TriedIs(bitmaps: seq<nat>, groupFree: seq<nat>, n: nat)
    requires n <= |bitmaps| == |groupFree| && forall k :: 0 <= k < n ==> groupFree[k] > 0
    ensures TriedAll(bitmaps, groupFree, n) == bitmaps[..n]
  {
    if n > 0 {
      TriedIs(bitmaps, groupFree, n - 1);
      assert bitmaps[..n] == bitmaps[..n - 1] + [bitmaps[n - 1]];
    }
  }

  lemma {:induction false} NoDupCount(r: seq<nat>, n: nat)
    requires NoDup(r) && n <= |r|
    ensures |Elements(r[..n])| == n
  {
    if n == 0 {
      assert Elements(r[..0]) == {};
    } else {
      NoDupCount(r, n - 1);
      assert r[..n] == r[..n - 1] + [r[n - 1]];
      forall k | 0 <= k < n - 1
        ensures r[k] != r[n - 1]
      {
        NoDupAt(r, k, n - 1);
      }
      assert Elements(r[..n]) == Elements(r[..n - 1]) + {r[n - 1]};
    }
  }

  /**
   The failing state: with `h` groups filled up to their last bit before the one that gives a
   block, the one asked for among them, a buffer in hand is lost to a cache of `cap` entries
   just when `h + 2`, and the blocks read since that buffer was, are as many as the entries.
   */
  lemma LostAfterFilledGroups(s: Sound, bg: nat, b: nat, before: Log, now: Log, x: nat, since: set<nat>, cap: nat)
    requires Searched(s, bg, b, before, now) && 0 < cap && bg < Group(s.geo, b)
    requires forall k :: 0 <= k < Group(s.geo, b) ==> s.groupFree[k] > 0
    requires x in Replay(before, cap) && Above(Replay(before, cap), x) == since && x !in s.bitmaps && x != b && b !in s.bitmaps
    requires forall y :: y in since ==> y !in s.bitmaps && y != b
    ensures x !in Replay(now, cap) <==> Group(s.geo, b) + 2 + |since| >= cap
  {
    var h := Group(s.geo, b);
    FilledTouches(s, bg, b, h);
    HeldThrough(s, bg, b, before, now, x, cap);
    assert |since + Touches(s, bg, b)| == |since| + (h + 2);
  }

  /**
   Of the two buffers that an append holds, the pointer block's and its parent's, the parent's
   goes one group earlier.
   */
  lemma LostBuffers(s: Sound, bg: nat, b: nat, before: Log, now: Log, x: nat, parent: nat, cap: nat)
    requires Searched(s, bg, b, before, now) && 0 < cap && bg < Group(s.geo, b)
    requires forall k :: 0 <= k < Group(s.geo, b) ==> s.groupFree[k] > 0
    requires x in Replay(before, cap) && Above(Replay(before, cap), x) == {} && x !in s.bitmaps && x != b && b !in s.bitmaps
    requires parent in Replay(before, cap) && Above(Replay(before, cap), parent) == {x} && parent !in s.bitmaps && parent != b
    ensures x !in Replay(now, cap) <==> Group(s.geo, b) + 2 >= cap
    ensures parent !in Replay(now, cap) <==> Group(s.geo, b) + 3 >= cap
  {
    LostAfterFilledGroups(s, bg, b, before, now, x, {}, cap);
    LostAfterFilledGroups(s, bg, b, before, now, parent, {x}, cap);
  }

  /**
   With just that many groups, the parent is the oldest block when the new block is read, so
   that its buffer is the one that comes to hold the new block.
   */
  lemma ParentGivesWay(s: Sound, bg: nat, b: nat, before: Log, now: Log, x: nat, parent: nat, mid: Log, cap: nat)
    requires Searched(s, bg, b, before, now) && 0 < cap && bg < Group(s.geo, b) && Group(s.geo, b) + 3 == cap
    requires forall k :: 0 <= k < Group(s.geo, b) ==> s.groupFree[k] > 0
    requires parent in Replay(before, cap) && Above(Replay(before, cap), parent) == {x} && parent !in s.bitmaps && parent != b
    requires x !in s.bitmaps && x != b && b !in s.bitmaps
    requires mid == Touched(TouchAll(before, InVain(s, bg, Group(s.geo, b))), BitmapOf(s.bitmaps, Group(s.geo, b)))
    ensures |Replay(mid, cap)| == cap && Replay(mid, cap)[0] == parent && parent !in Replay(Touched(mid, b), cap)
  {
    var h := Group(s.geo, b);
    var bs := InVain(s, bg, h) + [BitmapOf(s.bitmaps, h)];
    assert bs[..|bs| - 1] == InVain(s, bg, h);
    BitmapsRead(s, bg, b, h, Elements(bs));
    HeldAfter(before, bs, Elements(bs), parent, cap);
    ReplayOrder(mid, cap);
    assert |{x} + Elements(bs)| == 1 + |Elements(bs)|;
    Oldest(Replay(mid, cap), parent, cap);
    UsedOnce(Replay(mid, cap), parent, b, cap);
    assert |{x} + Elements(bs) + {b}| == 2 + |Elements(bs)|;
  }

  /** The bitmaps that are read, the last one among them. */
  lemma BitmapsRead(s: Sound, bg: nat, b: nat, h: nat, read: set<nat>)
    requires bg < h < s.geo.groups && InVolume(s.geo, b) && h == Group(s.geo, b) && b !in s.bitmaps
    requires Filled(s.books, bg) && forall k :: 0 <= k < h ==> s.groupFree[k] > 0
    requires read == Elements(InVain(s, bg, h) + [BitmapOf(s.bitmaps, h)])
    ensures |read| == h + 1 && forall y :: y in read ==> y in s.bitmaps
  {
    BitmapInUse(s, bg);
    FilledTouches(s, bg, b, h);
    FilledUses(s.bitmaps, s.groupFree, bg, h, b);
    assert Touches(s, bg, b) == read + {b};
  }

  /** A block with all the others above it is the first. */
  lemma Oldest(r: seq<nat>, x: nat, cap: nat)
    requires Order(r, cap) && x in r && |Above(r, x)| == cap - 1
    ensures |r| == cap && r[0] == x
  {
    AboveIs(r, x);
    if r[0] != x { FirstBelow(r, x); }
  }

  lemma FilledTouches(s: Sound, bg: nat, b: nat, h: nat)
    requires bg < h < s.geo.groups && InVolume(s.geo, b) && h == Group(s.geo, b) && b !in s.bitmaps
    requires Filled(s.books, bg) && forall k :: 0 <= k < h ==> s.groupFree[k] > 0
    ensures |Touches(s, bg, b)| == h + 2 && forall x :: x in Touches(s, bg, b) ==> x == b || x in s.bitmaps
  {
    BitmapInUse(s, bg);
    FilledUses(s.bitmaps, s.groupFree, bg, h, b);
  }

  lemma FilledUses(bitmaps: seq<nat>, groupFree: seq<nat>, bg: nat, h: nat, b: nat)
    requires NoDup(bitmaps) && bg < h < |bitmaps| == |groupFree| && b !in bitmaps && forall k :: 0 <= k < h ==> groupFree[k] > 0
    ensures var used := Elements(Tried(bitmaps, groupFree, bg) + TriedAll(bitmaps, groupFree, h)) + {bitmaps[h], b};
            |used| == h + 2 && forall x :: x in used ==> x == b || x in bitmaps
    ensures b !in Elements(Tried(bitmaps, groupFree, bg) + TriedAll(bitmaps, groupFree, h))
  {
    TriedIs(bitmaps, groupFree, h);
    NoDupCount(bitmaps, h);
    NotBefore(bitmaps, h);
    var all := Elements(bitmaps[..h]);
    assert bitmaps[bg] == bitmaps[..h][bg];
    assert Elements(Tried(bitmaps, groupFree, bg) + TriedAll(bitmaps, groupFree, h)) == all;
    assert all + {bitmaps[h], b} == all + {bitmaps[h]} + {b};
  }

  lemma NotBefore(r: seq<nat>, h: nat)
    requires NoDup(r) && h < |r|
    ensures r[h] !in Elements(r[..h])
  {
    forall k | 0 <= k < h
      ensures r[k] != r[h]
    {
      NoDupAt(r, k, h);
    }
  }
}
