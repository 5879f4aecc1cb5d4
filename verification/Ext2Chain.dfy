/**
 Allocations as steps: what one call of `ext2_block_alloc` takes, and how long the buffers in
 hand are good across it.
 */
module Ext2Chain {
  import opened Recency
  import opened Ext2Volume
  import opened Ext2Fs
  import opened Ext2Held
  import opened Ext2Append

  /** What a file sees of a file system. */
  ghost function DiskOf(s: Sound): (d: Disk)
  {
    Disk(Volume(s.geo), s.used, s.words, s.bitmaps, Readable(s.bitmaps, s.groupFree), s.dirty)
  }

  ghost function NoTaking(c: Claim): (t: Taking)
    requires !c.ok
    ensures t.was == DiskOf(c.s) && t.now == DiskOf(c.r) && t.chain == [] && t.p == c.s.pointers
  {
    Step(DiskOf(c.s), DiskOf(c.r), [], c.s.pointers, Empty, Empty, [])
  }

  /** The blocks used by an allocation, in order. */
  ghost function Through(s: Sound, bg: nat, b: nat): (bs: seq<nat>)
    requires bg < s.geo.groups && InVolume(s.geo, b)
  {
    var h := Group(s.geo, b);
    InVain(s, bg, h) + [BitmapOf(s.bitmaps, h), b, BitmapOf(s.bitmaps, h), b]
  }

  lemma ThroughIs(c: Claim, bg: nat, before: Log, now: Log)
    requires c.ok && Searched(c.s, bg, c.b, before, now)
    ensures now == TouchAll(before, Through(c.s, bg, c.b))
    ensures Elements(Through(c.s, bg, c.b)) <= Readable(c.s.bitmaps, c.s.groupFree) + {c.b}
  {
    var h := Group(c.s.geo, c.b);
    LogOf(before, InVain(c.s, bg, h), BitmapOf(c.s.bitmaps, h), c.b);
    TouchesBounded(c.s, bg, c.b);
    assert Elements(Through(c.s, bg, c.b)) == Touches(c.s, bg, c.b);
  }

  /** One block taken. */
  ghost function OneTaking(c: Claim, bg: nat, before: Log, now: Log): (t: Taking)
    requires c.ok && Searched(c.s, bg, c.b, before, now) && NullKept(DiskOf(c.s))
  {
    ThroughIs(c, bg, before, now);
    var t := Step(DiskOf(c.s), DiskOf(c.r), [c.b], c.s.pointers, before, now, Through(c.s, bg, c.b));
    OneFresh(c);
    OneWords(c);
    TakingIs(t, c.b);
    t
  }

  lemma TakingIs(t: Step, b: nat)
    requires t.chain == [b] && b != 0 && b in t.was.volume && b !in t.was.used && b !in t.was.bitmaps
    requires t.now.volume == t.was.volume && t.now.bitmaps == t.was.bitmaps && |t.now.words| == |t.was.words|
    requires t.now.used == t.was.used + iset{b} && t.was.dirty <= t.now.dirty && t.now.readable <= t.was.readable
    requires forall x :: x in Keeps(t.was) && x < |t.was.words| ==> t.now.words[x] == t.was.words[x]
    requires t.after == TouchAll(t.before, t.through) && Elements(t.through) <= t.was.readable + {b}
    ensures IsTaking(t)
  {
    OneSucceeded(t, b);
  }

  lemma OneFresh(c: Claim)
    requires c.ok && NullKept(DiskOf(c.s))
    ensures var was, now := DiskOf(c.s), DiskOf(c.r);
            && c.b != 0 && c.b in was.volume && c.b !in was.used && c.b !in was.bitmaps && c.b in now.dirty
            && now.volume == was.volume && now.bitmaps == was.bitmaps && |now.words| == |was.words|
            && now.used == was.used + iset{c.b} && was.dirty <= now.dirty && now.readable <= was.readable
  {
  }

  lemma OneSucceeded(t: Step, b: nat)
    requires t.chain == [b] && b != 0 && t.now.used == t.was.used + iset{b} && t.now.readable <= t.was.readable
    requires t.after == TouchAll(t.before, t.through) && Elements(t.through) <= t.was.readable + {b}
    ensures Succeeded(t) && NoDup(t.chain)
  {
    assert (iset x | x in t.chain) == iset{b};
    assert Elements(t.chain) == {b};
    assert NoDup([b][..0]);
  }

  lemma OneWords(c: Claim)
    requires c.ok
    ensures forall b :: b in Keeps(DiskOf(c.s)) && b < |c.s.words| ==> c.r.words[b] == c.s.words[b]
    ensures c.b < |c.r.words| == |c.s.words| && c.r.words[c.b] == Zeros(c.s.pointers)
  {
  }

  /** The block that was taken is the one used last. */
  lemma OneOnTop(c: Claim, bg: nat, before: Log, now: Log, cap: nat)
    requires c.ok && Searched(c.s, bg, c.b, before, now) && 0 < cap
    ensures c.b in Replay(now, cap) && Above(Replay(now, cap), c.b) == {}
  {
    ReplayOrder(now.log, cap);
    UseOrder(Replay(now.log, cap), c.b, cap);
  }

  /**
   A block used before a chain is taken is still cached after it, when the cache has more
   entries than the bitmaps that may be read, the blocks of the chain and the blocks used since
   together.
   */
  lemma BufferHeld(t: Taking, x: nat, since: set<nat>, cap: nat)
    requires t.chain != [] && |t.was.readable| + |t.chain| + |since| < cap
    requires x in Replay(t.before, cap) && Above(Replay(t.before, cap), x) == since
    requires x !in t.was.readable && x !in t.chain
    ensures x in Replay(t.after, cap)
  {
    ReplayAll(t.before, t.through, cap);
    ReplayOrder(t.before, cap);
    assert x !in t.through by { assert x !in Elements(t.through); }
    ThroughFew(t);
    UnionFew(since, Elements(t.through));
    UsedSince(Replay(t.before, cap), x, t.through, cap);
  }

  lemma ThroughFew(t: Taking)
    requires t.chain != []
    ensures |Elements(t.through)| <= |t.was.readable| + |t.chain|
  {
    ElementsFew(t.chain);
    Larger(Elements(t.through), t.was.readable + Elements(t.chain));
    UnionFew(t.was.readable, Elements(t.chain));
  }

  lemma {:induction false} ElementsFew(s: seq<nat>)
    ensures |Elements(s)| <= |s|
  {
    if s == [] {
      assert Elements(s) == {};
    } else {
      var front, last := s[..|s| - 1], s[|s| - 1];
      ElementsFew(front);
      assert s == front + [last];
      assert Elements(s) == Elements(front) + {last};
    }
  }

  lemma UnionFew(a: set<nat>, b: set<nat>)
    ensures |a + b| <= |a| + |b|
  {
    assert a + b == a + (b - a);
    Larger(b - a, b);
  }

  /** Enough entries in the cache for the bitmaps that may be read, and for the blocks of a chain. */
  ghost predicate Roomy(d: Disk, cap: nat)
  {
    |d.readable| + 3 < cap
  }

  lemma OneLeaves(c: Claim, t: Taking, cap: nat)
    requires c.ok && t.was == DiskOf(c.s) && t.now == DiskOf(c.r) && NullKept(t.was) && Roomy(t.was, cap)
    ensures NullKept(t.now) && Roomy(t.now, cap) && c.b < |t.was.words| && t.now.words[c.b] == Zeros(c.s.pointers) && c.b in t.now.dirty
    ensures t.now.readable <= Bitmaps(t.now.bitmaps)
  {
    OneFresh(c);
    OneWords(c);
    Larger(t.now.readable, t.was.readable);
  }

  /** A block that is given back: nothing has been taken. */
  ghost function GivenBack(one: Taking, low: Taking, s: Sound, r: Sound, b: nat, ok: bool): (t: Taking)
    requires one.chain == [b] && low.was == one.now && low.now == DiskOf(s) && low.chain == []
    requires r.geo == s.geo && r.bitmaps == s.bitmaps && OffBitmaps(s.bitmaps, s.words, r.words) && s.dirty <= r.dirty
    requires r.used == if ok then s.used - iset{b} else s.used
    ensures t == Step(one.was, DiskOf(r), [], one.p, Empty, Empty, [])
  {
    assert b in one.chain;
    BackWords(one, low, s, r);
    Step(one.was, DiskOf(r), [], one.p, Empty, Empty, [])
  }

  lemma BackWords(one: Taking, low: Taking, s: Sound, r: Sound)
    requires low.was == one.now && low.now == DiskOf(s) && OffBitmaps(s.bitmaps, s.words, r.words)
    ensures forall x :: x in Keeps(one.was) && x < |one.was.words| ==> r.words[x] == one.was.words[x]
  {
    forall x | x in Keeps(one.was) && x < |one.was.words|
      ensures r.words[x] == one.was.words[x]
    {
      assert x in Keeps(one.now);
    }
  }

  /** The buffer of a new pointer block is still good when the blocks below it have been taken. */
  lemma Upheld(one: Taking, low: Taking, b: nat, cap: nat)
    requires one.chain == [b] && low.was == one.now && low.chain != [] && |low.chain| <= 3 && low.before == one.after
    requires Roomy(one.now, cap) && b in one.now.dirty && b < |one.was.words|
    requires b in Replay(one.after, cap) && Above(Replay(one.after, cap), b) == {}
    requires one.now.readable <= Bitmaps(one.now.bitmaps)
    ensures b in Replay(low.after, cap) && b in low.now.dirty && b !in low.now.bitmaps && b !in low.chain
    ensures low.now.words[b] == one.now.words[b]
  {
    LongerWords(one, low, b);
    BufferHeld(low, b, {}, cap);
  }

  lemma ReadableBitmaps(s: Sound)
    ensures DiskOf(s).readable <= Bitmaps(DiskOf(s).bitmaps)
  {
  }
}
