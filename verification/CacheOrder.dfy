/**
 The block cache as a least-recently-used order, and how long a buffer that it has handed out
 survives.
 */
module CacheOrder {
  import opened BlockCache
  import opened Recency

  /** Invalid entries come first, as they do from the start. */
  ghost predicate Settled(s: seq<Slot>)
  {
    forall k, l :: 0 <= k < l < |s| && s[k].valid ==> s[l].valid
  }

  /** The cached blocks, the most recently used one last. */
  function Recent(s: seq<Slot>): (r: seq<nat>)
    ensures |r| <= |s|
  {
    if s == [] then []
    else Recent(s[..|s| - 1]) + if s[|s| - 1].valid then [s[|s| - 1].block] else []
  }

  lemma {:induction false} RecentIs(s: seq<Slot>, b: nat)
    ensures b in Recent(s) <==> Lookup(s, b) >= 0
  {
    if s != [] { RecentIs(s[..|s| - 1], b); }
  }

  lemma {:induction false} RecentApart(s: seq<Slot>)
    requires AllApart(s)
    ensures NoDup(Recent(s))
  {
    if s != [] {
      var front, last := s[..|s| - 1], s[|s| - 1];
      forall i, j | 0 <= i < j < |front|
        ensures Apart(front[i], front[j])
      {
        assert Apart(s[i], s[j]);
      }
      RecentApart(front);
      RecentIs(front, last.block);
      var k := Lookup(front, last.block);
      assert k >= 0 ==> Apart(s[k], s[|s| - 1]);
      if last.valid {
        OneMore(Recent(front), last.block);
      } else {
        assert Recent(s) == Recent(front);
      }
    }
  }

  lemma {:induction false} RecentConcat(s: seq<Slot>, t: seq<Slot>)
    ensures Recent(s + t) == Recent(s) + Recent(t)
  {
    if t == [] {
      assert s + t == s;
    } else {
      RecentConcat(s, t[..|t| - 1]);
      assert (s + t)[..|s + t| - 1] == s + t[..|t| - 1];
    }
  }

  lemma RecentOne(t: Slot)
    ensures Recent([t]) == if t.valid then [t.block] else []
  {
    assert [t][..0] == [];
  }

  /** The blocks before an entry, its own, and the blocks after it. */
  lemma RecentAround(s: seq<Slot>, i: nat)
    requires i < |s| && s[i].valid
    ensures Recent(s) == Recent(s[..i]) + ([s[i].block] + Recent(s[i + 1..]))
  {
    assert s == s[..i] + ([s[i]] + s[i + 1..]);
    RecentConcat(s[..i], [s[i]] + s[i + 1..]);
    RecentConcat([s[i]], s[i + 1..]);
    RecentOne(s[i]);
  }

  /** make_mru over all entries. */
  function Moved<T>(s: seq<T>, i: nat): (r: seq<T>)
    requires i < |s|
    ensures |r| == |s|
  {
    s[..i] + s[i + 1..] + [s[i]]
  }

  lemma MovedIs<T>(s: seq<T>, i: nat)
    requires i < |s|
    ensures MadeRecent(s, i, |s|) == Moved(s, i) && forall k :: 0 <= k < |s| ==> Moved(s, i)[k] == s[From(i, |s|, k)]
  {
    assert MadeRecent(s, i, |s|) == Moved(s, i);
  }

  /** A miss, when it goes by all entries. */
  lemma MissIs(s: seq<Slot>, slot: Slot)
    requires s != []
    ensures MadeRecent(s[0 := slot], 0, |s|) == s[1..] + [slot]
  {
    MovedIs(s[0 := slot], 0);
    assert s[0 := slot][1..] == s[1..];
  }

  lemma RecentMoved(s: seq<Slot>, i: nat)
    requires i < |s| && s[i].valid
    ensures Recent(Moved(s, i)) == Recent(s[..i]) + Recent(s[i + 1..]) + [s[i].block]
  {
    RecentConcat(s[..i] + s[i + 1..], [s[i]]);
    RecentConcat(s[..i], s[i + 1..]);
    RecentOne(s[i]);
  }

  /** A hit is a use. */
  lemma RecentTouched(s: seq<Slot>, i: nat)
    requires AllApart(s) && i < |s| && s[i].valid
    ensures Recent(Moved(s, i)) == Use(Recent(s), s[i].block, |s|)
  {
    RecentAround(s, i);
    RecentMoved(s, i);
    RecentApart(s);
    WithoutMiddle(Recent(s[..i]), s[i].block, Recent(s[i + 1..]));
  }

  /** The oldest entry, and the others. */
  lemma RecentRest(s: seq<Slot>)
    requires s != []
    ensures Recent(s) == (if s[0].valid then [s[0].block] else []) + Recent(s[1..])
  {
    assert s == [s[0]] + s[1..];
    RecentConcat([s[0]], s[1..]);
    RecentOne(s[0]);
  }

  /** So is a miss. */
  lemma RecentMissed(s: seq<Slot>, slot: Slot)
    requires s != [] && Settled(s) && slot.valid && Lookup(s, slot.block) < 0
    ensures Recent(s[1..] + [slot]) == Use(Recent(s), slot.block, |s|)
  {
    RecentConcat(s[1..], [slot]);
    RecentOne(slot);
    RecentIs(s, slot.block);
    RecentRest(s);
    if s[0].valid { AllRecent(s); }
    UseNew(if s[0].valid then [s[0].block] else [], Recent(s[1..]), slot.block, |s|);
  }

  lemma UseNew(first: seq<nat>, rest: seq<nat>, b: nat, cap: nat)
    requires |first| <= 1 && 0 < cap && b !in first + rest && |rest| < cap && (first != [] ==> |first + rest| == cap)
    ensures Use(first + rest, b, cap) == rest + [b]
  {
    if first == [] {
      assert first + rest == rest;
      WithoutNone(rest, b);
    } else {
      assert (first + rest)[1..] == rest;
    }
  }

  lemma {:induction false} AllRecent(s: seq<Slot>)
    requires forall k :: 0 <= k < |s| ==> s[k].valid
    ensures |Recent(s)| == |s|
  {
    if s != [] { AllRecent(s[..|s| - 1]); }
  }

  /** The entry of `b`, if there is one, has buffer `x`. */
  ghost predicate Has(s: seq<Slot>, b: nat, x: nat)
  {
    var i := Lookup(s, b);
    i >= 0 ==> s[i].buffer == x
  }

  lemma HasTouched(s: seq<Slot>, b: nat, x: nat, i: nat)
    requires AllApart(s) && Settled(s) && i < |s| && s[i].valid && Has(s, b, x)
    ensures Settled(Moved(s, i)) && Has(Moved(s, i), b, x)
  {
    var r := Moved(s, i);
    MovedIs(s, i);
    var j := Lookup(r, b);
    if j >= 0 { LookupIs(s, b, From(i, |s|, j)); }
  }

  lemma HasMissed(s: seq<Slot>, b: nat, x: nat, slot: Slot)
    requires AllApart(s) && Settled(s) && s != [] && slot.valid && slot.block != b && Has(s, b, x)
    ensures Settled(s[1..] + [slot]) && Has(s[1..] + [slot], b, x)
  {
    var r := s[1..] + [slot];
    var j := Lookup(r, b);
    if j >= 0 {
      assert r[j] == s[j + 1];
      LookupIs(s, b, j + 1);
    }
  }

  /** A miss fills the buffer of the oldest entry, which is not that of a block that stays. */
  lemma OthersBuffer(s: seq<Slot>, b: nat, x: nat, slot: Slot)
    requires AllApart(s) && s != [] && slot.block != b && Has(s, b, x)
    ensures Lookup(s[1..] + [slot], b) >= 0 ==> s[0].buffer != x
  {
    var r := s[1..] + [slot];
    var j := Lookup(r, b);
    if j >= 0 {
      assert r[j] == s[j + 1];
      LookupIs(s, b, j + 1);
      assert Apart(s[0], s[j + 1]);
    }
  }

  /** The buffer `x` holds block `b` as it was, if that is still cached. */
  ghost predicate Holds(s: seq<Slot>, buffers: seq<Block>, b: nat, x: nat, data: Block)
  {
    Lookup(s, b) >= 0 ==> Has(s, b, x) && x < |buffers| && buffers[x] == data
  }

  lemma HoldsTouched(s: seq<Slot>, buffers: seq<Block>, b: nat, x: nat, data: Block, i: nat)
    requires AllApart(s) && Settled(s) && i < |s| && s[i].valid && Holds(s, buffers, b, x, data)
    ensures Settled(Moved(s, i)) && Holds(Moved(s, i), buffers, b, x, data)
  {
    var r := Moved(s, i);
    if Lookup(r, b) >= 0 {
      RecentIs(s, b);
      RecentIs(r, b);
      RecentTouched(s, i);
    }
    HasTouched(s, b, if Lookup(s, b) >= 0 then s[Lookup(s, b)].buffer else x, i);
  }

  lemma HoldsMissed(s: seq<Slot>, buffers: seq<Block>, buffers': seq<Block>, b: nat, x: nat, data: Block, slot: Slot)
    requires AllApart(s) && Settled(s) && s != [] && slot.valid && slot.block != b && Holds(s, buffers, b, x, data)
    requires s[0].buffer < |buffers| == |buffers'| && buffers' == buffers[s[0].buffer := buffers'[s[0].buffer]]
    ensures Settled(s[1..] + [slot]) && Holds(s[1..] + [slot], buffers', b, x, data)
  {
    var r := s[1..] + [slot];
    var j := Lookup(r, b);
    if j >= 0 {
      assert r[j] == s[j + 1];
      LookupIs(s, b, j + 1);
      HasMissed(s, b, x, slot);
      OthersBuffer(s, b, x, slot);
    }
  }

  method ReadOne(c: Cache, bl: nat, ghost b: nat, ghost x: nat, ghost data: Block) returns (ok: bool)
    requires c.Valid() && c.cacheSize == c.cache.Length && Settled(c.cache[..]) && Holds(c.cache[..], c.buffers, b, x, data) && bl != b
    modifies c`device, c`buffers, c.cache
    ensures c.Valid() && c.Contents() == old(c.Contents())
    ensures ok ==> Settled(c.cache[..]) && Holds(c.cache[..], c.buffers, b, x, data)
    ensures ok ==> Recent(c.cache[..]) == Use(old(Recent(c.cache[..])), bl, c.cache.Length)
  {
    ghost var s, was := c.cache[..], c.buffers;
    var rv;
    ok, rv := c.Read(bl);
    if Lookup(s, bl) >= 0 {
      MovedIs(s, Lookup(s, bl));
      RecentTouched(s, Lookup(s, bl));
      HoldsTouched(s, was, b, x, data, Lookup(s, bl));
    } else if ok {
      ghost var slot := Slot(bl, true, false, s[0].buffer);
      MissIs(s, slot);
      RecentMissed(s, slot);
      HoldsMissed(s, was, c.buffers, b, x, data, slot);
    }
  }

  /**
   A buffer that has been handed out, over a run of reads of other blocks up to the first
   that fails: it still holds its block, as it was, just when the blocks read since are
   fewer than the entries of the cache.
   */
  method ReadMany(c: Cache, bs: seq<nat>, ghost b: nat, ghost x: nat) returns (ok: bool)
    requires c.Valid() && c.cacheSize == c.cache.Length && Settled(c.cache[..]) && b !in bs
    requires Lookup(c.cache[..], b) >= 0 && Has(c.cache[..], b, x)
    modifies c`device, c`buffers, c.cache
    ensures c.Valid() && c.Contents() == old(c.Contents())
    ensures ok ==> Recent(c.cache[..]) == UseAll(old(Recent(c.cache[..])), bs, c.cache.Length)
    ensures ok ==> (Lookup(c.cache[..], b) >= 0 <==> |Above(old(Recent(c.cache[..])), b) + Elements(bs)| < c.cache.Length)
    ensures ok && Lookup(c.cache[..], b) >= 0 ==> Has(c.cache[..], b, x) && x < |c.buffers| && c.buffers[x] == old(c.buffers[x])
  {
    var k := 0;
    ok := true;
    ghost var r, data := Recent(c.cache[..]), c.buffers[x];
    while ok && k < |bs|
      invariant k <= |bs| && c.Valid() && c.Contents() == old(c.Contents())
      invariant ok ==> Settled(c.cache[..]) && Holds(c.cache[..], c.buffers, b, x, data) && Recent(c.cache[..]) == UseAll(r, bs[..k], c.cache.Length)
    {
      ok := ReadOne(c, bs[k], b, x, data);
      assert bs[..k + 1][..k] == bs[..k];
      k := k + 1;
    }
    assert ok ==> bs[..k] == bs;
    RecentOrder(old(c.cache[..]));
    RecentIs(old(c.cache[..]), b);
    RecentIs(c.cache[..], b);
    UsedSince(r, b, bs, c.cache.Length);
  }

  lemma RecentOrder(s: seq<Slot>)
    requires AllApart(s) && s != []
    ensures Order(Recent(s), |s|)
  {
    RecentApart(s);
  }

  // ---------------------------------------------------------------- logs

  /** A failed read leaves the order, or empties the oldest entry. */
  lemma RecentFailed(s: seq<Slot>, t: seq<Slot>)
    requires s != [] && Settled(s) && |t| == |s| && t[1..] == s[1..] && (t[0].valid ==> t[0] == s[0])
    ensures Settled(t)
    ensures Recent(t) == if s[0].valid && !t[0].valid then Recent(s)[1..] else Recent(s)
  {
    RecentRest(s);
    RecentRest(t);
    forall k, l | 0 <= k < l < |t| && t[k].valid
      ensures t[l].valid
    {
      assert t[l] == t[1..][l - 1] == s[l];
      if k > 0 { assert t[k] == t[1..][k - 1] == s[k]; }
    }
  }

  /** The cache is in the order that what has happened to it left it in. */
  ghost predicate InOrder(c: Cache, log: Log)
    reads c, c.cache
  {
    c.Valid() && c.cacheSize == c.cache.Length && Settled(c.cache[..]) && Recent(c.cache[..]) == Replay(log, c.cache.Length)
  }

  /** What a read has done to the log. */
  ghost function ReadLog(s: seq<Slot>, t: seq<Slot>, b: nat, ok: bool, log: Log): (now: Log)
    requires s != [] && t != []
    ensures if ok then now == Touched(log, b) else now.Failed? && now.log == log
  {
    if ok then Touched(log, b) else Failed(log, s[0].valid && !t[0].valid)
  }

  lemma HitLogged(s: seq<Slot>, b: nat, log: Log)
    requires AllApart(s) && s != [] && Settled(s) && Recent(s) == Replay(log, |s|) && Lookup(s, b) >= 0
    ensures var t := Moved(s, Lookup(s, b)); Settled(t) && Recent(t) == Replay(Touched(log, b), |s|)
  {
    var i := Lookup(s, b);
    RecentTouched(s, i);
    HasTouched(s, b, s[i].buffer, i);
  }

  lemma MissLogged(s: seq<Slot>, t: seq<Slot>, b: nat, ok: bool, log: Log)
    requires AllApart(s) && s != [] && Settled(s) && Recent(s) == Replay(log, |s|) && Lookup(s, b) < 0
    requires if ok then t == s[1..] + [Slot(b, true, false, s[0].buffer)]
             else |t| == |s| && t[1..] == s[1..] && (t[0].valid ==> t[0] == s[0])
    ensures |t| == |s| && Settled(t) && Recent(t) == Replay(ReadLog(s, t, b, ok, log), |s|)
  {
    if ok {
      RecentMissed(s, Slot(b, true, false, s[0].buffer));
    } else {
      RecentFailed(s, t);
      RecentRest(s);
    }
  }

  /** A read of any block is a use of it, or fails. */
  method ReadLogged(c: Cache, b: nat, ghost log: Log) returns (ok: bool, rv: nat, ghost now: Log)
    requires InOrder(c, log)
    modifies c`device, c`buffers, c.cache
    ensures InOrder(c, now) && c.Contents() == old(c.Contents())
    ensures if ok then now == Touched(log, b) else now.Failed? && now.log == log
    ensures ok ==> rv < |c.buffers| && b < |c.Contents()| && c.buffers[rv] == c.Contents()[b]
  {
    ghost var s := c.cache[..];
    ok, rv := c.Read(b);
    now := ReadLog(s, c.cache[..], b, ok, log);
    if Lookup(s, b) >= 0 {
      MovedIs(s, Lookup(s, b));
      HitLogged(s, b, log);
    } else {
      MissIs(s, Slot(b, true, false, s[0].buffer));
      MissLogged(s, c.cache[..], b, ok, log);
    }
  }

  /** Marking a block dirty is a use of it, if it is cached. */
  method MarkLogged(c: Cache, b: nat, ghost log: Log) returns (ok: bool, ghost now: Log)
    requires InOrder(c, log)
    modifies c.cache
    ensures InOrder(c, now) && c.Contents() == old(c.Contents())
    ensures ok <==> b in Replay(log, c.cache.Length)
    ensures now == if ok then Touched(log, b) else log
  {
    ghost var s := c.cache[..];
    RecentIs(s, b);
    ok := c.MarkDirty(b, {});
    now := if ok then Touched(log, b) else log;
    if ok {
      MovedIs(s[Lookup(s, b) := s[Lookup(s, b)].(dirty := true)], Lookup(s, b));
      MarkedLogged(s, b, log);
    }
    assert {} - {b} == {};
  }

  lemma {:induction false} SameRecent(s: seq<Slot>, t: seq<Slot>)
    requires |t| == |s| && forall k :: 0 <= k < |s| ==> t[k].block == s[k].block && t[k].valid == s[k].valid
    ensures Recent(t) == Recent(s)
  {
    if s != [] { SameRecent(s[..|s| - 1], t[..|s| - 1]); }
  }

  lemma MarkedLogged(s: seq<Slot>, b: nat, log: Log)
    requires AllApart(s) && s != [] && Settled(s) && Recent(s) == Replay(log, |s|) && Lookup(s, b) >= 0
    ensures var i := Lookup(s, b); var t := Moved(s[i := s[i].(dirty := true)], i);
            Settled(t) && Recent(t) == Replay(Touched(log, b), |s|)
  {
    var i := Lookup(s, b);
    var u := s[i := s[i].(dirty := true)];
    SameRecent(s, u);
    forall k, l | 0 <= k < l < |u|
      ensures Apart(u[k], u[l])
    {
      assert Apart(s[k], s[l]);
    }
    LookupIs(u, b, i);
    HitLogged(u, b, log);
  }
}
