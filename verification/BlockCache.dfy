/**
 The LRU write-back cache that libkosext2fs keeps of disk blocks and libkosfat of clusters
 and FAT sectors.  Seen from outside it is the plain device: whatever is read, evicted,
 written back or refused by the hardware, the contents change only by the edits that the
 client makes in the buffers it was handed.
 */
module BlockCache {
  import opened Basics

  /** A cache entry.  `buffer` names its buffer, which stays with it as entries move about. */
  datatype Slot = Slot(block: nat, valid: bool, dirty: bool, buffer: nat)

  type Block = seq<byte>

  // ---------------------------------------------------------------- order of the entries

  /** make_mru: of the first `m` entries, the one at `i` goes to the most recently used end. */
  function MadeRecent<T>(s: seq<T>, i: nat, m: nat): (r: seq<T>)
    requires i < |s| && m <= |s|
    ensures |r| == |s| && forall k :: 0 <= k < |s| ==> r[k] == s[From(i, m, k)]
  {
    if i + 1 < m then s[..i] + s[i + 1..m] + [s[i]] + s[m..] else s
  }

  /** Where `MadeRecent` takes the entry at `k` from. */
  function From(i: nat, m: nat, k: nat): (j: nat)
    ensures j == k || j < m
  {
    if i + 1 < m && i <= k < m then if k == m - 1 then i else k + 1 else k
  }

  /** Where it takes the entry at `j` to. */
  function To(i: nat, m: nat, j: nat): (k: nat)
    ensures From(i, m, k) == j && (k == j || k < m)
  {
    if i + 1 < m && i <= j < m then if j == i then m - 1 else j - 1 else j
  }

  /** The entries that make_mru reads besides the one that moves. */
  function Reads(block: int, m: nat): (r: set<nat>)
  {
    if block < 0 || block >= m - 1 then {} else UpTo(block, m - 1)
  }

  /** The numbers after `a` as far as `b`. */
  function UpTo(a: nat, b: nat): (r: set<nat>)
    ensures forall k :: k in r <==> a < k <= b
  {
    if b <= a then {} else UpTo(a, b - 1) + {b}
  }

  /**
   In a cache of `n` entries, make_mru stays inside for every entry just when the number it
   goes by is not larger; with a larger one the first miss leaves the array.
   */
  lemma InRangeIff(n: nat, m: nat)
    requires 1 <= n
    ensures m <= n <==> forall block: int :: -1 <= block < n ==> AllBelow(Reads(block, m), n)
    ensures m > n ==> !AllBelow(Reads(0, m), n)
  {
    if m > n { assert m - 1 in Reads(0, m); }
  }

  predicate AllBelow(s: set<nat>, n: nat)
  {
    forall k :: k in s ==> k < n
  }

  /** The last valid entry of a block, as the lookup loop finds it; -1 when there is none. */
  function Lookup(s: seq<Slot>, b: nat): (i: int)
    ensures -1 <= i < |s|
    ensures i >= 0 ==> s[i].block == b && s[i].valid
    ensures forall k :: i < k < |s| ==> !(s[k].block == b && s[k].valid)
  {
    if s == [] then -1
    else if s[|s| - 1].block == b && s[|s| - 1].valid then |s| - 1
    else Lookup(s[..|s| - 1], b)
  }

  /** Two entries never share a buffer, nor, when both are valid, a block. */
  predicate Apart(s: Slot, t: Slot)
  {
    s.buffer != t.buffer && (s.valid && t.valid ==> s.block != t.block)
  }

  ghost predicate AllApart(s: seq<Slot>)
  {
    forall k, l :: 0 <= k < l < |s| ==> Apart(s[k], s[l])
  }

  lemma LookupIs(s: seq<Slot>, b: nat, k: nat)
    requires AllApart(s) && k < |s| && s[k].block == b && s[k].valid
    ensures Lookup(s, b) == k
  {
    var i := Lookup(s, b);
    assert k <= i;
    assert k == i || Apart(s[k], s[i]);
  }

  lemma TouchedApart(s: seq<Slot>, i: nat, m: nat)
    requires AllApart(s) && i < |s| && m <= |s|
    ensures AllApart(MadeRecent(s, i, m))
  {
    var r := MadeRecent(s, i, m);
    forall k, l | 0 <= k < l < |r|
      ensures Apart(r[k], r[l])
    {
      var k', l' := From(i, m, k), From(i, m, l);
      assert if k' < l' then Apart(s[k'], s[l']) else Apart(s[l'], s[k']);
    }
  }

  /** Reordering the entries loses none. */
  lemma TouchedLookup(s: seq<Slot>, i: nat, m: nat, b: nat)
    requires i < |s| && m <= |s|
    ensures Lookup(MadeRecent(s, i, m), b) >= 0 <==> Lookup(s, b) >= 0
  {
    var r := MadeRecent(s, i, m);
    if Lookup(s, b) >= 0 { assert r[To(i, m, Lookup(s, b))] == s[Lookup(s, b)]; }
    if Lookup(r, b) >= 0 { assert r[Lookup(r, b)] == s[From(i, m, Lookup(r, b))]; }
  }

  // ---------------------------------------------------------------- contents

  function SetByte(d: Block, off: nat, v: byte): (r: Block)
    requires off < |d|
    ensures |r| == |d|
  {
    d[off := v]
  }

  /** The contents of a block: cached if valid, else on the device. */
  function ViewOf(s: seq<Slot>, buffers: seq<Block>, device: seq<Block>, b: nat): (r: Block)
    requires b < |device| && forall t <- s :: t.buffer < |buffers|
  {
    var i := Lookup(s, b);
    if i >= 0 then buffers[s[i].buffer] else device[b]
  }

  /** An entry agrees with the device when it is valid, clean and not just being edited. */
  predicate SlotOk(t: Slot, buffers: seq<Block>, device: seq<Block>, pending: set<nat>)
  {
    && t.buffer < |buffers| && (t.dirty ==> t.valid) && (t.valid ==> t.block < |device|)
    && (t.valid && !t.dirty && t.block !in pending ==> buffers[t.buffer] == device[t.block])
  }

  /**
   Entries are apart, and what is cached and clean is what the device has, but for the
   `pending` blocks, which have been edited and not yet marked dirty.
   */
  ghost predicate Good(s: seq<Slot>, buffers: seq<Block>, device: seq<Block>, pending: set<nat>)
  {
    1 <= |s| && AllApart(s) && forall k :: 0 <= k < |s| ==> SlotOk(s[k], buffers, device, pending)
  }

  /** Reordering the entries changes no contents. */
  lemma TouchedView(s: seq<Slot>, buffers: seq<Block>, device: seq<Block>, i: nat, m: nat, pending: set<nat>)
    requires Good(s, buffers, device, pending) && i < |s| && m <= |s|
    ensures Good(MadeRecent(s, i, m), buffers, device, pending)
    ensures forall b :: 0 <= b < |device| ==> ViewOf(MadeRecent(s, i, m), buffers, device, b) == ViewOf(s, buffers, device, b)
  {
    var r := MadeRecent(s, i, m);
    TouchedApart(s, i, m);
    forall b | 0 <= b < |device|
      ensures ViewOf(r, buffers, device, b) == ViewOf(s, buffers, device, b)
    {
      var j, j' := Lookup(s, b), Lookup(r, b);
      if j >= 0 {
        LookupIs(r, b, To(i, m, j));
      } else if j' >= 0 {
        assert false;
      }
    }
  }

  /** Writing a dirty entry through, or garbling its block on the device, changes no contents. */
  lemma WrittenView(s: seq<Slot>, buffers: seq<Block>, device: seq<Block>, k: nat, junk: Block)
    requires Good(s, buffers, device, {}) && k < |s| && s[k].valid
    requires s[k].dirty || junk == buffers[s[k].buffer]
    ensures var device' := device[s[k].block := junk];
            && Good(s, buffers, device', {})
            && forall b :: 0 <= b < |device| ==> ViewOf(s, buffers, device', b) == ViewOf(s, buffers, device, b)
  {
    LookupIs(s, s[k].block, k);
    assert forall l :: 0 <= l < |s| && l != k ==> if l < k then Apart(s[l], s[k]) else Apart(s[k], s[l]);
  }

  /** Clearing a dirty flag is right once the device has the block. */
  lemma CleanedView(s: seq<Slot>, buffers: seq<Block>, device: seq<Block>, k: nat)
    requires Good(s, buffers, device, {}) && k < |s| && s[k].valid && device[s[k].block] == buffers[s[k].buffer]
    ensures var s' := s[k := s[k].(dirty := false)];
            && Good(s', buffers, device, {})
            && forall b :: 0 <= b < |device| ==> ViewOf(s', buffers, device, b) == ViewOf(s, buffers, device, b)
  {
    var s' := s[k := s[k].(dirty := false)];
    assert AllApart(s') by {
      forall i, j | 0 <= i < j < |s'|
        ensures Apart(s'[i], s'[j])
      {
        assert Apart(s[i], s[j]);
      }
    }
    SameFlagsView(s, s', buffers, device);
  }

  /** The dirty flags play no part in what a lookup finds. */
  lemma SameFlagsView(s: seq<Slot>, t: seq<Slot>, buffers: seq<Block>, device: seq<Block>)
    requires |s| == |t| && AllApart(s) && AllApart(t)
    requires forall k :: 0 <= k < |s| ==> s[k].block == t[k].block && s[k].valid == t[k].valid && s[k].buffer == t[k].buffer
    requires forall k :: 0 <= k < |s| ==> s[k].buffer < |buffers|
    ensures forall b :: 0 <= b < |device| ==> ViewOf(s, buffers, device, b) == ViewOf(t, buffers, device, b)
  {
    forall b | 0 <= b < |device|
      ensures ViewOf(s, buffers, device, b) == ViewOf(t, buffers, device, b)
    {
      var j := Lookup(s, b);
      if j >= 0 { LookupIs(t, b, j); }
    }
  }

  /** Taking the oldest entry for another block, once the device has its old one. */
  lemma FilledView(s: seq<Slot>, buffers: seq<Block>, device: seq<Block>, slot: Slot, data: Block)
    requires Good(s, buffers, device, {}) && slot.buffer == s[0].buffer && !slot.dirty
    requires s[0].valid ==> buffers[s[0].buffer] == device[s[0].block]
    requires slot.valid ==> slot.block < |device| && data == device[slot.block] && Lookup(s, slot.block) < 0
    ensures var s', buffers' := s[0 := slot], buffers[slot.buffer := data];
            && Good(s', buffers', device, {})
            && forall b :: 0 <= b < |device| ==> ViewOf(s', buffers', device, b) == ViewOf(s, buffers, device, b)
  {
    var s', buffers' := s[0 := slot], buffers[slot.buffer := data];
    assert forall k :: 0 < k < |s| ==> Apart(s[0], s[k]);
    forall i, j | 0 <= i < j < |s'|
      ensures Apart(s'[i], s'[j])
    {
      assert Apart(s[i], s[j]);
    }
    forall b | 0 <= b < |device|
      ensures ViewOf(s', buffers', device, b) == ViewOf(s, buffers, device, b)
    {
      var j, j' := Lookup(s, b), Lookup(s', b);
      if j > 0 {
        LookupIs(s', b, j);
      } else {
        assert j' <= 0;
      }
    }
  }

  /** Marking a block dirty, wherever it is cached, settles it. */
  lemma MarkedView(s: seq<Slot>, buffers: seq<Block>, device: seq<Block>, b: nat, pending: set<nat>)
    requires Good(s, buffers, device, pending)
    ensures var i := Lookup(s, b);
            i < 0 ==> Good(s, buffers, device, pending - {b})
    ensures var i := Lookup(s, b);
            i >= 0 ==>
              var s' := s[i := s[i].(dirty := true)];
              && Good(s', buffers, device, pending - {b})
              && forall c :: 0 <= c < |device| ==> ViewOf(s', buffers, device, c) == ViewOf(s, buffers, device, c)
  {
    var i := Lookup(s, b);
    if i >= 0 {
      var s' := s[i := s[i].(dirty := true)];
      forall k, l | 0 <= k < l < |s'|
        ensures Apart(s'[k], s'[l])
      {
        assert Apart(s[k], s[l]);
      }
      forall k | 0 <= k < |s'|
        ensures SlotOk(s'[k], buffers, device, pending - {b})
      {
        assert SlotOk(s[k], buffers, device, pending);
        if k != i { assert if k < i then Apart(s[k], s[i]) else Apart(s[i], s[k]); }
      }
      SameFlagsView(s, s', buffers, device);
    }
  }

  /** An edit of a cached buffer changes the contents of its block, and of no other. */
  lemma EditedView(s: seq<Slot>, buffers: seq<Block>, device: seq<Block>, k: nat, data: Block, pending: set<nat>)
    requires Good(s, buffers, device, pending) && k < |s| && s[k].valid
    ensures var buffers' := buffers[s[k].buffer := data];
            && Good(s, buffers', device, pending + {s[k].block})
            && forall b :: 0 <= b < |device| ==>
                 ViewOf(s, buffers', device, b) == if b == s[k].block then data else ViewOf(s, buffers, device, b)
  {
    var buffers' := buffers[s[k].buffer := data];
    assert forall l :: 0 <= l < |s| && l != k ==> if l < k then Apart(s[l], s[k]) else Apart(s[k], s[l]);
    LookupIs(s, s[k].block, k);
  }

  // ---------------------------------------------------------------- the cache

  class Cache {
    const cache: array<Slot>
    const cacheSize: nat
    const blockSize: nat
    var buffers: seq<Block>
    var device: seq<Block>
    var readWrite: bool

    ghost predicate Sized()
      reads this
    {
      (forall b :: 0 <= b < |device| ==> |device[b]| == blockSize) &&
      (forall k :: 0 <= k < |buffers| ==> |buffers[k]| == blockSize)
    }

    ghost predicate ValidBut(pending: set<nat>)
      reads this, cache
    {
      Sized() && Indexed() && Good(cache[..], buffers, device, pending) && Used(cache[..])
    }

    /** The most recently used end, by the size that make_mru goes by. */
    function Top(): (k: nat)
    {
      if cacheSize <= 1 then 0 else cacheSize - 1
    }

    /** That size is not too large, and entries past it are never used. */
    ghost predicate Used(s: seq<Slot>)
    {
      cacheSize <= |s| && Top() < |s| && forall k :: Top() < k < |s| ==> !s[k].valid
    }

    ghost predicate Valid()
      reads this, cache
    {
      ValidBut({})
    }

    ghost predicate Indexed()
      reads this, cache
    {
      forall t <- cache[..] :: t.buffer < |buffers|
    }

    /** The contents of every block: what the client sees. */
    ghost function Contents(): (r: seq<Block>)
      requires Indexed()
      reads this, cache
      ensures |r| == |device|
      ensures forall b :: 0 <= b < |device| ==> r[b] == ViewOf(cache[..], buffers, device, b)
    {
      seq(|device|, b requires 0 <= b < |device| reads this, cache requires Indexed() => ViewOf(cache[..], buffers, device, b))
    }

    /** `n` invalid entries over a device; make_mru goes by `cacheSize`. */
    constructor (n: nat, cacheSize: nat, blockSize: nat, device: seq<Block>, readWrite: bool)
      requires 1 <= n && cacheSize <= n && forall b :: 0 <= b < |device| ==> |device[b]| == blockSize
      ensures Valid() && cache.Length == n && Contents() == device && fresh(cache) && this.cacheSize == cacheSize
      ensures this.blockSize == blockSize && this.device == device && this.readWrite == readWrite
    {
      this.blockSize, this.device, this.readWrite, this.cacheSize := blockSize, device, readWrite, cacheSize;
      cache := new Slot[n](i => Slot(0, false, false, if i < 0 then 0 else i));
      buffers := seq(n, _ => seq(blockSize, _ => 0));
      new;
      assert forall b :: 0 <= b < |device| ==> Lookup(cache[..], b) < 0;
    }

    /** A valid entry shows the contents of its block. */
    lemma Shows(k: nat, pending: set<nat>)
      requires ValidBut(pending) && k < cache.Length && cache[k].valid
      ensures cache[k].block < |device| && cache[k].buffer < |buffers|
      ensures buffers[cache[k].buffer] == Contents()[cache[k].block] && |Contents()[cache[k].block]| == blockSize
    {
      assert SlotOk(cache[..][k], buffers, device, pending);
      LookupIs(cache[..], cache[k].block, k);
    }

    /** make_mru, which leaves the last entry and any index out of range alone. */
    method MakeMru(block: int) returns (ghost read: set<nat>)
      requires block < cache.Length && cacheSize <= cache.Length
      modifies cache
      ensures cache[..] == if block < 0 then old(cache[..]) else MadeRecent(old(cache[..]), block, cacheSize)
      ensures read == Reads(block, cacheSize)
    {
      read := {};
      if block < 0 || block >= cacheSize - 1 { return; }
      var tmp, i := cache[block], block;
      while i < cacheSize - 1
        invariant block <= i <= cacheSize - 1
        invariant forall k :: 0 <= k < block || i <= k < cache.Length ==> cache[k] == old(cache[k])
        invariant forall k :: block <= k < i ==> cache[k] == old(cache[k + 1])
        invariant read == UpTo(block, i)
      {
        read := read + {i + 1};
        assert cache[i + 1] == old(cache[i + 1]);
        cache[i] := cache[i + 1];
        i := i + 1;
      }
      cache[cacheSize - 1] := tmp;
      assert cache[..] == MadeRecent(old(cache[..]), block, cacheSize);
    }

    /** The index of a cached block, searched from the most recently used end. */
    method Search(b: nat) returns (i: int)
      ensures i == Lookup(cache[..], b)
    {
      i := cache.Length - 1;
      while i >= 0
        invariant -1 <= i < cache.Length
        invariant Lookup(cache[..], b) == Lookup(cache[..i + 1], b)
      {
        assert cache[..i + 1][..i] == cache[..i];
        if cache[i].block == b && cache[i].valid { return; }
        i := i - 1;
      }
    }

    /** The device's write of entry `k`: a failed one may leave anything in the block. */
    method WriteSlot(k: nat) returns (ok: bool)
      requires Valid() && k < cache.Length && cache[k].dirty
      modifies this`device
      ensures Valid() && |device| == |old(device)| && Contents() == old(Contents())
      ensures ok ==> device == old(device)[cache[k].block := buffers[cache[k].buffer]]
    {
      var b, junk: Block := cache[k].block, *;
      ok := *;
      if ok { junk := buffers[cache[k].buffer]; }
      if |junk| == blockSize {
        WrittenView(cache[..], buffers, device, k, junk);
        device := device[b := junk];
      }
    }

    /** ext2_block_read: a block's contents in a buffer of the cache. */
    method Read(b: nat) returns (ok: bool, rv: nat)
      requires Valid()
      modifies this`device, this`buffers, cache
      ensures Valid() && |device| == |old(device)| && Contents() == old(Contents())
      ensures ok ==> b < |device| && var last := cache[Top()]; last.valid && last.block == b && last.buffer == rv
      ensures ok ==> buffers[rv] == Contents()[b]
      ensures old(Lookup(cache[..], b)) >= 0 ==>
                ok && buffers == old(buffers) && cache[..] == MadeRecent(old(cache[..]), old(Lookup(cache[..], b)), cacheSize)
      ensures old(Lookup(cache[..], b)) < 0 ==>
                && old(cache[0].buffer) < |buffers| == |old(buffers)|
                && buffers == old(buffers)[old(cache[0].buffer) := buffers[old(cache[0].buffer)]]
                && (ok ==> cache[..] == MadeRecent(old(cache[..])[0 := Slot(b, true, false, old(cache[0].buffer))], 0, cacheSize))
                && (!ok ==> cache[..] == old(cache[..])[0 := cache[0]] && cache[0].buffer == old(cache[0].buffer))
                && (!ok && cache[0].valid ==> cache[0] == old(cache[0]))
    {
      var i := Search(b);
      if i >= 0 {
        ok, rv := true, cache[i].buffer;
        Touch(i);
      } else {
        ok, rv := ReadMissing(b);
      }
    }

    /** An entry moves to the most recently used end, and nothing else changes. */
    method Touch(i: nat)
      requires Valid() && i < cache.Length && (cache[i].valid || i <= Top())
      modifies cache
      ensures Valid() && Contents() == old(Contents()) && cache[..] == MadeRecent(old(cache[..]), i, cacheSize)
      ensures var last := cache[Top()];
              last.valid ==> last.block < |Contents()| && last.buffer < |buffers| && buffers[last.buffer] == Contents()[last.block]
    {
      TouchedView(cache[..], buffers, device, i, cacheSize, {});
      StillUsed(cache[..], i);
      ghost var read := MakeMru(i);
      ghost var last := cache[Top()];
      assert SlotOk(cache[..][Top()], buffers, device, {});
      if last.valid { LookupIs(cache[..], last.block, Top()); }
    }

    lemma StillUsed(s: seq<Slot>, i: nat)
      requires Used(s) && i < |s| && (s[i].valid || i <= Top())
      ensures Used(MadeRecent(s, i, cacheSize)) && MadeRecent(s, i, cacheSize)[Top()] == s[i]
    {
    }

    method ReadMissing(b: nat) returns (ok: bool, rv: nat)
      requires Valid() && Lookup(cache[..], b) < 0
      modifies this`device, this`buffers, cache
      ensures Valid() && |device| == |old(device)| && Contents() == old(Contents())
      ensures old(cache[0].buffer) < |buffers| == |old(buffers)|
      ensures ok ==> b < |device| && rv == old(cache[0].buffer) && buffers[rv] == Contents()[b]
      ensures buffers == old(buffers)[old(cache[0].buffer) := buffers[old(cache[0].buffer)]]
      ensures ok ==> cache[..] == MadeRecent(old(cache[..])[0 := Slot(b, true, false, rv)], 0, cacheSize)
      ensures ok ==> cache[Top()] == Slot(b, true, false, rv)
      ensures !ok ==> cache[..] == old(cache[..])[0 := cache[0]] && cache[0].buffer == old(cache[0].buffer)
      ensures !ok && cache[0].valid ==> cache[0] == old(cache[0])
    {
      rv := cache[0].buffer;
      if cache[0].dirty {
        ok := WriteSlot(0);
        if !ok { return; }
      }
      ok := FillOldest(b);
      if ok { Touch(0); }
    }

    /** The device's read into the oldest buffer: a failed one may leave anything there. */
    method FillOldest(b: nat) returns (ok: bool)
      requires Valid() && Lookup(cache[..], b) < 0
      requires cache[0].valid ==> buffers[cache[0].buffer] == device[cache[0].block]
      modifies this`buffers, cache
      ensures Valid() && Contents() == old(Contents()) && |buffers| == |old(buffers)|
      ensures cache[..] == old(cache[..])[0 := cache[0]] && cache[0].buffer == old(cache[0].buffer) < |buffers|
      ensures buffers == old(buffers)[cache[0].buffer := buffers[cache[0].buffer]]
      ensures if ok then b < |device| && cache[0] == Slot(b, true, false, old(cache[0].buffer)) else !cache[0].valid
    {
      var data: Block := *;
      ok := *;
      ok := ok && b < |device|;
      if ok { data := device[b]; }
      if |data| != blockSize { data := buffers[cache[0].buffer]; }
      var slot := if ok then Slot(b, true, false, cache[0].buffer) else cache[0].(valid := false, dirty := false);
      FilledView(cache[..], buffers, device, slot, data);
      buffers := buffers[slot.buffer := data];
      cache[0] := slot;
      assert cache[..] == old(cache[..])[0 := slot];
    }

    /** What a client does with a buffer it was handed: a store into it. */
    method Store(k: nat, data: Block, ghost pending: set<nat>)
      requires ValidBut(pending) && k < cache.Length && cache[k].valid && |data| == blockSize
      modifies this`buffers
      ensures ValidBut(pending + {cache[k].block}) && |buffers| == |old(buffers)|
      ensures buffers == old(buffers)[cache[k].buffer := data]
      ensures Contents() == old(Contents())[cache[k].block := data]
    {
      EditedView(cache[..], buffers, device, k, data, pending);
      buffers := buffers[cache[k].buffer := data];
    }

    /** ext2_block_mark_dirty: false (the error) when the block is not cached. */
    method MarkDirty(b: nat, ghost pending: set<nat>) returns (ok: bool)
      requires ValidBut(pending)
      modifies cache
      ensures ValidBut(pending - {b}) && Contents() == old(Contents())
      ensures ok <==> old(Lookup(cache[..], b)) >= 0
      ensures !ok ==> cache[..] == old(cache[..])
      ensures ok ==> var i := old(Lookup(cache[..], b)); cache[..] == MadeRecent(old(cache[..])[i := old(cache[i]).(dirty := true)], i, cacheSize)
    {
      var i := Search(b);
      MarkedView(cache[..], buffers, device, b, pending);
      ok := i >= 0;
      if ok {
        ghost var s := cache[..];
        cache[i] := cache[i].(dirty := true);
        assert cache[..] == s[i := s[i].(dirty := true)];
        TouchedView(cache[..], buffers, device, i, cacheSize, pending - {b});
        StillUsed(cache[..], i);
        ghost var read := MakeMru(i);
      }
    }

    /**
     ext2_block_cache_wb: stops at the first failed write.  On success, unless the mount is
     read-only, nothing is dirty any more and the device has the contents.
     */
    method WriteBack() returns (ok: bool)
      requires Valid()
      modifies this`device, cache
      ensures Valid() && |device| == |old(device)| && Contents() == old(Contents())
      ensures !readWrite ==> ok && device == old(device) && cache[..] == old(cache[..])
      ensures ok && readWrite ==> device == Contents() && forall k :: 0 <= k < cache.Length ==> !cache[k].dirty
    {
      if !readWrite { return true; }
      var i := cache.Length - 1;
      while i >= 0
        invariant -1 <= i < cache.Length && Valid() && |device| == |old(device)| && Contents() == old(Contents())
        invariant forall k :: i < k < cache.Length ==> !cache[k].dirty
      {
        if cache[i].dirty {
          ok := WriteSlot(i);
          if !ok { return; }
          CleanedView(cache[..], buffers, device, i);
          ghost var s := cache[..];
          cache[i] := cache[i].(dirty := false);
          assert cache[..] == s[i := s[i].(dirty := false)];
        }
        i := i - 1;
      }
      ok := true;
      assert forall b :: 0 <= b < |device| ==> Contents()[b] == device[b];
    }

    /** A client's edit of one byte: read the block, store into its buffer, mark it dirty. */
    method Put(b: nat, off: nat, v: byte) returns (ok: bool)
      requires Valid() && off < blockSize
      modifies this`device, this`buffers, cache
      ensures Valid() && |device| == |old(device)|
      ensures ok ==> b < |device| && Contents() == old(Contents())[b := SetByte(old(Contents())[b], off, v)]
      ensures !ok ==> Contents() == old(Contents())
    {
      var rv;
      ok, rv := Read(b);
      if !ok { return; }
      Edit(Top(), SetByte(buffers[rv], off, v));
    }

    /** A store into the buffer of an entry, which is then marked dirty. */
    method Edit(k: nat, data: Block)
      requires Valid() && k < cache.Length && cache[k].valid && |data| == blockSize
      modifies this`buffers, cache
      ensures Valid() && Contents() == old(Contents())[old(cache[k].block) := data]
    {
      var b := cache[k].block;
      Store(k, data, {});
      var marked := MarkDirty(b, {} + {b});
      assert {} + {b} - {b} == {};
    }
  }

  // ---------------------------------------------------------------- runs

  datatype Op = Get(b: nat) | Put(b: nat, off: nat, v: byte) | Flush

  /** What an operation reported: success, and for a successful Get the block. */
  datatype Answer = Answer(ok: bool, data: Block)

  /** The plain device after one operation. */
  function PlainStep(contents: seq<Block>, op: Op, a: Answer): (r: seq<Block>)
  {
    if op.Put? && a.ok && op.b < |contents| && op.off < |contents[op.b]| then
      contents[op.b := SetByte(contents[op.b], op.off, op.v)]
    else contents
  }

  /** Whether a plain device could have answered so. */
  predicate PlainAnswer(contents: seq<Block>, op: Op, a: Answer)
  {
    op.Get? && a.ok ==> op.b < |contents| && a.data == contents[op.b]
  }

  /** The plain device after a run. */
  ghost function PlainRun(contents: seq<Block>, ops: seq<Op>, answers: seq<Answer>): (r: seq<Block>)
    requires |ops| == |answers|
  {
    if ops == [] then contents
    else PlainStep(PlainRun(contents, ops[..|ops| - 1], answers[..|ops| - 1]), ops[|ops| - 1], answers[|ops| - 1])
  }

  /**
   Any run of reads, edits and flushes, with whatever evictions and I/O failures it meets,
   answers as a plain device would, and leaves the contents of one.
   */
  method Run(c: Cache, ops: seq<Op>) returns (answers: seq<Answer>)
    requires c.Valid() && forall op <- ops :: op.Put? ==> op.off < c.blockSize
    modifies c`device, c`buffers, c.cache
    ensures c.Valid() && |answers| == |ops|
    ensures c.Contents() == PlainRun(old(c.Contents()), ops, answers)
    ensures PlainAnswers(old(c.Contents()), ops, answers)
  {
    answers := [];
    ghost var before := c.Contents();
    while |answers| < |ops|
      invariant c.Valid() && |answers| <= |ops|
      invariant c.Contents() == PlainRun(before, ops[..|answers|], answers)
      invariant PlainAnswers(before, ops, answers)
    {
      var op := ops[|answers|];
      var a := RunOne(c, op);
      RunLonger(before, ops, answers, a);
      answers := answers + [a];
    }
    assert ops[..|ops|] == ops;
  }

  /** All the answers of a run are those of a plain device. */
  ghost predicate PlainAnswers(contents: seq<Block>, ops: seq<Op>, answers: seq<Answer>)
    requires |answers| <= |ops|
  {
    forall i :: 0 <= i < |answers| ==> PlainAnswer(PlainRun(contents, ops[..i], answers[..i]), ops[i], answers[i])
  }

  lemma RunLonger(contents: seq<Block>, ops: seq<Op>, answers: seq<Answer>, a: Answer)
    requires |answers| < |ops| && PlainAnswers(contents, ops, answers)
    requires PlainAnswer(PlainRun(contents, ops[..|answers|], answers), ops[|answers|], a)
    ensures var longer := answers + [a];
            && PlainAnswers(contents, ops, longer)
            && PlainRun(contents, ops[..|longer|], longer) == PlainStep(PlainRun(contents, ops[..|answers|], answers), ops[|answers|], a)
  {
    var longer := answers + [a];
    assert longer[..|answers|] == answers && ops[..|longer|][..|answers|] == ops[..|answers|];
    forall i | 0 <= i < |longer|
      ensures PlainAnswer(PlainRun(contents, ops[..i], longer[..i]), ops[i], longer[i])
    {
      if i < |answers| { assert longer[..i] == answers[..i]; }
    }
  }

  method RunOne(c: Cache, op: Op) returns (a: Answer)
    requires c.Valid() && (op.Put? ==> op.off < c.blockSize)
    modifies c`device, c`buffers, c.cache
    ensures c.Valid() && c.Contents() == PlainStep(old(c.Contents()), op, a)
    ensures PlainAnswer(old(c.Contents()), op, a)
  {
    match op {
      case Get(b) => a := RunGet(c, b);
      case Put(b, off, v) =>
        assert forall k :: 0 <= k < |c.device| ==> |c.Contents()[k]| == c.blockSize;
        var ok := c.Put(b, off, v);
        a := Answer(ok, []);
      case Flush =>
        var ok := c.WriteBack();
        a := Answer(ok, []);
    }
  }

  method RunGet(c: Cache, b: nat) returns (a: Answer)
    requires c.Valid()
    modifies c`device, c`buffers, c.cache
    ensures c.Valid() && c.Contents() == old(c.Contents())
    ensures a.ok ==> b < |c.Contents()| && a.data == c.Contents()[b]
  {
    var ok, rv := c.Read(b);
    a := Answer(ok, if ok then c.buffers[rv] else []);
  }
}
