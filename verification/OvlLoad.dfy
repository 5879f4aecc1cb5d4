/**
 `ovl_load` on a directly mapped or a translated slot: claim, plan its pages, read in chunks,
 hash, scatter, check, publish and admit.
 */
module OvlLoad {
  import opened Basics
  import opened Sha256
  import opened OvlPackage
  import opened OvlSlot
  import opened OvlControl

  /** How a load ended, and what that says about the old image. */
  datatype Ending = Refused(why: Result) | Preserved | Lost | Admitted

  /** The bytes of the slot change. */
  lemma Changed(c: Control, was: seq<byte>)
    requires c.Linked() && c.Out() && (c.operation <==> !c.state.phase.Free?) && c.state.phase.Writing? && c.chain == []
    requires c.state == Slot(c.active, c.state.phase, c.generation, Leases([], c.generation, was), c.pending, c.translated, was, c.state.admitted)
    ensures Sound(c.state.(image := c.base[..]))
    ensures Leases([], c.generation, was) == Leases([], c.generation, c.base[..])
  {
  }

  method WriteChunk(c: Control, segs: seq<Segment>, p: Package, offset: nat, data: seq<byte>) returns (ok: bool)
    requires c.Valid() && c.state.phase.Writing? && Table(p, segs) && c.base.Length == p.slotBytes
    modifies c`state, c.base
    ensures c.Valid() && c.state == old(c.state).(image := c.base[..])
    ensures !c.translated ==> ok
    ensures ok ==> forall x :: 0 <= x < c.base.Length ==> c.base[x] == TakenBy(segs, |segs|, old(c.base[x]), offset, data, x)
  {
    c.Alone();
    assert forall i :: 0 <= i < |segs| ==> GoodSegment(p, segs[i]);
    ghost var was := c.base[..];
    ok := true;
    if c.translated { ok := ScatterVm(segs, c.base, offset, data); } else { Scatter(segs, c.base, offset, data); }
    Changed(c, was);
    c.state := c.state.(image := c.base[..]);
  }

  method WriteTails(c: Control, segs: seq<Segment>, p: Package) returns (ok: bool)
    requires c.Valid() && c.state.phase.Writing? && Table(p, segs) && c.base.Length == p.slotBytes
    modifies c`state, c.base
    ensures c.Valid() && c.state == old(c.state).(image := c.base[..])
    ensures !c.translated ==> ok
    ensures ok ==> forall x :: 0 <= x < c.base.Length ==> c.base[x] == Zeroed(segs, |segs|, old(c.base[x]), x)
  {
    c.Alone();
    assert forall i :: 0 <= i < |segs| ==> GoodSegment(p, segs[i]);
    ghost var was := c.base[..];
    ok := true;
    if c.translated { ok := ZeroTailsVm(segs, c.base); } else { ZeroTails(segs, c.base); }
    Changed(c, was);
    c.state := c.state.(image := c.base[..]);
  }

  /** The loop over the stream, in chunks of `staging` bytes, each of which may fail to be read. */
  method ReadStream(c: Control, segs: seq<Segment>, p: Package, hash: Hash<Eight>, prefix: seq<byte>, elf: seq<byte>, staging: nat)
    returns (ok: bool)
    requires c.Valid() && c.state.phase.Writing? && Table(p, segs) && c.base.Length == p.slotBytes && |elf| == p.elfBytes && 0 < staging
    requires hash.Valid() && hash.Message() == prefix && hash.block != c.base
    modifies c`state, c.base, hash, hash.block
    ensures c.Valid() && c.state == old(c.state).(image := c.base[..])
    ensures hash.Valid() && (ok ==> hash.Message() == prefix + elf && Partial(segs, old(c.base[..]), c.base[..], elf, |elf|))
  {
    ghost var was := c.base[..];
    var offset := 0;
    ok := true;
    assert elf[..0] == [];
    while ok && offset < |elf|
      invariant offset <= |elf| && c.Valid() && c.state == old(c.state).(image := c.base[..]) && hash.Valid()
      invariant ok ==> hash.Message() == prefix + elf[..offset] && Partial(segs, was, c.base[..], elf, offset)
      decreases |elf| - offset, ok
    {
      ok := *;
      if ok {
        var bytes := if |elf| - offset > staging then staging else |elf| - offset;
        ok := ReadChunk(c, segs, p, hash, prefix, elf, offset, bytes, was);
        offset := offset + bytes;
      }
    }
    assert elf[..|elf|] == elf;
  }

  method ReadChunk(c: Control, segs: seq<Segment>, p: Package, hash: Hash<Eight>, ghost prefix: seq<byte>, elf: seq<byte>, offset: nat, bytes: nat, ghost was: seq<byte>)
    returns (ok: bool)
    requires c.Valid() && c.state.phase.Writing? && Table(p, segs) && c.base.Length == p.slotBytes && offset + bytes <= |elf|
    requires hash.Valid() && hash.Message() == prefix + elf[..offset] && hash.block != c.base
    requires Partial(segs, was, c.base[..], elf, offset)
    modifies c`state, c.base, hash, hash.block
    ensures c.Valid() && c.state == old(c.state).(image := c.base[..])
    ensures hash.Valid() && hash.Message() == prefix + elf[..offset + bytes]
    ensures ok ==> Partial(segs, was, c.base[..], elf, offset + bytes)
  {
    HashChunk(hash, prefix, elf, offset, bytes);
    ok := PutChunk(c, segs, p, elf, offset, bytes, was);
  }

  method HashChunk(hash: Hash<Eight>, ghost prefix: seq<byte>, elf: seq<byte>, offset: nat, bytes: nat)
    requires offset + bytes <= |elf| && hash.Valid() && hash.Message() == prefix + elf[..offset]
    modifies hash, hash.block
    ensures hash.Valid() && hash.Message() == prefix + elf[..offset + bytes]
  {
    hash.Update(elf[offset..offset + bytes]);
    assert elf[..offset + bytes] == elf[..offset] + elf[offset..offset + bytes];
  }

  method PutChunk(c: Control, segs: seq<Segment>, p: Package, elf: seq<byte>, offset: nat, bytes: nat, ghost was: seq<byte>) returns (ok: bool)
    requires c.Valid() && c.state.phase.Writing? && Table(p, segs) && c.base.Length == p.slotBytes && offset + bytes <= |elf|
    requires Partial(segs, was, c.base[..], elf, offset)
    modifies c`state, c.base
    ensures c.Valid() && c.state == old(c.state).(image := c.base[..])
    ensures ok ==> Partial(segs, was, c.base[..], elf, offset + bytes)
  {
    ghost var mid := c.base[..];
    ok := WriteChunk(c, segs, p, offset, elf[offset..offset + bytes]);
    if ok { PartialMore(p, segs, was, mid, c.base[..], elf, offset, elf[offset..offset + bytes]); }
  }

  /** What a load past its point of no return comes to. */
  ghost predicate Completed(segs: seq<Segment>, was: seq<byte>, now: seq<byte>, prefix: seq<byte>, elf: seq<byte>, wanted: seq<byte>)
  {
    Digest(prefix + elf) == wanted && Loaded(segs, was, now, elf)
  }

  /** Writing the image, up to the check of its digest and the tails. */
  method WriteImage(c: Control, segs: seq<Segment>, p: Package, prefix: seq<byte>, elf: seq<byte>, wanted: seq<byte>, staging: nat)
    returns (ok: bool)
    requires c.Valid() && c.state.phase.Writing? && Table(p, segs) && c.base.Length == p.slotBytes && |elf| == p.elfBytes && 0 < staging
    modifies c`state, c.base
    ensures c.Valid() && c.state == old(c.state).(image := c.base[..])
    ensures ok ==> Completed(segs, old(c.base[..]), c.base[..], prefix, elf, wanted)
  {
    ghost var was := c.base[..];
    var hash := StartHash(prefix);
    ok := ReadStream(c, segs, p, hash, prefix, elf, staging);
    if ok { ok := CheckImage(c, segs, p, hash, prefix, elf, wanted, was); }
  }

  method StartHash(prefix: seq<byte>) returns (hash: Hash<Eight>)
    ensures fresh(hash) && fresh(hash.block) && hash.Valid() && hash.Message() == prefix
    ensures hash.f == Compressed && hash.first == Initial()
  {
    hash := new Hash<Eight>(Compressed, Initial());
    hash.Update(prefix);
    assert [] + prefix == prefix;
  }

  /** The digest, and then the tails. */
  method CheckImage(c: Control, segs: seq<Segment>, p: Package, hash: Hash<Eight>, ghost prefix: seq<byte>, ghost elf: seq<byte>, wanted: seq<byte>, ghost was: seq<byte>)
    returns (ok: bool)
    requires c.Valid() && c.state.phase.Writing? && Table(p, segs) && c.base.Length == p.slotBytes && |elf| == p.elfBytes
    requires hash.Valid() && hash.Message() == prefix + elf && hash.block != c.base && hash.f == Compressed && hash.first == Initial()
    requires Partial(segs, was, c.base[..], elf, |elf|)
    modifies c`state, c.base, hash, hash.block
    ensures c.Valid() && c.state == old(c.state).(image := c.base[..])
    ensures ok ==> Completed(segs, was, c.base[..], prefix, elf, wanted)
  {
    var digest := FinalDigest(hash);
    ok := digest == wanted;
    if ok {
      ghost var mid := c.base[..];
      ok := WriteTails(c, segs, p);
      if ok { LoadedIs(p, segs, was, mid, c.base[..], elf); }
    }
  }

  method FinalDigest(hash: Hash<Eight>) returns (digest: seq<byte>)
    requires hash.Valid() && hash.f == Compressed && hash.first == Initial()
    modifies hash, hash.block
    ensures digest == Digest(old(hash.Message()))
  {
    var r := hash.Final();
    digest := DigestOf(r);
  }

  /**
   ovl_load, with a package whose header and segment table have been read.  Refused and early
   failures leave the slot as it was; later ones leave it inactive, and a translated one perhaps
   to be cleaned up; an admitted image is the one that was asked for, in place, one generation on.
   */
  method Load(c: Control, prepared: bool, segs: seq<Segment>, p: Package, prefix: seq<byte>, elf: seq<byte>, wanted: seq<byte>, staging: nat)
    returns (r: Ending)
    requires c.Valid() && p.vm == c.translated && c.base.Length == p.slotBytes && 0 < staging
    requires prepared ==> Table(p, segs) && |elf| == p.elfBytes && p.slotBytes % Unit(p) == 0
    modifies c, c.base
    ensures c.Valid() && (r.Refused? <==> Report(old(c.state), ClaimLoad) != Done) && (r.Refused? ==> r.why == Report(old(c.state), ClaimLoad))
    ensures r.Refused? || r.Preserved? ==> c.state == old(c.state) && c.base[..] == old(c.base[..])
    ensures r.Preserved? ==> !prepared || c.translated
    ensures r.Lost? ==> !c.active && c.state == old(c.state).(active := false, pending := c.pending, image := c.base[..]) && (c.pending ==> c.translated)
    ensures r.Admitted? ==> Completed(segs, old(c.base[..]), c.base[..], prefix, elf, wanted) && c.active
    ensures r.Admitted? ==> c.state == Slot(true, Free, old(c.generation) + 1, map[], false, c.translated, c.base[..], c.base[..])
  {
    var claimed := c.Claim(true);
    if claimed != Done { return Refused(claimed); }
    var ok := prepared;
    if ok { ok := Plan(c, segs, p); }
    if !ok {
      c.Finish(false, false, false);
      r := Preserved;
    } else {
      c.BeginWriting();
      r := LoadClaimed(c, segs, p, prefix, elf, wanted, staging);
    }
  }

  /** The permissions of the pages of a translated slot, and vm_exec_prepare, which may fail. */
  method Plan(c: Control, segs: seq<Segment>, p: Package) returns (ok: bool)
    requires p.vm == c.translated && Table(p, segs) && p.slotBytes % Unit(p) == 0
    ensures !c.translated ==> ok
  {
    ok := true;
    if c.translated {
      Whole(p.slotBytes, Unit(p));
      var pages := PagePlan(p, segs, p.slotBytes / Unit(p));
      ok := *;
    }
  }

  lemma Whole(n: nat, unit: nat)
    requires unit > 0 && n % unit == 0
    ensures 0 <= n / unit && n / unit * unit == n
  {
  }

  /**
   Past the point of no return.  On a translated slot beginning, publishing and retiring may
   fail; closing the source may fail on both.
   */
  method LoadClaimed(c: Control, segs: seq<Segment>, p: Package, prefix: seq<byte>, elf: seq<byte>, wanted: seq<byte>, staging: nat)
    returns (r: Ending)
    requires c.Valid() && c.state.phase.Writing? && Table(p, segs) && c.base.Length == p.slotBytes
    requires |elf| == p.elfBytes && 0 < staging
    modifies c, c.base
    ensures c.Valid() && (r.Lost? || r.Admitted?)
    ensures r.Lost? ==> c.state == old(c.state).(phase := Free, pending := c.pending, active := false, image := c.base[..])
    ensures r.Lost? ==> (c.pending ==> c.translated)
    ensures r.Admitted? ==> Completed(segs, old(c.base[..]), c.base[..], prefix, elf, wanted)
    ensures r.Admitted? ==> c.state == old(c.state).(phase := Free, pending := false, active := true, generation := old(c.generation) + 1,
                                                     image := c.base[..], admitted := c.base[..])
  {
    var begun := true;
    if c.translated { begun := *; }
    var ok := begun;
    if ok { ok := WriteImage(c, segs, p, prefix, elf, wanted, staging); }
    var closed, published := *, true;
    if c.translated { published := *; }
    ok := ok && closed && published;
    var pending := false;
    if c.translated && !ok { pending := *; }
    c.Finish(ok, true, pending);
    r := if ok then Admitted else Lost;
  }
}
