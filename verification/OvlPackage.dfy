/**
 The packages of libkosoverlay: the checks of the segment table, the pages of a translated
 slot, and the scattering of an ELF stream that arrives in chunks.
 */
module OvlPackage {
  import opened Basics
  import opened Arith

  const DESCRIPTOR_BYTES := 32

  datatype Segment = Segment(memoryOffset: nat, fileBytes: nat, memoryBytes: nat, fileOffset: nat, permissions: nat, alignment: nat)

  /** What the header says. */
  datatype Package = Package(base: nat, slotBytes: nat, entryOffset: nat, elfBytes: nat, vm: bool)

  function LittleEndian(d: seq<byte>, p: nat): (v: nat)
    requires p + 4 <= |d|
  {
    d[p] as nat + (d[p + 1] as nat) * 256 + (d[p + 2] as nat) * 65536 + (d[p + 3] as nat) * 16777216
  }

  /** The unit in which permissions may change. */
  function Unit(p: Package): (u: nat)
    ensures u > 0
  {
    if p.vm then 4096 else 32
  }

  /** The end of a segment in memory, and the end of its last page. */
  function End(s: Segment): (e: nat)
  {
    s.memoryOffset + s.memoryBytes
  }

  function PageEnd(s: Segment, u: nat): (e: nat)
    requires u > 0
  {
    (End(s) + u - 1) / u * u
  }

  function PageStart(s: Segment, u: nat): (e: nat)
    requires u > 0
  {
    s.memoryOffset / u * u
  }

  predicate PowerOfTwo(n: nat)
  {
    n == 1 || (n > 1 && n % 2 == 0 && PowerOfTwo(n / 2))
  }

  /** What is asked of a segment by itself: bounds, permissions without write and execute together, congruent alignment. */
  predicate GoodSegment(p: Package, s: Segment)
  {
    && 0 < s.memoryBytes && s.fileBytes <= s.memoryBytes && End(s) <= p.slotBytes
    && s.fileOffset + s.fileBytes <= p.elfBytes
    && s.permissions < 8 && s.permissions / 4 % 2 == 1 && s.permissions % 4 != 3
    && (s.alignment > 1 ==> PowerOfTwo(s.alignment) && (p.base + s.memoryOffset) % s.alignment == s.fileOffset % s.alignment)
  }

  /** What is asked of neighbours: in order, and no page with two kinds of permissions. */
  predicate Follows(u: nat, s: Segment, t: Segment)
    requires u > 0
  {
    End(s) <= t.memoryOffset && (PageStart(t, u) < PageEnd(s, u) ==> t.permissions == s.permissions)
  }

  predicate HoldsEntry(p: Package, s: Segment)
  {
    s.permissions % 2 == 1 && s.memoryOffset <= p.entryOffset && p.entryOffset + 2 <= s.memoryOffset + s.fileBytes
  }

  ghost predicate Table(p: Package, segs: seq<Segment>)
  {
    && (forall i :: 0 <= i < |segs| ==> GoodSegment(p, segs[i]))
    && (forall i :: 0 < i < |segs| ==> Follows(Unit(p), segs[i - 1], segs[i]))
  }

  /** The tables that are accepted: also, one segment holds the entry. */
  ghost predicate Accepted(p: Package, segs: seq<Segment>)
  {
    Table(p, segs) && HasEntry(p, segs)
  }

  ghost predicate HasEntry(p: Package, segs: seq<Segment>)
  {
    exists i :: 0 <= i < |segs| && HoldsEntry(p, segs[i])
  }

  function SegmentAt(d: seq<byte>, i: nat): (s: Segment)
    requires DESCRIPTOR_BYTES * (i + 1) <= |d|
  {
    var q := DESCRIPTOR_BYTES * i;
    Segment(LittleEndian(d, q), LittleEndian(d, q + 4), LittleEndian(d, q + 8), LittleEndian(d, q + 12),
            LittleEndian(d, q + 16), LittleEndian(d, q + 20))
  }

  // ---------------------------------------------------------------- what acceptance means

  lemma {:induction false} InOrder(p: Package, segs: seq<Segment>, i: nat, j: nat)
    requires Table(p, segs) && i < j < |segs|
    ensures End(segs[i]) <= segs[j].memoryOffset
  {
    if i < j - 1 {
      InOrder(p, segs, i, j - 1);
      assert GoodSegment(p, segs[j - 1]);
    }
    assert Follows(Unit(p), segs[j - 1], segs[j]);
  }

  /** The segment has a byte in the page. */
  predicate Touches(s: Segment, u: nat, page: nat)
    requires u > 0
  {
    s.memoryOffset < (page + 1) * u && page * u < End(s)
  }

  lemma PageOf(s: Segment, u: nat, page: nat)
    requires u > 0 && Touches(s, u, page)
    ensures PageStart(s, u) <= page * u < PageEnd(s, u)
  {
    Aligned(s.memoryOffset, u, page);
    Aligned(End(s) + u - 1, u, page + 1);
  }

  /** Rounding down, against a multiple. */
  lemma Aligned(n: nat, u: nat, k: nat)
    requires u > 0
    ensures n < (k + 1) * u ==> n / u * u <= k * u
    ensures k * u <= n ==> k * u <= n / u * u
  {
    DivMod(n, u);
    var q := n / u;
    if q > k {
      Multiples(k + 1, q, u);
      Multiples(k, q, u);
    } else {
      Multiples(q, k, u);
      if q < k { Multiples(q + 1, k, u); }
    }
  }

  lemma Multiples(a: nat, b: nat, u: nat)
    requires a <= b
    ensures a * u <= b * u && (a + 1) * u == a * u + u
  {
    if a < b { MulMono(u, a, b); }
  }

  /** All segments that touch a page have the same permissions. */
  lemma {:induction false} OnePermission(p: Package, segs: seq<Segment>, i: nat, j: nat, page: nat)
    requires Table(p, segs) && i < j < |segs| && Touches(segs[i], Unit(p), page) && Touches(segs[j], Unit(p), page)
    ensures segs[i].permissions == segs[j].permissions
  {
    if i < j - 1 {
      InOrder(p, segs, i, j - 1);
      InOrder(p, segs, j - 1, j);
      assert GoodSegment(p, segs[j - 1]);
      OnePermission(p, segs, i, j - 1, page);
    }
    assert Follows(Unit(p), segs[j - 1], segs[j]);
    PageOf(segs[j - 1], Unit(p), page);
    PageOf(segs[j], Unit(p), page);
  }

  // ---------------------------------------------------------------- the segment table

  /** The first `n` descriptors. */
  function Parsed(d: seq<byte>, n: nat): (segs: seq<Segment>)
    requires DESCRIPTOR_BYTES * n <= |d|
    ensures |segs| == n && forall i :: 0 <= i < n ==> segs[i] == SegmentAt(d, i)
  {
    seq(n, i requires 0 <= i < n => SegmentAt(d, i))
  }

  /** The last eight bytes of a descriptor are reserved. */
  predicate Reserved(d: seq<byte>, i: nat)
    requires DESCRIPTOR_BYTES * (i + 1) <= |d|
  {
    forall k :: DESCRIPTOR_BYTES * i + 24 <= k < DESCRIPTOR_BYTES * (i + 1) ==> d[k] == 0
  }

  method ZeroBytes(d: seq<byte>, from: nat, end: nat) returns (ok: bool)
    requires from <= end <= |d|
    ensures ok <==> forall k :: from <= k < end ==> d[k] == 0
  {
    for k := from to end
      invariant forall j :: from <= j < k ==> d[j] == 0
    {
      if d[k] != 0 { return false; }
    }
    ok := true;
  }

  /** Descriptor `i` is good, and so is its place after the one before. */
  predicate GoodAt(d: seq<byte>, p: Package, i: nat)
    requires DESCRIPTOR_BYTES * (i + 1) <= |d|
  {
    && Reserved(d, i) && GoodSegment(p, SegmentAt(d, i))
    && (i > 0 ==> Follows(Unit(p), SegmentAt(d, i - 1), SegmentAt(d, i)))
  }

  /** The checks of one descriptor. */
  method CheckSegment(d: seq<byte>, i: nat, p: Package, previous: Segment) returns (ok: bool, s: Segment)
    requires DESCRIPTOR_BYTES * (i + 1) <= |d| && (i > 0 ==> previous == SegmentAt(d, i - 1))
    ensures s == SegmentAt(d, i) && (ok <==> GoodAt(d, p, i))
  {
    s := SegmentAt(d, i);
    ok := ZeroBytes(d, DESCRIPTOR_BYTES * i + 24, DESCRIPTOR_BYTES * (i + 1));
    ok := ok && GoodSegment(p, s) && (i > 0 ==> Follows(Unit(p), previous, s));
  }

  /** The first `n` descriptors are good. */
  predicate AllGood(d: seq<byte>, p: Package, n: nat)
    requires DESCRIPTOR_BYTES * n <= |d|
  {
    n == 0 || (AllGood(d, p, n - 1) && GoodAt(d, p, n - 1))
  }

  predicate Entered(d: seq<byte>, p: Package, n: nat)
    requires DESCRIPTOR_BYTES * n <= |d|
  {
    n > 0 && (Entered(d, p, n - 1) || HoldsEntry(p, SegmentAt(d, n - 1)))
  }

  /** ovl_package_segments: accepts exactly the good tables in which some segment holds the entry. */
  method Segments(d: seq<byte>, n: nat, p: Package) returns (ok: bool, segs: seq<Segment>)
    requires DESCRIPTOR_BYTES * n <= |d|
    ensures ok <==> Accepted(p, Parsed(d, n)) && AllReserved(d, n)
    ensures ok ==> segs == Parsed(d, n)
  {
    segs := [];
    var found, i, previous := false, 0, Segment(0, 0, 0, 0, 0, 0);
    ok := true;
    while ok && i < n
      invariant i <= n && (ok ==> segs == Parsed(d, i)) && (i > 0 ==> previous == SegmentAt(d, i - 1))
      invariant (ok <==> AllGood(d, p, i)) && (found <==> Entered(d, p, i))
    {
      ok, previous := CheckSegment(d, i, p, previous);
      found := found || HoldsEntry(p, previous);
      segs := segs + [previous];
      i := i + 1;
    }
    if !ok { StillBad(d, p, i, n); }
    AllGoodIs(d, p, n);
    EnteredIs(d, p, n);
    ok := ok && found;
  }

  lemma {:induction false} StillBad(d: seq<byte>, p: Package, i: nat, n: nat)
    requires i <= n && DESCRIPTOR_BYTES * n <= |d| && !AllGood(d, p, i)
    ensures !AllGood(d, p, n)
  {
    if i < n { StillBad(d, p, i, n - 1); }
  }

  ghost predicate AllReserved(d: seq<byte>, n: nat)
    requires DESCRIPTOR_BYTES * n <= |d|
  {
    forall i :: 0 <= i < n ==> Reserved(d, i)
  }

  /** Accepting a table is each of its descriptors being good. */
  lemma {:induction false} AllGoodIs(d: seq<byte>, p: Package, n: nat)
    requires DESCRIPTOR_BYTES * n <= |d|
    ensures AllGood(d, p, n) <==> Table(p, Parsed(d, n)) && AllReserved(d, n)
  {
    if n > 0 {
      AllGoodIs(d, p, n - 1);
      ParsedMore(d, n);
      TableMore(p, Parsed(d, n - 1), SegmentAt(d, n - 1));
      assert AllReserved(d, n) <==> AllReserved(d, n - 1) && Reserved(d, n - 1);
    }
  }

  lemma {:induction false} EnteredIs(d: seq<byte>, p: Package, n: nat)
    requires DESCRIPTOR_BYTES * n <= |d|
    ensures Entered(d, p, n) <==> HasEntry(p, Parsed(d, n))
  {
    if n > 0 {
      EnteredIs(d, p, n - 1);
      ParsedMore(d, n);
      EntryMore(p, Parsed(d, n - 1), SegmentAt(d, n - 1));
    }
  }

  lemma ParsedMore(d: seq<byte>, n: nat)
    requires 0 < n && DESCRIPTOR_BYTES * n <= |d|
    ensures Parsed(d, n) == Parsed(d, n - 1) + [SegmentAt(d, n - 1)]
    ensures n > 1 ==> Parsed(d, n - 1)[n - 2] == SegmentAt(d, n - 2)
  {
  }

  lemma TableMore(p: Package, segs: seq<Segment>, s: Segment)
    ensures Table(p, segs + [s]) <==>
            Table(p, segs) && GoodSegment(p, s) && (segs != [] ==> Follows(Unit(p), segs[|segs| - 1], s))
  {
    var r := segs + [s];
    assert forall i :: 0 <= i < |segs| ==> segs[i] == r[i];
    assert r[|segs|] == s;
  }

  lemma EntryMore(p: Package, segs: seq<Segment>, s: Segment)
    ensures HasEntry(p, segs + [s]) <==> HoldsEntry(p, s) || HasEntry(p, segs)
  {
    var r := segs + [s];
    assert forall i :: 0 <= i < |segs| ==> segs[i] == r[i];
    assert r[|segs|] == s;
  }

  // ---------------------------------------------------------------- pages

  /** The page plan: the permissions of what touches the page, 0 where nothing does. */
  ghost predicate Planned(p: Package, segs: seq<Segment>, pages: seq<nat>)
  {
    && (forall i, page :: 0 <= i < |segs| && 0 <= page < |pages| && Touches(segs[i], Unit(p), page) ==> pages[page] == segs[i].permissions)
    && (forall page :: 0 <= page < |pages| && pages[page] != 0 ==> exists i :: 0 <= i < |segs| && Touches(segs[i], Unit(p), page))
  }

  /** The pages of a segment, by division. */
  lemma PagesOf(s: Segment, u: nat, page: nat)
    requires u > 0
    ensures Touches(s, u, page) <==> s.memoryOffset / u <= page < (End(s) + u - 1) / u
  {
    Quotient(s.memoryOffset, u, page);
    Quotient(End(s) + u - 1, u, page);
  }

  lemma Quotient(n: nat, u: nat, k: nat)
    requires u > 0
    ensures n / u <= k <==> n < (k + 1) * u
  {
    DivMod(n, u);
    var q := n / u;
    Multiples(k, k + 1, u);
    if q <= k { Multiples(q, k, u); } else { Multiples(k + 1, q, u); }
  }

  lemma PlannedMore(p: Package, segs: seq<Segment>, i: nat, was: seq<nat>, now: seq<nat>)
    requires Table(p, segs) && i < |segs| && Planned(p, segs[..i], was) && |now| == |was|
    requires forall page :: 0 <= page < |now| ==> now[page] == if Touches(segs[i], Unit(p), page) then segs[i].permissions else was[page]
    ensures Planned(p, segs[..i + 1], now)
  {
    var s, r := segs[..i], segs[..i + 1];
    forall j, page | 0 <= j < |r| && 0 <= page < |now| && Touches(r[j], Unit(p), page)
      ensures now[page] == r[j].permissions
    {
      if j < i {
        assert s[j] == r[j];
        if Touches(segs[i], Unit(p), page) { OnePermission(p, segs, j, i, page); }
      }
    }
    forall page | 0 <= page < |now| && now[page] != 0
      ensures exists j :: 0 <= j < |r| && Touches(r[j], Unit(p), page)
    {
      if Touches(segs[i], Unit(p), page) {
        assert Touches(r[i], Unit(p), page);
      } else {
        var j :| 0 <= j < |s| && Touches(s[j], Unit(p), page);
        assert r[j] == s[j];
      }
    }
  }

  /** The memset over one segment's pages. */
  method PlanSegment(u: nat, s: Segment, pages: array<nat>)
    requires u > 0 && (End(s) + u - 1) / u <= pages.Length
    modifies pages
    ensures forall page :: 0 <= page < pages.Length ==> pages[page] == if Touches(s, u, page) then s.permissions else old(pages[page])
  {
    var first, end := s.memoryOffset / u, (End(s) + u - 1) / u;
    forall page | 0 <= page < pages.Length
      ensures Touches(s, u, page) <==> first <= page < end
    {
      PagesOf(s, u, page);
    }
    var k := first;
    while k < end
      invariant first <= k
      invariant forall page :: 0 <= page < pages.Length ==> pages[page] == if first <= page < k && page < end then s.permissions else old(pages[page])
    {
      pages[k] := s.permissions;
      k := k + 1;
    }
  }

  /**
   The page plan of a translated slot: every page has the permissions of every segment that
   touches it, and none is writable and executable at once.
   */
  method PagePlan(p: Package, segs: seq<Segment>, count: nat) returns (pages: array<nat>)
    requires Table(p, segs) && count * Unit(p) == p.slotBytes
    ensures pages.Length == count && fresh(pages) && Planned(p, segs, pages[..])
    ensures forall page :: 0 <= page < count ==> pages[page] % 4 != 3
  {
    pages := new nat[count](_ => 0);
    var i := 0;
    while i < |segs|
      invariant i <= |segs| && fresh(pages) && pages.Length == count && Planned(p, segs[..i], pages[..])
    {
      ghost var was := pages[..];
      WithinPlan(p, segs[i], count);
      PlanSegment(Unit(p), segs[i], pages);
      PlannedMore(p, segs, i, was, pages[..]);
      i := i + 1;
    }
    assert segs[..i] == segs;
    NeverBoth(p, segs, pages[..]);
  }

  lemma WithinPlan(p: Package, s: Segment, count: nat)
    requires GoodSegment(p, s) && count * Unit(p) == p.slotBytes
    ensures (End(s) + Unit(p) - 1) / Unit(p) <= count
  {
    Quotient(End(s) + Unit(p) - 1, Unit(p), count);
    Multiples(count, count + 1, Unit(p));
  }

  lemma NeverBoth(p: Package, segs: seq<Segment>, pages: seq<nat>)
    requires Table(p, segs) && Planned(p, segs, pages)
    ensures forall page :: 0 <= page < |pages| ==> pages[page] % 4 != 3
  {
    forall page | 0 <= page < |pages| && pages[page] != 0
      ensures pages[page] % 4 != 3
    {
      var i :| 0 <= i < |segs| && Touches(segs[i], Unit(p), page);
      assert GoodSegment(p, segs[i]);
    }
  }

  // ---------------------------------------------------------------- scattering

  /** The byte `x` of the slot is one of a segment's file bytes. */
  predicate InFile(s: Segment, x: nat)
  {
    s.memoryOffset <= x < s.memoryOffset + s.fileBytes
  }

  predicate InSegment(s: Segment, x: nat)
  {
    s.memoryOffset <= x < End(s)
  }

  /** Its place in the ELF stream. */
  function Place(s: Segment, x: nat): (q: nat)
    requires InFile(s, x)
  {
    s.fileOffset + x - s.memoryOffset
  }

  /** The byte `x` after one segment has taken its part of a chunk. */
  function Taken(s: Segment, was: byte, offset: nat, data: seq<byte>, x: nat): (b: byte)
  {
    if InFile(s, x) && offset <= Place(s, x) < offset + |data| then data[Place(s, x) - offset] else was
  }

  /** After the first `n` segments have. */
  function TakenBy(segs: seq<Segment>, n: nat, was: byte, offset: nat, data: seq<byte>, x: nat): (b: byte)
    requires n <= |segs|
  {
    if n == 0 then was else Taken(segs[n - 1], TakenBy(segs, n - 1, was, offset, data, x), offset, data, x)
  }

  /** memcpy of one segment's part. */
  method TakePart(s: Segment, slot: array<byte>, offset: nat, data: seq<byte>)
    requires s.memoryOffset + s.fileBytes <= slot.Length
    modifies slot
    ensures forall x :: 0 <= x < slot.Length ==> slot[x] == Taken(s, old(slot[x]), offset, data, x)
  {
    var first := if offset > s.fileOffset then offset else s.fileOffset;
    var last := if s.fileOffset + s.fileBytes > offset + |data| then offset + |data| else s.fileOffset + s.fileBytes;
    if first < last {
      var at := s.memoryOffset + first - s.fileOffset;
      forall x | at <= x < at + last - first {
        slot[x] := data[first - offset + x - at];
      }
    }
  }

  /** ovl_package_scatter. */
  method Scatter(segs: seq<Segment>, slot: array<byte>, offset: nat, data: seq<byte>)
    requires forall i :: 0 <= i < |segs| ==> segs[i].memoryOffset + segs[i].fileBytes <= slot.Length
    modifies slot
    ensures forall x :: 0 <= x < slot.Length ==> slot[x] == TakenBy(segs, |segs|, old(slot[x]), offset, data, x)
  {
    var i := 0;
    while i < |segs|
      invariant i <= |segs|
      invariant forall x :: 0 <= x < slot.Length ==> slot[x] == TakenBy(segs, i, old(slot[x]), offset, data, x)
    {
      TakePart(segs[i], slot, offset, data);
      i := i + 1;
    }
  }

  /** A failed write to translated memory may leave anything in it. */
  method Garble(slot: array<byte>)
    modifies slot
  {
    var junk: seq<byte> := *;
    forall x | 0 <= x < slot.Length && x < |junk| { slot[x] := junk[x]; }
  }

  /** scatter_vm: the writes go through the memory's manager, and the first that fails ends it. */
  method ScatterVm(segs: seq<Segment>, slot: array<byte>, offset: nat, data: seq<byte>) returns (ok: bool)
    requires forall i :: 0 <= i < |segs| ==> segs[i].memoryOffset + segs[i].fileBytes <= slot.Length
    modifies slot
    ensures ok ==> forall x :: 0 <= x < slot.Length ==> slot[x] == TakenBy(segs, |segs|, old(slot[x]), offset, data, x)
  {
    var i := 0;
    ok := true;
    while ok && i < |segs|
      invariant i <= |segs|
      invariant ok ==> forall x :: 0 <= x < slot.Length ==> slot[x] == TakenBy(segs, i, old(slot[x]), offset, data, x)
      decreases ok, |segs| - i
    {
      ok := *;
      if ok {
        TakePart(segs[i], slot, offset, data);
        i := i + 1;
      } else {
        Garble(slot);
      }
    }
  }

  /** A byte that no other segment has is taken by its own alone. */
  lemma {:induction false} TakenOnce(segs: seq<Segment>, n: nat, was: byte, offset: nat, data: seq<byte>, x: nat, i: nat)
    requires n <= |segs| && i < |segs| && forall j :: 0 <= j < |segs| && j != i ==> !InFile(segs[j], x)
    ensures TakenBy(segs, n, was, offset, data, x) == if i < n then Taken(segs[i], was, offset, data, x) else was
  {
    if n > 0 { TakenOnce(segs, n - 1, was, offset, data, x, i); }
  }

  lemma {:induction false} TakenNot(segs: seq<Segment>, n: nat, was: byte, offset: nat, data: seq<byte>, x: nat)
    requires n <= |segs| && forall j :: 0 <= j < |segs| ==> !InFile(segs[j], x)
    ensures TakenBy(segs, n, was, offset, data, x) == was
  {
    if n > 0 { TakenNot(segs, n - 1, was, offset, data, x); }
  }

  // ---------------------------------------------------------------- the image

  /** The slot while the stream comes in: of its first `n` bytes, all that belong in it are in place. */
  ghost predicate Partial(segs: seq<Segment>, was: seq<byte>, now: seq<byte>, elf: seq<byte>, n: nat)
  {
    && |now| == |was|
    && (forall i, x :: 0 <= i < |segs| && 0 <= x < |now| && InFile(segs[i], x) ==> now[x] == Expected(segs[i], was[x], elf, n, x))
    && (forall x :: 0 <= x < |now| && InNoFile(segs, x) ==> now[x] == was[x])
  }

  function Expected(s: Segment, was: byte, elf: seq<byte>, n: nat, x: nat): (b: byte)
    requires InFile(s, x)
  {
    if Place(s, x) < n && Place(s, x) < |elf| then elf[Place(s, x)] else was
  }

  ghost predicate InNoFile(segs: seq<Segment>, x: nat)
  {
    forall i :: 0 <= i < |segs| ==> !InFile(segs[i], x)
  }

  /** Segments share no byte. */
  lemma Alone(p: Package, segs: seq<Segment>, i: nat, j: nat, x: nat)
    requires Table(p, segs) && i < |segs| && j < |segs| && i != j && InSegment(segs[i], x)
    ensures !InSegment(segs[j], x) && !InFile(segs[j], x)
  {
    assert GoodSegment(p, segs[j]);
    if i < j { InOrder(p, segs, i, j); } else { InOrder(p, segs, j, i); }
  }

  /** A chunk of the stream. */
  lemma PartialMore(p: Package, segs: seq<Segment>, was: seq<byte>, mid: seq<byte>, now: seq<byte>, elf: seq<byte>, n: nat, data: seq<byte>)
    requires Table(p, segs) && Partial(segs, was, mid, elf, n) && |now| == |mid|
    requires n + |data| <= |elf| && elf[n..n + |data|] == data
    requires forall x :: 0 <= x < |now| ==> now[x] == TakenBy(segs, |segs|, mid[x], n, data, x)
    ensures Partial(segs, was, now, elf, n + |data|)
  {
    forall i, x | 0 <= i < |segs| && 0 <= x < |now| && InFile(segs[i], x)
      ensures now[x] == Expected(segs[i], was[x], elf, n + |data|, x)
    {
      OwnByte(p, segs, i, x, mid[x], n, data);
      ChunkByte(elf, n, data, Place(segs[i], x));
      assert mid[x] == Expected(segs[i], was[x], elf, n, x);
    }
    forall x | 0 <= x < |now| && InNoFile(segs, x)
      ensures now[x] == was[x]
    {
      TakenNot(segs, |segs|, mid[x], n, data, x);
    }
  }

  lemma OwnByte(p: Package, segs: seq<Segment>, i: nat, x: nat, was: byte, offset: nat, data: seq<byte>)
    requires Table(p, segs) && i < |segs| && InFile(segs[i], x)
    ensures TakenBy(segs, |segs|, was, offset, data, x) == Taken(segs[i], was, offset, data, x)
  {
    assert GoodSegment(p, segs[i]);
    forall j | 0 <= j < |segs| && j != i
      ensures !InFile(segs[j], x)
    {
      Alone(p, segs, i, j, x);
    }
    TakenOnce(segs, |segs|, was, offset, data, x, i);
  }

  lemma ChunkByte(elf: seq<byte>, n: nat, data: seq<byte>, q: nat)
    requires n + |data| <= |elf| && elf[n..n + |data|] == data
    ensures n <= q < n + |data| ==> elf[q] == data[q - n]
  {
  }

  /** An admitted image: every segment has its file bytes, then zeros, and nothing else has changed. */
  ghost predicate Loaded(segs: seq<Segment>, was: seq<byte>, now: seq<byte>, elf: seq<byte>)
  {
    && |now| == |was|
    && (forall i, x :: 0 <= i < |segs| && 0 <= x < |now| && InSegment(segs[i], x) ==> now[x] == ImageByte(segs[i], elf, x))
    && (forall x :: 0 <= x < |now| && InNoSegment(segs, x) ==> now[x] == was[x])
  }

  function ImageByte(s: Segment, elf: seq<byte>, x: nat): (b: byte)
    requires InSegment(s, x)
  {
    if InFile(s, x) && Place(s, x) < |elf| then elf[Place(s, x)] else 0
  }

  ghost predicate InNoSegment(segs: seq<Segment>, x: nat)
  {
    forall i :: 0 <= i < |segs| ==> !InSegment(segs[i], x)
  }

  /** The byte `x` after the tails of the first `n` segments have been set to zero. */
  function Zeroed(segs: seq<Segment>, n: nat, was: byte, x: nat): (b: byte)
    requires n <= |segs|
  {
    if n == 0 then was
    else if InSegment(segs[n - 1], x) && !InFile(segs[n - 1], x) then 0
    else Zeroed(segs, n - 1, was, x)
  }

  /** ovl_package_zero. */
  method ZeroTails(segs: seq<Segment>, slot: array<byte>)
    requires forall i :: 0 <= i < |segs| ==> segs[i].fileBytes <= segs[i].memoryBytes && End(segs[i]) <= slot.Length
    modifies slot
    ensures forall x :: 0 <= x < slot.Length ==> slot[x] == Zeroed(segs, |segs|, old(slot[x]), x)
  {
    var i := 0;
    while i < |segs|
      invariant i <= |segs|
      invariant forall x :: 0 <= x < slot.Length ==> slot[x] == Zeroed(segs, i, old(slot[x]), x)
    {
      ZeroTail(segs[i], slot);
      i := i + 1;
    }
  }

  method ZeroTail(s: Segment, slot: array<byte>)
    requires s.fileBytes <= s.memoryBytes && End(s) <= slot.Length
    modifies slot
    ensures forall x :: 0 <= x < slot.Length ==> slot[x] == if InSegment(s, x) && !InFile(s, x) then 0 else old(slot[x])
  {
    forall x | s.memoryOffset + s.fileBytes <= x < End(s) { slot[x] := 0; }
  }

  /** The same through the memory's manager. */
  method ZeroTailsVm(segs: seq<Segment>, slot: array<byte>) returns (ok: bool)
    requires forall i :: 0 <= i < |segs| ==> segs[i].fileBytes <= segs[i].memoryBytes && End(segs[i]) <= slot.Length
    modifies slot
    ensures ok ==> forall x :: 0 <= x < slot.Length ==> slot[x] == Zeroed(segs, |segs|, old(slot[x]), x)
  {
    var i := 0;
    ok := true;
    while ok && i < |segs|
      invariant i <= |segs|
      invariant ok ==> forall x :: 0 <= x < slot.Length ==> slot[x] == Zeroed(segs, i, old(slot[x]), x)
      decreases ok, |segs| - i
    {
      ok := *;
      if ok {
        ZeroTail(segs[i], slot);
        i := i + 1;
      } else {
        Garble(slot);
      }
    }
  }

  lemma {:induction false} ZeroedOnce(segs: seq<Segment>, n: nat, was: byte, x: nat, i: nat)
    requires n <= |segs| && i < |segs| && InSegment(segs[i], x)
    requires forall j :: 0 <= j < |segs| && j != i ==> !InSegment(segs[j], x)
    ensures Zeroed(segs, n, was, x) == if i < n && !InFile(segs[i], x) then 0 else was
  {
    if n > 0 { ZeroedOnce(segs, n - 1, was, x, i); }
  }

  lemma {:induction false} ZeroedNot(segs: seq<Segment>, n: nat, was: byte, x: nat)
    requires n <= |segs| && InNoSegment(segs, x)
    ensures Zeroed(segs, n, was, x) == was
  {
    if n > 0 { ZeroedNot(segs, n - 1, was, x); }
  }

  /** With the whole stream in and the tails set to zero, the image is complete. */
  lemma LoadedIs(p: Package, segs: seq<Segment>, was: seq<byte>, mid: seq<byte>, now: seq<byte>, elf: seq<byte>)
    requires Table(p, segs) && |elf| == p.elfBytes && Partial(segs, was, mid, elf, |elf|) && |now| == |mid|
    requires forall x :: 0 <= x < |now| ==> now[x] == Zeroed(segs, |segs|, mid[x], x)
    ensures Loaded(segs, was, now, elf)
  {
    forall i, x | 0 <= i < |segs| && 0 <= x < |now| && InSegment(segs[i], x)
      ensures now[x] == ImageByte(segs[i], elf, x)
    {
      OwnTail(p, segs, i, x, mid[x]);
      assert GoodSegment(p, segs[i]);
      if InFile(segs[i], x) { assert mid[x] == Expected(segs[i], was[x], elf, |elf|, x); }
    }
    forall x | 0 <= x < |now| && InNoSegment(segs, x)
      ensures now[x] == was[x]
    {
      ZeroedNot(segs, |segs|, mid[x], x);
      NoFile(p, segs, x);
    }
  }

  lemma OwnTail(p: Package, segs: seq<Segment>, i: nat, x: nat, was: byte)
    requires Table(p, segs) && i < |segs| && InSegment(segs[i], x)
    ensures Zeroed(segs, |segs|, was, x) == if InFile(segs[i], x) then was else 0
  {
    forall j | 0 <= j < |segs| && j != i
      ensures !InSegment(segs[j], x)
    {
      Alone(p, segs, i, j, x);
    }
    ZeroedOnce(segs, |segs|, was, x, i);
  }

  lemma NoFile(p: Package, segs: seq<Segment>, x: nat)
    requires Table(p, segs) && InNoSegment(segs, x)
    ensures InNoFile(segs, x)
  {
    forall i | 0 <= i < |segs|
      ensures !InFile(segs[i], x)
    {
      assert GoodSegment(p, segs[i]);
    }
  }
}
