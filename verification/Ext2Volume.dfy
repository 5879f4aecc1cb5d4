/**
 Which blocks of an ext2 volume are in use: one bitmap and one free count per group, and the
 sum of the counts in the superblock.
 */
module Ext2Volume {
  import opened Arith

  // ---------------------------------------------------------------- counts

  /** Where blocks are: the first one, the number in a group, the number of groups. */
  datatype Layout = Layout(first: nat, perGroup: nat, groups: nat)

  type Geometry = g: Layout | 1 <= g.perGroup witness Layout(0, 1, 0)

  predicate InVolume(g: Geometry, b: nat)
  {
    g.first <= b && Quotient(b - g.first, g.perGroup) < g.groups
  }

  function Group(g: Geometry, b: nat): (k: nat)
    requires InVolume(g, b)
    ensures k < g.groups
  {
    Quotient(b - g.first, g.perGroup)
  }

  function Index(g: Geometry, b: nat): (i: nat)
    requires InVolume(g, b)
    ensures i < g.perGroup
  {
    Remainder(b - g.first, g.perGroup)
  }

  /** The block of a bit in a group's bitmap. */
  function BlockNumber(g: Geometry, k: nat, i: nat): (b: nat)
    requires k < g.groups && i < g.perGroup
    ensures InVolume(g, b) && Group(g, b) == k && Index(g, b) == i
  {
    QuotientOf(g.perGroup, k, i);
    i + Times(g.perGroup, k) + g.first
  }

  lemma SameSpot(g: Geometry, b: nat, c: nat)
    requires InVolume(g, b) && InVolume(g, c) && Group(g, b) == Group(g, c) && Index(g, b) == Index(g, c)
    ensures b == c
  {
    QuotientBack(b - g.first, g.perGroup);
    QuotientBack(c - g.first, g.perGroup);
  }

  /** In the source's own operators. */
  lemma Located(g: Geometry, b: nat)
    requires InVolume(g, b)
    ensures Group(g, b) == (b - g.first) / g.perGroup && Index(g, b) == (b - g.first) % g.perGroup
    ensures b == Index(g, b) + Group(g, b) * g.perGroup + g.first
  {
    QuotientIs(b - g.first, g.perGroup);
    QuotientBack(b - g.first, g.perGroup);
    TimesIs(g.perGroup, Group(g, b));
  }

  /** The bitmaps and the counts. */
  datatype Alloc = Alloc(geo: Geometry, bits: seq<seq<bool>>, groupFree: seq<nat>, free: nat)

  function Clear(s: seq<bool>): (r: nat)
    ensures r <= |s|
  {
    if s == [] then 0 else Clear(s[..|s| - 1]) + if s[|s| - 1] then 0 else 1
  }

  function Sum(s: seq<nat>): (r: nat)
  {
    if s == [] then 0 else Sum(s[..|s| - 1]) + s[|s| - 1]
  }

  /** Each group's free count is its number of clear bits, and the superblock's is their sum. */
  ghost predicate Counted(a: Alloc)
  {
    && |a.bits| == a.geo.groups == |a.groupFree| && (forall k :: 0 <= k < |a.bits| ==> |a.bits[k]| == a.geo.perGroup)
    && (forall k :: 0 <= k < |a.bits| ==> a.groupFree[k] == Clear(a.bits[k])) && a.free == Sum(a.groupFree)
  }

  type Books = a: Alloc | Counted(a) witness Alloc(Layout(0, 1, 0), [], [], 0)

  ghost predicate Taken(a: Books, b: nat)
  {
    InVolume(a.geo, b) && a.bits[Group(a.geo, b)][Index(a.geo, b)]
  }

  ghost predicate Available(a: Books, b: nat)
  {
    InVolume(a.geo, b) && !a.bits[Group(a.geo, b)][Index(a.geo, b)]
  }

  lemma {:induction false} ClearUpdate(s: seq<bool>, i: nat, v: bool)
    requires i < |s|
    ensures Clear(s[i := v]) == Clear(s) + (if v then 0 else 1) - (if s[i] then 0 else 1)
  {
    var n, t := |s| - 1, s[i := v];
    if i < n {
      assert t[..n] == s[..n][i := v];
      ClearUpdate(s[..n], i, v);
    } else {
      assert t[..n] == s[..n];
    }
  }

  lemma {:induction false} SumUpdate(s: seq<nat>, i: nat, v: nat)
    requires i < |s|
    ensures Sum(s[i := v]) == Sum(s) + v - s[i] && s[i] <= Sum(s)
  {
    var n, t := |s| - 1, s[i := v];
    if i < n {
      assert t[..n] == s[..n][i := v];
      SumUpdate(s[..n], i, v);
    } else {
      assert t[..n] == s[..n];
    }
  }

  /** A clear bit is counted. */
  lemma {:induction false} ClearBitCounted(s: seq<bool>, i: nat)
    requires i < |s| && !s[i]
    ensures Clear(s) >= 1
  {
    ClearUpdate(s, i, true);
  }

  /** The blocks of the groups, and those that are in use. */
  ghost function Volume(g: Geometry): (r: iset<nat>)
  {
    iset b: nat | InVolume(g, b)
  }

  ghost function Used(a: Books): (r: iset<nat>)
    ensures r <= Volume(a.geo)
  {
    iset b: nat | Taken(a, b)
  }

  /** One count more or less. */
  function Bump(counts: seq<nat>, k: nat, up: bool): (r: seq<nat>)
    ensures |r| == |counts|
  {
    if k >= |counts| then counts
    else if up then counts[k := counts[k] + 1]
    else if counts[k] > 0 then counts[k := counts[k] - 1] else counts
  }

  /** One bit is one block. */
  lemma UsedChange(a: Books, r: Books, b: nat, v: bool)
    requires InVolume(a.geo, b) && r.geo == a.geo
    requires var k := Group(a.geo, b); r.bits == a.bits[k := a.bits[k][Index(a.geo, b) := v]]
    ensures Used(r) == if v then Used(a) + iset{b} else Used(a) - iset{b}
  {
    forall c: nat | c != b && InVolume(a.geo, c)
      ensures Taken(r, c) == Taken(a, c)
    {
      if Group(a.geo, c) == Group(a.geo, b) && Index(a.geo, c) == Index(a.geo, b) { SameSpot(a.geo, b, c); }
    }
    assert Taken(r, b) == v;
    assert forall c :: c in Used(r) <==> if v then c in Used(a) || c == b else c in Used(a) && c != b;
  }

  /** A free block is taken: its bit is set, and both counts go down. */
  ghost function Take(a: Books, b: nat): (r: Books)
    requires Available(a, b)
    ensures r.geo == a.geo && Used(r) == Used(a) + iset{b}
    ensures var k := Group(a.geo, b);
            && a.groupFree[k] > 0 && r.groupFree == Bump(a.groupFree, k, false) && r.free == a.free - 1 >= 0
  {
    TakeCounted(a, b);
    var k := Group(a.geo, b);
    var r: Books := Alloc(a.geo, a.bits[k := a.bits[k][Index(a.geo, b) := true]], Bump(a.groupFree, k, false), a.free - 1);
    UsedChange(a, r, b, true);
    r
  }

  lemma TakeCounted(a: Books, b: nat)
    requires Available(a, b)
    ensures var k := Group(a.geo, b);
            && a.groupFree[k] > 0 && a.free > 0
            && Counted(Alloc(a.geo, a.bits[k := a.bits[k][Index(a.geo, b) := true]],
                             Bump(a.groupFree, k, false), a.free - 1))
  {
    var k := Group(a.geo, b);
    ClearUpdate(a.bits[k], Index(a.geo, b), true);
    SumUpdate(a.groupFree, k, a.groupFree[k] - 1);
  }

  /** A taken block is released: its bit is cleared, and both counts go up. */
  ghost function Release(a: Books, b: nat): (r: Books)
    requires Taken(a, b)
    ensures r.geo == a.geo && Used(r) == Used(a) - iset{b}
    ensures var k := Group(a.geo, b); r.groupFree == Bump(a.groupFree, k, true) && r.free == a.free + 1
  {
    ReleaseCounted(a, b);
    var k := Group(a.geo, b);
    var r: Books := Alloc(a.geo, a.bits[k := a.bits[k][Index(a.geo, b) := false]], Bump(a.groupFree, k, true), a.free + 1);
    UsedChange(a, r, b, false);
    r
  }

  lemma ReleaseCounted(a: Books, b: nat)
    requires Taken(a, b)
    ensures var k := Group(a.geo, b);
            Counted(Alloc(a.geo, a.bits[k := a.bits[k][Index(a.geo, b) := false]],
                          Bump(a.groupFree, k, true), a.free + 1))
  {
    var k := Group(a.geo, b);
    ClearUpdate(a.bits[k], Index(a.geo, b), false);
    SumUpdate(a.groupFree, k, a.groupFree[k] + 1);
  }

  /** The bits determine the counts. */
  lemma SameUsed(a: Books, b: Books)
    requires a.geo == b.geo && Used(a) == Used(b)
    ensures a == b
  {
    forall k | 0 <= k < a.geo.groups
      ensures a.bits[k] == b.bits[k]
    {
      forall i | 0 <= i < a.geo.perGroup
        ensures a.bits[k][i] == b.bits[k][i]
      {
        var c := BlockNumber(a.geo, k, i);
        assert c in Used(a) <==> c in Used(b);
      }
    }
    assert a.bits == b.bits;
    assert a.groupFree == b.groupFree;
  }

  lemma NoClearBit(s: seq<bool>)
    requires Clear(s) == 0
    ensures forall i :: 0 <= i < |s| ==> s[i]
  {
    forall i | 0 <= i < |s|
      ensures s[i]
    {
      if !s[i] { ClearBitCounted(s, i); }
    }
  }

  /** In a group, every bit but perhaps the last is set. */
  ghost predicate Filled(a: Books, k: nat)
    requires k < a.geo.groups
  {
    forall i :: 0 <= i < a.geo.perGroup - 1 ==> a.bits[k][i]
  }

  ghost predicate AllFilled(a: Books, n: nat)
    requires n <= a.geo.groups
  {
    forall k :: 0 <= k < n ==> Filled(a, k)
  }

  lemma OneMoreFilled(a: Books, n: nat)
    requires n < a.geo.groups && AllFilled(a, n) && Filled(a, n)
    ensures AllFilled(a, n + 1)
  {
  }

  /** When the superblock counts no free block, there is none. */
  lemma NoneFree(a: Books)
    requires a.free == 0
    ensures AllFilled(a, a.geo.groups)
  {
    forall k | 0 <= k < a.geo.groups
      ensures Filled(a, k)
    {
      SumUpdate(a.groupFree, k, 0);
      NoClearBit(a.bits[k]);
    }
  }

  /** All blocks are in use but those of the last bits, and `spare`. */
  ghost predicate FullBut(g: Geometry, used: iset<nat>, spare: set<nat>)
  {
    forall b: nat :: InVolume(g, b) && Index(g, b) < g.perGroup - 1 ==> b in used || b in spare
  }

  /** There are fewer than `n` free blocks that an allocation could take. */
  ghost predicate Scarce(g: Geometry, used: iset<nat>, n: nat)
  {
    exists spare: set<nat> :: |spare| < n && FullBut(g, used, spare)
  }

  lemma NoneLeft(a: Books)
    requires AllFilled(a, a.geo.groups)
    ensures Scarce(a.geo, Used(a), 1)
  {
    forall b: nat | InVolume(a.geo, b) && Index(a.geo, b) < a.geo.perGroup - 1
      ensures b in Used(a)
    {
      assert Filled(a, Group(a.geo, b));
    }
    assert FullBut(a.geo, Used(a), {});
  }

  lemma OneMoreSpare(g: Geometry, used: iset<nat>, b: nat, n: nat)
    requires Scarce(g, used + iset{b}, n)
    ensures Scarce(g, used, n + 1)
  {
    var spare :| |spare| < n && FullBut(g, used + iset{b}, spare);
    assert FullBut(g, used, spare + {b});
    assert |spare + {b}| <= |spare| + 1;
  }

  lemma StillScarce(g: Geometry, used: iset<nat>, m: nat, n: nat)
    requires Scarce(g, used, m) && m <= n
    ensures Scarce(g, used, n)
  {
  }
}
