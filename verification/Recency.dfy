/**
 Least-recently-used order: a bounded list of distinct block numbers, the most recently used
 one last.  What a use does to it, and how long a block stays in it.
 */
module Recency {
  /** No number occurs twice. */
  predicate NoDup(r: seq<nat>)
  {
    r == [] || (NoDup(r[..|r| - 1]) && r[|r| - 1] !in r[..|r| - 1])
  }

  lemma {:induction false} NoDupAt(r: seq<nat>, i: nat, j: nat)
    requires NoDup(r) && i < j < |r|
    ensures r[i] != r[j]
  {
    if j < |r| - 1 { NoDupAt(r[..|r| - 1], i, j); } else { assert r[i] == r[..j][i]; }
  }

  lemma Unequal(r: seq<nat>, i: nat, j: nat)
    requires NoDup(r) && i < |r| && j < |r| && i != j
    ensures r[i] != r[j]
  {
    if i < j { NoDupAt(r, i, j); } else { NoDupAt(r, j, i); }
  }

  /** The list without a block. */
  function Without(r: seq<nat>, b: nat): (q: seq<nat>)
    ensures |q| <= |r| && b !in q && forall x :: x in q <==> x in r && x != b
  {
    if r == [] then []
    else
      var front, last := r[..|r| - 1], r[|r| - 1];
      assert r == front + [last];
      if last == b then Without(front, b) else Without(front, b) + [last]
  }

  lemma {:induction false} WithoutIs(r: seq<nat>, b: nat)
    requires NoDup(r)
    ensures NoDup(Without(r, b)) && |Without(r, b)| == if b in r then |r| - 1 else |r|
  {
    if r != [] {
      var front, last := r[..|r| - 1], r[|r| - 1];
      assert r == front + [last] && last !in front;
      WithoutIs(front, b);
    }
  }

  /** A block is used: it goes last, and if it is new and the list is full the first one goes. */
  function Use(r: seq<nat>, b: nat, cap: nat): (q: seq<nat>)
  {
    if b !in r && 0 < cap <= |r| then r[1..] + [b] else Without(r, b) + [b]
  }

  /** A list of at most `cap` distinct blocks. */
  ghost predicate Order(r: seq<nat>, cap: nat)
  {
    NoDup(r) && |r| <= cap && 0 < cap
  }

  lemma UseOrder(r: seq<nat>, b: nat, cap: nat)
    requires Order(r, cap)
    ensures Order(Use(r, b, cap), cap) && b in Use(r, b, cap) && Above(Use(r, b, cap), b) == {}
  {
    WithoutIs(r, b);
    OneMore(Without(r, b), b);
    AboveEnds(Without(r, b), b);
    if b !in r && cap <= |r| {
      RestIs(r);
      OneMore(r[1..], b);
      AboveEnds(r[1..], b);
    }
  }

  lemma OneMore(r: seq<nat>, b: nat)
    requires NoDup(r) && b !in r
    ensures NoDup(r + [b])
  {
    assert (r + [b])[..|r|] == r;
  }

  lemma {:induction false} RestIs(r: seq<nat>)
    requires NoDup(r) && r != []
    ensures NoDup(r[1..]) && r[0] !in r[1..]
  {
    if |r| > 1 {
      var front := r[..|r| - 1];
      RestIs(front);
      assert r[1..][..|r| - 2] == front[1..] && r == front + [r[|r| - 1]];
    }
  }

  /** The blocks used since a block was. */
  function Above(r: seq<nat>, x: nat): (q: set<nat>)
    ensures forall y :: y in q ==> y in r
  {
    if r == [] || r[|r| - 1] == x then {} else Above(r[..|r| - 1], x) + {r[|r| - 1]}
  }

  lemma {:induction false} AboveIs(r: seq<nat>, x: nat)
    requires NoDup(r) && x in r
    ensures x !in Above(r, x) && |Above(r, x)| < |r|
    ensures r[0] == x ==> |Above(r, x)| == |r| - 1
  {
    if r[|r| - 1] != x {
      var front, last := r[..|r| - 1], r[|r| - 1];
      assert r == front + [last] && last !in front;
      AboveIs(front, x);
    }
  }

  lemma {:induction false} AboveWithout(r: seq<nat>, x: nat, b: nat)
    requires NoDup(r) && x in r && x != b
    ensures Above(Without(r, b), x) == Above(r, x) - {b}
  {
    var front, last := r[..|r| - 1], r[|r| - 1];
    assert r == front + [last] && last !in front;
    if last != x {
      AboveWithout(front, x, b);
      if last != b { AboveLast(Without(front, b), x, last); }
    } else {
      AboveEnds(Without(front, b), x);
    }
  }

  lemma AboveEnds(r: seq<nat>, x: nat)
    ensures Above(r + [x], x) == {}
  {
  }

  lemma {:induction false} AboveRest(r: seq<nat>, x: nat)
    requires NoDup(r) && x in r && r[0] != x
    ensures x in r[1..] && Above(r[1..], x) == Above(r, x)
  {
    var front, last := r[..|r| - 1], r[|r| - 1];
    assert r == front + [last] && r[1..] == front[1..] + [last];
    if last == x {
      AboveEnds(front, x);
      AboveEnds(front[1..], x);
    } else {
      AboveRest(front, x);
      AboveLast(front, x, last);
      AboveLast(front[1..], x, last);
    }
  }

  lemma AboveLast(r: seq<nat>, x: nat, b: nat)
    requires x != b
    ensures Above(r + [b], x) == Above(r, x) + {b}
  {
    assert (r + [b])[..|r|] == r;
  }

  /** After a use of another block, `x` is still there just when fewer than `cap` blocks have been used since it was. */
  lemma UsedOnce(r: seq<nat>, x: nat, b: nat, cap: nat)
    requires Order(r, cap) && x in r && x != b
    ensures x in Use(r, b, cap) <==> |Above(r, x) + {b}| < cap
    ensures x in Use(r, b, cap) ==> Above(Use(r, b, cap), x) == Above(r, x) + {b}
  {
    if b !in r && |r| == cap {
      UsedFull(r, x, b, cap);
    } else {
      UsedRoom(r, x, b, cap);
    }
  }

  lemma UsedRoom(r: seq<nat>, x: nat, b: nat, cap: nat)
    requires Order(r, cap) && x in r && x != b && (b in r || |r| < cap)
    ensures x in Without(r, b) + [b] && |Above(r, x) + {b}| < cap
    ensures Above(Without(r, b) + [b], x) == Above(r, x) + {b}
  {
    AboveWithout(r, x, b);
    AboveLast(Without(r, b), x, b);
    PutBack(Above(r, x), b);
    FewerThan(r, x, b, cap);
  }

  lemma PutBack(a: set<nat>, b: nat)
    ensures a - {b} + {b} == a + {b}
  {
  }

  lemma UsedFull(r: seq<nat>, x: nat, b: nat, cap: nat)
    requires Order(r, cap) && x in r && b !in r && |r| == cap
    ensures x in r[1..] + [b] <==> |Above(r, x) + {b}| < cap
    ensures x in r[1..] + [b] ==> Above(r[1..] + [b], x) == Above(r, x) + {b}
  {
    AboveIs(r, x);
    assert |Above(r, x) + {b}| == |Above(r, x)| + 1 by { assert b !in Above(r, x); }
    if r[0] == x {
      RestIs(r);
    } else {
      AboveRest(r, x);
      AboveLast(r[1..], x, b);
      FirstBelow(r, x);
    }
  }

  /** A block that is not the first has not all the others above it. */
  lemma FirstBelow(r: seq<nat>, x: nat)
    requires NoDup(r) && x in r && r[0] != x
    ensures |Above(r, x)| < |r| - 1
  {
    RestIs(r);
    AboveRest(r, x);
    AboveIs(r[1..], x);
  }

  lemma FewerThan(r: seq<nat>, x: nat, b: nat, cap: nat)
    requires Order(r, cap) && x in r && x != b && (b in r || |r| < cap)
    ensures |Above(r, x) + {b}| < cap
  {
    AboveIs(r, x);
    if b in Above(r, x) {
      assert Above(r, x) + {b} == Above(r, x);
    } else {
      assert |Above(r, x) + {b}| == |Above(r, x)| + 1;
      if b in r { TwoBelow(r, x, b); }
    }
  }

  lemma TwoBelow(r: seq<nat>, x: nat, b: nat)
    requires NoDup(r) && x in r && x != b && b in r && b !in Above(r, x)
    ensures |Above(r, x)| + 1 < |r|
  {
    WithoutIs(r, b);
    AboveWithout(r, x, b);
    AboveIs(Without(r, b), x);
    assert Above(r, x) - {b} == Above(r, x);
  }

  /** A run of uses. */
  function UseAll(r: seq<nat>, bs: seq<nat>, cap: nat): (q: seq<nat>)
  {
    if bs == [] then r else Use(UseAll(r, bs[..|bs| - 1], cap), bs[|bs| - 1], cap)
  }

  lemma {:induction false} UseAllOrder(r: seq<nat>, bs: seq<nat>, cap: nat)
    requires Order(r, cap)
    ensures Order(UseAll(r, bs, cap), cap)
  {
    if bs != [] {
      UseAllOrder(r, bs[..|bs| - 1], cap);
      UseOrder(UseAll(r, bs[..|bs| - 1], cap), bs[|bs| - 1], cap);
    }
  }

  lemma {:induction false} UseAllConcat(r: seq<nat>, a: seq<nat>, b: seq<nat>, cap: nat)
    ensures UseAll(r, a + b, cap) == UseAll(UseAll(r, a, cap), b, cap)
  {
    if b == [] {
      assert a + b == a;
    } else {
      UseAllConcat(r, a, b[..|b| - 1], cap);
      assert (a + b)[..|a + b| - 1] == a + b[..|b| - 1];
    }
  }

  function Elements(s: seq<nat>): (q: set<nat>)
  {
    set x | x in s
  }

  /**
   A block that is not used again is still there after a run of uses just when the blocks
   used since it was, those of the run among them, are fewer than `cap`.
   */
  lemma {:induction false} UsedSince(r: seq<nat>, x: nat, bs: seq<nat>, cap: nat)
    requires Order(r, cap) && x in r && x !in bs
    ensures x in UseAll(r, bs, cap) <==> |Above(r, x) + Elements(bs)| < cap
    ensures x in UseAll(r, bs, cap) ==> Above(UseAll(r, bs, cap), x) == Above(r, x) + Elements(bs)
  {
    if bs == [] {
      AboveIs(r, x);
      assert Above(r, x) + Elements(bs) == Above(r, x);
    } else {
      var front, b := bs[..|bs| - 1], bs[|bs| - 1];
      assert bs == front + [b];
      var before, after := Above(r, x) + Elements(front), Above(r, x) + Elements(bs);
      assert after == before + {b};
      UsedSince(r, x, front, cap);
      UseAllOrder(r, front, cap);
      if x in UseAll(r, front, cap) {
        UsedOnce(UseAll(r, front, cap), x, b, cap);
      } else {
        Larger(before, after);
      }
    }
  }

  lemma Larger(a: set<nat>, b: set<nat>)
    requires a <= b
    ensures |a| <= |b|
  {
    assert b == a + (b - a);
  }

  lemma {:induction false} WithoutNone(r: seq<nat>, b: nat)
    requires b !in r
    ensures Without(r, b) == r
  {
    if r != [] {
      assert r == r[..|r| - 1] + [r[|r| - 1]];
      WithoutNone(r[..|r| - 1], b);
    }
  }

  lemma {:induction false} WithoutMiddle(a: seq<nat>, b: nat, z: seq<nat>)
    requires NoDup(a + ([b] + z))
    ensures Without(a + ([b] + z), b) == a + z
  {
    var r := a + ([b] + z);
    if z == [] {
      assert r[..|r| - 1] == a && r[|r| - 1] == b && b !in a;
      WithoutNone(a, b);
    } else {
      var front, last := z[..|z| - 1], z[|z| - 1];
      assert r[..|r| - 1] == a + ([b] + front) && r[|a|] != r[|r| - 1];
      WithoutMiddle(a, b, front);
      assert a + z == a + front + [last];
    }
  }

  lemma {:induction false} UseAllWithin(r: seq<nat>, bs: seq<nat>, cap: nat, y: nat)
    ensures y in UseAll(r, bs, cap) ==> y in r || y in bs
  {
    if bs != [] {
      UseAllWithin(r, bs[..|bs| - 1], cap, y);
      assert bs == bs[..|bs| - 1] + [bs[|bs| - 1]];
    }
  }

  // ---------------------------------------------------------------- the order of a cache

  /**
   What has happened to a cache since it was empty: blocks were used, reads failed, which may
   have emptied the oldest entry.
   */
  datatype Log = Empty | Touched(log: Log, block: nat) | Failed(log: Log, emptied: bool)

  /** The order that leaves a cache of `cap` entries in. */
  function Replay(log: Log, cap: nat): (r: seq<nat>)
  {
    match log
    case Empty => []
    case Touched(before, b) => Use(Replay(before, cap), b, cap)
    case Failed(before, emptied) => var r := Replay(before, cap); if emptied && r != [] then r[1..] else r
  }

  /** A run of uses. */
  function TouchAll(log: Log, bs: seq<nat>): (r: Log)
  {
    if bs == [] then log else Touched(TouchAll(log, bs[..|bs| - 1]), bs[|bs| - 1])
  }

  lemma {:induction false} ReplayOrder(log: Log, cap: nat)
    requires 0 < cap
    ensures Order(Replay(log, cap), cap)
  {
    match log {
      case Empty =>
      case Touched(before, b) =>
        ReplayOrder(before, cap);
        UseOrder(Replay(before, cap), b, cap);
      case Failed(before, emptied) =>
        ReplayOrder(before, cap);
        if emptied && Replay(before, cap) != [] { RestIs(Replay(before, cap)); }
    }
  }

  lemma {:induction false} ReplayAll(log: Log, bs: seq<nat>, cap: nat)
    ensures Replay(TouchAll(log, bs), cap) == UseAll(Replay(log, cap), bs, cap)
  {
    if bs != [] { ReplayAll(log, bs[..|bs| - 1], cap); }
  }

  lemma {:induction false} TouchAllConcat(log: Log, a: seq<nat>, b: seq<nat>)
    ensures TouchAll(log, a + b) == TouchAll(TouchAll(log, a), b)
  {
    if b == [] {
      assert a + b == a;
    } else {
      TouchAllConcat(log, a, b[..|b| - 1]);
      assert (a + b)[..|a + b| - 1] == a + b[..|b| - 1];
    }
  }

  /** Two uses of blocks that are there. */
  lemma TwoHits(r: seq<nat>, x: nat, y: nat, z: nat)
    requires r == [x, y, z] && NoDup(r)
    ensures x in r && y in UseAll(r, [x], 3)
  {
    NoDupAt(r, 0, 1);
    NoDupAt(r, 0, 2);
    NoDupAt(r, 1, 2);
    assert [x, y] + [z] == r && [x] + [y] == [x, y];
    AboveEnds([x], y);
    AboveLast([x, y], y, z);
    assert Above(r, y) + Elements([x]) == {z, x};
    UsedSince(r, y, [x], 3);
  }

  /** Misses alone do not bound it: here the first two uses are hits, the third is the one miss. */
  lemma MissesDoNotBound(r: seq<nat>, x: nat, y: nat, z: nat, w: nat)
    requires r == [x, y, z] && w !in r && NoDup(r)
    ensures x in r && y in UseAll(r, [x], 3) && w !in UseAll(r, [x, y], 3)
    ensures z !in UseAll(r, [x, y, w], 3)
  {
    TwoHits(r, x, y, z);
    UseAllWithin(r, [x, y], 3, w);
    ThreeOthers(r, x, y, z, w);
  }

  lemma ThreeOthers(r: seq<nat>, x: nat, y: nat, z: nat, w: nat)
    requires r == [x, y, z] && w !in r && NoDup(r)
    ensures z !in UseAll(r, [x, y, w], 3)
  {
    NoDupAt(r, 0, 1);
    NoDupAt(r, 0, 2);
    NoDupAt(r, 1, 2);
    assert r == [x, y] + [z];
    assert Elements([x, y, w]) == {x, y, w};
    AboveEnds([x, y], z);
    UsedSince(r, z, [x, y, w], 3);
  }
}
