/**
 The block tree of an ext2 inode: what the pointer words on the disk mean, how a tree of a
 given height fills up from the left, and what freeing it comes to.
 */
module Ext2Tree {
  import opened Arith
  import opened Ext2Fs

  /** A data block, or a pointer block over the blocks it points to. */
  datatype Tree = Leaf(block: nat) | Node(block: nat, kids: seq<Tree>)

  /** How many data blocks a full tree of height `h` has. */
  function Pow(p: nat, h: nat): (r: nat)
  {
    if h == 0 then 1 else Times(Pow(p, h - 1), p)
  }

  // ---------------------------------------------------------------- on the disk

  /** The words of a pointer block: the blocks below, then zeros. */
  function Row(kids: seq<Tree>, p: nat): (r: Words)
    requires |kids| <= p
    ensures |r| == p && forall k :: 0 <= k < p ==> r[k] == if k < |kids| then kids[k].block else 0
  {
    seq(p, k requires 0 <= k < p => if k < |kids| then kids[k].block else 0)
  }

  /** The pointer blocks of a tree hold it; no block is number 0. */
  ghost predicate Stored(words: seq<Words>, t: Tree, p: nat)
  {
    && t.block != 0
    && (t.Node? ==>
          && |t.kids| <= p && t.block < |words| && words[t.block] == Row(t.kids, p)
          && forall k :: 0 <= k < |t.kids| ==> Stored(words, t.kids[k], p))
  }

  /** All data blocks are `h` levels down. */
  ghost predicate Shape(t: Tree, h: nat)
  {
    if h == 0 then t.Leaf? else t.Node? && forall k :: 0 <= k < |t.kids| ==> Shape(t.kids[k], h - 1)
  }

  /** The blocks of a tree, in the order in which they are freed. */
  function Flatten(t: Tree): (r: seq<nat>)
    decreases t, if t.Node? then |t.kids| + 1 else 0
  {
    if t.Leaf? then [t.block] else FlattenKids(t, |t.kids|) + [t.block]
  }

  function FlattenKids(t: Tree, n: nat): (r: seq<nat>)
    requires t.Node? && n <= |t.kids|
    decreases t, n
  {
    if n == 0 then [] else FlattenKids(t, n - 1) + Flatten(t.kids[n - 1])
  }

  /** The data blocks of a tree, in order. */
  function Leaves(t: Tree): (r: seq<nat>)
    decreases t, if t.Node? then |t.kids| + 1 else 0
  {
    if t.Leaf? then [t.block] else LeavesKids(t, |t.kids|)
  }

  function LeavesKids(t: Tree, n: nat): (r: seq<nat>)
    requires t.Node? && n <= |t.kids|
    decreases t, n
  {
    if n == 0 then [] else LeavesKids(t, n - 1) + Leaves(t.kids[n - 1])
  }

  lemma {:induction false} KidFlattened(t: Tree, n: nat, k: nat)
    requires t.Node? && k < n <= |t.kids|
    ensures multiset(Flatten(t.kids[k])) <= multiset(FlattenKids(t, n))
  {
    if k < n - 1 { KidFlattened(t, n - 1, k); }
  }

  lemma KidWithin(t: Tree, k: nat)
    requires t.Node? && k < |t.kids|
    ensures multiset(Flatten(t.kids[k])) <= multiset(Flatten(t))
  {
    KidFlattened(t, |t.kids|, k);
  }

  /** Words that agree on the blocks of a tree hold it alike. */
  lemma {:induction false} StoredFrame(words: seq<Words>, words': seq<Words>, t: Tree, p: nat)
    requires Stored(words, t, p) && |words'| >= |words|
    requires forall b :: b in multiset(Flatten(t)) && b < |words| ==> words'[b] == words[b]
    ensures Stored(words', t, p)
  {
    if t.Node? {
      forall k | 0 <= k < |t.kids|
        ensures Stored(words', t.kids[k], p)
      {
        KidWithin(t, k);
        StoredFrame(words, words', t.kids[k], p);
      }
      assert t.block in multiset(Flatten(t));
    }
  }

  // ---------------------------------------------------------------- filling from the left

  /** A tree of height `h` with `c` data blocks, with room for `p` pointers in a block. */
  datatype Filling = Filling(t: Tree, p: nat, h: nat, c: nat)

  /** All subtrees but the last are full. */
  ghost predicate FilledFromLeft(t: Tree, p: nat, h: nat, c: nat)
    decreases h
  {
    if h == 0 then t.Leaf? && c == 1 && p > 0
    else
      var w := Pow(p, h - 1);
      && t.Node? && 1 <= |t.kids| <= p && Times(w, |t.kids| - 1) < c <= Times(w, |t.kids|)
      && forall k :: 0 <= k < |t.kids| ==> FilledFromLeft(t.kids[k], p, h - 1, Share(w, |t.kids|, c, k))
  }

  type Packed = f: Filling | FilledFromLeft(f.t, f.p, f.h, f.c) witness Filling(Leaf(1), 1, 0, 1)

  /** How many data blocks the `k`th subtree has. */
  function Share(w: nat, kids: nat, c: nat, k: nat): (r: nat)
    requires k < kids && Times(w, kids - 1) < c
  {
    if k < kids - 1 then w else c - Times(w, kids - 1)
  }

  /** The size of a full subtree. */
  function Span(f: Packed): (w: nat)
    requires f.h > 0
  {
    Pow(f.p, f.h - 1)
  }

  /** The `k`th subtree. */
  ghost function Kid(f: Packed, k: nat): (g: Packed)
    requires f.h > 0 && k < |f.t.kids|
    ensures g.t == f.t.kids[k] && g.p == f.p && g.h == f.h - 1
  {
    Filling(f.t.kids[k], f.p, f.h - 1, Share(Span(f), |f.t.kids|, f.c, k))
  }

  ghost function LastKid(f: Packed): (g: Packed)
    requires f.h > 0
    ensures g.t == f.t.kids[|f.t.kids| - 1] && g.p == f.p && g.h == f.h - 1
  {
    Kid(f, |f.t.kids| - 1)
  }

  ghost predicate IsFull(f: Packed)
  {
    f.c == Pow(f.p, f.h)
  }

  /** A tree that is not full has room in its last subtree, or for another one. */
  lemma Room(f: Packed)
    requires !IsFull(f)
    ensures f.h > 0 && (IsFull(LastKid(f)) ==> |f.t.kids| < f.p)
    ensures f.c < Pow(f.p, f.h)
  {
    if f.h > 0 {
      TimesMono(Span(f), |f.t.kids|, f.p);
    }
  }

  lemma {:induction false} PackedShape(f: Packed)
    ensures Shape(f.t, f.h)
    decreases f.h
  {
    if f.h > 0 {
      forall k | 0 <= k < |f.t.kids|
        ensures Shape(f.t.kids[k], f.h - 1)
      {
        PackedShape(Kid(f, k));
      }
    }
  }

  lemma {:induction false} PackedCount(f: Packed)
    ensures |Leaves(f.t)| == f.c >= 1
    decreases f.h, 1
  {
    if f.h > 0 { PackedKidsCount(f, |f.t.kids|); }
  }

  lemma {:induction false} PackedKidsCount(f: Packed, n: nat)
    requires f.h > 0 && n <= |f.t.kids|
    ensures |LeavesKids(f.t, n)| == if n < |f.t.kids| then Times(Span(f), n) else f.c
    decreases f.h, 0, n
  {
    if n > 0 {
      PackedKidsCount(f, n - 1);
      PackedCount(Kid(f, n - 1));
    }
  }

  /** The data block that is reached by dividing the index by the sizes of the subtrees. */
  ghost function LeafAt(f: Packed, i: nat): (b: nat)
    requires i < f.c
    decreases f.h
  {
    if f.h == 0 then f.t.block
    else
      Digit(Span(f), |f.t.kids|, f.c, i);
      LeafAt(Kid(f, i / Span(f)), i % Span(f))
  }

  lemma Digit(w: nat, kids: nat, c: nat, i: nat)
    requires kids >= 1 && Times(w, kids - 1) < c <= Times(w, kids) && i < c
    ensures w > 0 && 0 <= i / w < kids && 0 <= i % w < Share(w, kids, c, i / w)
    ensures Times(w, i / w) + i % w == i
  {
    TimesIs(w, kids);
    DivMod(i, w);
    TimesIs(w, i / w);
    if i / w >= kids { TimesMono(w, kids, i / w); }
  }

  /** Dividing finds the data blocks in order. */
  lemma {:induction false} LeafAtIs(f: Packed, i: nat)
    requires i < f.c
    ensures |Leaves(f.t)| == f.c && Leaves(f.t)[i] == LeafAt(f, i)
    decreases f.h
  {
    PackedCount(f);
    if f.h > 0 {
      var w := Span(f);
      Digit(w, |f.t.kids|, f.c, i);
      LeafAtIs(Kid(f, i / w), i % w);
      PackedKidsCount(f, i / w);
      KidLeaves(f.t, |f.t.kids|, i / w, i % w);
    }
  }

  lemma {:induction false} KidLeaves(t: Tree, n: nat, k: nat, j: nat)
    requires t.Node? && k < n <= |t.kids| && j < |Leaves(t.kids[k])|
    ensures |LeavesKids(t, k)| + j < |LeavesKids(t, n)|
    ensures LeavesKids(t, n)[|LeavesKids(t, k)| + j] == Leaves(t.kids[k])[j]
  {
    if k < n - 1 { KidLeaves(t, n - 1, k, j); }
  }

  // ---------------------------------------------------------------- growth

  /** A tree with one data block, over a chain of pointer blocks. */
  function Chain(blocks: seq<nat>): (t: Tree)
    requires |blocks| > 0
    ensures t.block == blocks[0]
  {
    if |blocks| == 1 then Leaf(blocks[0]) else Node(blocks[0], [Chain(blocks[1..])])
  }

  lemma {:induction false} ChainPacked(blocks: seq<nat>, p: nat)
    requires |blocks| > 0 && p > 0
    ensures FilledFromLeft(Chain(blocks), p, |blocks| - 1, 1)
  {
    if |blocks| > 1 {
      ChainPacked(blocks[1..], p);
      PowPositive(p, |blocks| - 2);
    }
  }

  lemma {:induction false} ChainIs(blocks: seq<nat>)
    requires |blocks| > 0
    ensures Leaves(Chain(blocks)) == [blocks[|blocks| - 1]]
    ensures multiset(Flatten(Chain(blocks))) == multiset(blocks)
  {
    if |blocks| > 1 {
      var b, rest := blocks[0], blocks[1..];
      ChainIs(rest);
      OneKid(b, Chain(rest));
      assert Chain(blocks) == Node(b, [Chain(rest)]);
      assert blocks == [b] + rest;
      assert multiset(blocks) == multiset([b]) + multiset(rest);
    }
  }

  lemma OneKid(b: nat, kid: Tree)
    ensures Leaves(Node(b, [kid])) == Leaves(kid) && Flatten(Node(b, [kid])) == Flatten(kid) + [b]
  {
    var t := Node(b, [kid]);
    assert LeavesKids(t, 1) == LeavesKids(t, 0) + Leaves(t.kids[0]);
    assert FlattenKids(t, 1) == FlattenKids(t, 0) + Flatten(t.kids[0]);
  }

  lemma {:induction false} PowPositive(p: nat, h: nat)
    requires p > 0
    ensures Pow(p, h) > 0
  {
    if h > 0 {
      PowPositive(p, h - 1);
      TimesMono(Pow(p, h - 1), 1, p);
    }
  }

  /** How many blocks the next data block needs, itself included. */
  ghost function Needed(f: Packed): (r: nat)
    requires !IsFull(f)
    ensures 1 <= r <= f.h
    decreases f.h
  {
    Room(f);
    if IsFull(LastKid(f)) then f.h else Needed(LastKid(f))
  }

  /** The tree with one more data block, under new pointer blocks where the others are full. */
  ghost function Grown(f: Packed, chain: seq<nat>): (r: Tree)
    requires !IsFull(f) && |chain| == Needed(f)
    ensures r.block == f.t.block
    decreases f.h
  {
    Room(f);
    if IsFull(LastKid(f)) then Node(f.t.block, f.t.kids + [Chain(chain)])
    else Node(f.t.block, f.t.kids[|f.t.kids| - 1 := Grown(LastKid(f), chain)])
  }

  /** The pointer block and the word in it that come to hold the new pointer. */
  ghost function GrowthAt(f: Packed): (r: (nat, nat))
    requires !IsFull(f)
    ensures r.1 < f.p
    decreases f.h
  {
    Room(f);
    if IsFull(LastKid(f)) then (f.t.block, |f.t.kids|) else GrowthAt(LastKid(f))
  }

  lemma {:induction false} GrowthWithin(f: Packed)
    requires !IsFull(f)
    ensures GrowthAt(f).0 in multiset(Flatten(f.t))
    decreases f.h
  {
    Room(f);
    if IsFull(LastKid(f)) {
      assert f.t.block in multiset(Flatten(f.t));
    } else {
      GrowthWithin(LastKid(f));
      BlockWithin(f.t, |f.t.kids| - 1, GrowthAt(LastKid(f)).0);
    }
  }

  lemma BlockWithin(t: Tree, k: nat, b: nat)
    requires t.Node? && k < |t.kids| && b in multiset(Flatten(t.kids[k]))
    ensures b in multiset(Flatten(t))
  {
    KidWithin(t, k);
  }

  lemma GrownIs(f: Packed, chain: seq<nat>)
    requires !IsFull(f) && |chain| == Needed(f)
    ensures f.h > 0
    ensures Grown(f, chain) ==
            if IsFull(LastKid(f)) then Node(f.t.block, f.t.kids + [Chain(chain)])
            else Node(f.t.block, f.t.kids[|f.t.kids| - 1 := Grown(LastKid(f), chain)])
  {
    Room(f);
  }

  /** A grown tree is packed, with one more data block. */
  lemma {:induction false} GrownPacked(f: Packed, chain: seq<nat>)
    requires !IsFull(f) && |chain| == Needed(f)
    ensures FilledFromLeft(Grown(f, chain), f.p, f.h, f.c + 1)
    decreases f.h
  {
    Room(f);
    if IsFull(LastKid(f)) {
      GrownIs(f, chain);
      ChainPacked(chain, f.p);
      PowPositive(f.p, f.h - 1);
    } else {
      GrownPacked(LastKid(f), chain);
      Room(LastKid(f));
    }
  }

  lemma {:induction false} SameKids(t: Tree, u: Tree, n: nat)
    requires t.Node? && u.Node? && n <= |t.kids| && n <= |u.kids| && t.kids[..n] == u.kids[..n]
    ensures FlattenKids(t, n) == FlattenKids(u, n) && LeavesKids(t, n) == LeavesKids(u, n)
  {
    if n > 0 {
      assert t.kids[..n][..n - 1] == u.kids[..n][..n - 1];
      assert t.kids[..n - 1] == u.kids[..n - 1];
      SameKids(t, u, n - 1);
      assert t.kids[n - 1] == t.kids[..n][n - 1] == u.kids[n - 1];
    }
  }

  lemma PushKid(t: Tree, kid: Tree)
    requires t.Node?
    ensures var u := Node(t.block, t.kids + [kid]);
            && Leaves(u) == Leaves(t) + Leaves(kid)
            && multiset(Flatten(u)) == multiset(Flatten(t)) + multiset(Flatten(kid))
  {
    SameKids(t, Node(t.block, t.kids + [kid]), |t.kids|);
  }

  lemma ReplaceLast(t: Tree, kid: Tree)
    requires t.Node? && t.kids != []
    ensures var last := |t.kids| - 1;
            var u := Node(t.block, t.kids[last := kid]);
            && Leaves(t) == LeavesKids(t, last) + Leaves(t.kids[last]) && Leaves(u) == LeavesKids(t, last) + Leaves(kid)
            && Flatten(t) == FlattenKids(t, last) + Flatten(t.kids[last]) + [t.block]
            && Flatten(u) == FlattenKids(t, last) + Flatten(kid) + [t.block]
  {
    SameKids(t, Node(t.block, t.kids[|t.kids| - 1 := kid]), |t.kids| - 1);
  }

  lemma MultisetWithin(front: seq<nat>, was: seq<nat>, now: seq<nat>, b: nat, more: seq<nat>)
    requires multiset(now) == multiset(was) + multiset(more)
    ensures multiset(front + now + [b]) == multiset(front + was + [b]) + multiset(more)
  {
  }

  lemma ReplacedBlocks(t: Tree, last: Tree, kid: Tree, u: Tree, more: seq<nat>)
    requires t.Node? && t.kids != [] && last == t.kids[|t.kids| - 1] && u == Node(t.block, t.kids[|t.kids| - 1 := kid])
    requires multiset(Flatten(kid)) == multiset(Flatten(last)) + multiset(more)
    ensures multiset(Flatten(u)) == multiset(Flatten(t)) + multiset(more)
  {
    ReplaceLast(t, kid);
    MultisetWithin(FlattenKids(t, |t.kids| - 1), Flatten(last), Flatten(kid), t.block, more);
  }

  lemma PushedBlocks(t: Tree, kid: Tree, u: Tree, more: seq<nat>)
    requires t.Node? && u == Node(t.block, t.kids + [kid]) && multiset(Flatten(kid)) == multiset(more)
    ensures multiset(Flatten(u)) == multiset(Flatten(t)) + multiset(more)
  {
    PushKid(t, kid);
  }

  /** A grown tree has the new blocks besides the old ones ... */
  lemma {:induction false} GrownBlocks(f: Packed, chain: seq<nat>)
    requires !IsFull(f) && |chain| == Needed(f)
    ensures multiset(Flatten(Grown(f, chain))) == multiset(Flatten(f.t)) + multiset(chain)
    decreases f.h
  {
    Room(f);
    GrownIs(f, chain);
    if IsFull(LastKid(f)) {
      ChainIs(chain);
      PushedBlocks(f.t, Chain(chain), Grown(f, chain), chain);
    } else {
      var last := f.t.kids[|f.t.kids| - 1];
      GrownBlocks(LastKid(f), chain);
      assert LastKid(f).t == last;
      ReplacedBlocks(f.t, last, Grown(LastKid(f), chain), Grown(f, chain), chain);
    }
  }

  /** ... and the last of them as its last data block. */
  lemma {:induction false} GrownLeaves(f: Packed, chain: seq<nat>)
    requires !IsFull(f) && |chain| == Needed(f)
    ensures Leaves(Grown(f, chain)) == Leaves(f.t) + [chain[|chain| - 1]]
    decreases f.h
  {
    Room(f);
    GrownIs(f, chain);
    if IsFull(LastKid(f)) {
      ChainIs(chain);
      PushKid(f.t, Chain(chain));
      assert Grown(f, chain) == Node(f.t.block, f.t.kids + [Chain(chain)]);
    } else {
      var last, kid := |f.t.kids| - 1, Grown(LastKid(f), chain);
      GrownLeaves(LastKid(f), chain);
      ReplaceLast(f.t, kid);
      Associates(LeavesKids(f.t, last), Leaves(f.t.kids[last]), chain[|chain| - 1]);
      assert Grown(f, chain) == Node(f.t.block, f.t.kids[last := kid]);
    }
  }

  lemma Associates(a: seq<nat>, b: seq<nat>, x: nat)
    ensures a + (b + [x]) == a + b + [x]
  {
  }

  ghost predicate Distinct(t: Tree)
  {
    forall b :: multiset(Flatten(t))[b] <= 1
  }

  /** A pointer goes into word `i` of block `x`; the other blocks of the tree stay. */
  ghost predicate StoredAt(words: seq<Words>, words': seq<Words>, t: Tree, x: nat, i: nat, v: nat)
  {
    && |words'| == |words|
    && forall b :: b in multiset(Flatten(t)) && b < |words| ==>
         if b == x then i < |words[b]| && words'[b] == words[b][..i] + [v] + words[b][i + 1..] else words'[b] == words[b]
  }

  lemma StoredAtKid(words: seq<Words>, words': seq<Words>, t: Tree, k: nat, x: nat, i: nat, v: nat)
    requires t.Node? && k < |t.kids| && Distinct(t) && StoredAt(words, words', t, x, i, v)
    ensures Distinct(t.kids[k]) && StoredAt(words, words', t.kids[k], x, i, v)
  {
    KidWithin(t, k);
    assert forall b :: multiset(Flatten(t.kids[k]))[b] <= multiset(Flatten(t))[b];
  }

  /** One store makes the tree on the disk grow, once the chain is there. */
  lemma {:induction false} GrownStored(words: seq<Words>, words': seq<Words>, f: Packed, chain: seq<nat>)
    requires !IsFull(f) && |chain| == Needed(f)
    requires Stored(words, f.t, f.p) && Stored(words', Chain(chain), f.p) && Distinct(f.t)
    requires StoredAt(words, words', f.t, GrowthAt(f).0, GrowthAt(f).1, chain[0])
    ensures Stored(words', Grown(f, chain), f.p)
    decreases f.h, 1
  {
    Room(f);
    if IsFull(LastKid(f)) {
      StoredPush(words, words', f.t, f.p, Chain(chain));
    } else {
      GrownStoredBelow(words, words', f, chain);
    }
  }

  lemma {:induction false} GrownStoredBelow(words: seq<Words>, words': seq<Words>, f: Packed, chain: seq<nat>)
    requires !IsFull(f) && f.h > 0 && !IsFull(LastKid(f)) && |chain| == Needed(LastKid(f))
    requires Stored(words, f.t, f.p) && Stored(words', Chain(chain), f.p) && Distinct(f.t)
    requires StoredAt(words, words', f.t, GrowthAt(LastKid(f)).0, GrowthAt(LastKid(f)).1, chain[0])
    ensures Stored(words', Node(f.t.block, f.t.kids[|f.t.kids| - 1 := Grown(LastKid(f), chain)]), f.p)
    decreases f.h, 0
  {
    var x, i := GrowthAt(LastKid(f)).0, GrowthAt(LastKid(f)).1;
    GrowthWithin(LastKid(f));
    StoredAtKid(words, words', f.t, |f.t.kids| - 1, x, i, chain[0]);
    GrownStored(words, words', LastKid(f), chain);
    StoredLast(words, words', f.t, f.p, Grown(LastKid(f), chain), x, i, chain[0]);
  }

  lemma StoredLast(words: seq<Words>, words': seq<Words>, t: Tree, p: nat, kid: Tree, x: nat, i: nat, v: nat)
    requires t.Node? && t.kids != [] && Stored(words, t, p) && Distinct(t) && StoredAt(words, words', t, x, i, v)
    requires var last := t.kids[|t.kids| - 1]; kid.block == last.block && x in multiset(Flatten(last))
    requires Stored(words', kid, p)
    ensures Stored(words', Node(t.block, t.kids[|t.kids| - 1 := kid]), p)
  {
    var last := |t.kids| - 1;
    RootApart(t, last);
    forall k | 0 <= k < last
      ensures Stored(words', t.kids[k], p)
    {
      LastApart(t, k, x);
      KidWithin(t, k);
      StoredFrame(words, words', t.kids[k], p);
    }
    assert words'[t.block] == Row(t.kids[last := kid], p);
  }

  lemma StoredPush(words: seq<Words>, words': seq<Words>, t: Tree, p: nat, kid: Tree)
    requires t.Node? && |t.kids| < p && Stored(words, t, p) && Distinct(t)
    requires StoredAt(words, words', t, t.block, |t.kids|, kid.block) && Stored(words', kid, p)
    ensures Stored(words', Node(t.block, t.kids + [kid]), p)
  {
    forall k | 0 <= k < |t.kids|
      ensures Stored(words', t.kids[k], p)
    {
      RootApart(t, k);
      KidWithin(t, k);
      StoredFrame(words, words', t.kids[k], p);
    }
    assert t.block in multiset(Flatten(t));
    assert words'[t.block] == Row(t.kids + [kid], p);
  }

  /** In a tree of distinct blocks, the root is not under a child ... */
  lemma RootApart(t: Tree, k: nat)
    requires t.Node? && Distinct(t) && k < |t.kids|
    ensures t.block in multiset(Flatten(t)) && t.block !in multiset(Flatten(t.kids[k]))
  {
    KidFlattened(t, |t.kids|, k);
    assert multiset(Flatten(t))[t.block] == multiset(FlattenKids(t, |t.kids|))[t.block] + 1;
  }

  /** ... and a block under the last child is under no other. */
  lemma LastApart(t: Tree, k: nat, b: nat)
    requires t.Node? && Distinct(t) && k < |t.kids| - 1 && b in multiset(Flatten(t.kids[|t.kids| - 1]))
    ensures b !in multiset(Flatten(t.kids[k]))
  {
    var n := |t.kids| - 1;
    KidFlattened(t, n, k);
    assert FlattenKids(t, |t.kids|) == FlattenKids(t, n) + Flatten(t.kids[n]);
    assert multiset(Flatten(t))[b] >= multiset(FlattenKids(t, n))[b] + multiset(Flatten(t.kids[n]))[b];
  }
}
