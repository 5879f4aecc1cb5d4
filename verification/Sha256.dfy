/**
 The SHA-256 of libkosoverlay: a block function with a circular schedule of sixteen words, and
 a message that arrives in pieces, against the definition in sections 4.1, 5.1 and 6.1 to 6.2
 of RFC 6234.
 */
module Sha256 {
  import opened Basics

  type word = bv32

  /** A block of 64 bytes. */
  type Chunk = b: seq<byte> | |b| == 64 witness seq(64, _ => 0)

  const ROUND_CONSTANT: seq<word> := [
    0x428a2f98, 0x71374491, 0xb5c0fbcf, 0xe9b5dba5, 0x3956c25b, 0x59f111f1, 0x923f82a4, 0xab1c5ed5,
    0xd807aa98, 0x12835b01, 0x243185be, 0x550c7dc3, 0x72be5d74, 0x80deb1fe, 0x9bdc06a7, 0xc19bf174,
    0xe49b69c1, 0xefbe4786, 0x0fc19dc6, 0x240ca1cc, 0x2de92c6f, 0x4a7484aa, 0x5cb0a9dc, 0x76f988da,
    0x983e5152, 0xa831c66d, 0xb00327c8, 0xbf597fc7, 0xc6e00bf3, 0xd5a79147, 0x06ca6351, 0x14292967,
    0x27b70a85, 0x2e1b2138, 0x4d2c6dfc, 0x53380d13, 0x650a7354, 0x766a0abb, 0x81c2c92e, 0x92722c85,
    0xa2bfe8a1, 0xa81a664b, 0xc24b8b70, 0xc76c51a3, 0xd192e819, 0xd6990624, 0xf40e3585, 0x106aa070,
    0x19a4c116, 0x1e376c08, 0x2748774c, 0x34b0bcb5, 0x391c0cb3, 0x4ed8aa4a, 0x5b9cca4f, 0x682e6ff3,
    0x748f82ee, 0x78a5636f, 0x84c87814, 0x8cc70208, 0x90befffa, 0xa4506ceb, 0xbef9a3f7, 0xc67178f2]

  function Constant(t: nat): (k: word)
    requires t < 64
  {
    ROUND_CONSTANT[t]
  }

  // ---------------------------------------------------------------- the definition

  /** The eight chaining values. */
  datatype Eight = Eight(a: word, b: word, c: word, d: word, e: word, f: word, g: word, h: word)

  function Initial(): (r: Eight)
  {
    Eight(0x6a09e667, 0xbb67ae85, 0x3c6ef372, 0xa54ff53a, 0x510e527f, 0x9b05688c, 0x1f83d9ab, 0x5be0cd19)
  }

  /** Addition of words, modulo 2 to the 32nd. */
  function Add(x: word, y: word): (r: word)
  {
    x + y
  }

  function BigSigma0(x: word): (r: word)
  {
    x.RotateRight(2) ^ x.RotateRight(13) ^ x.RotateRight(22)
  }

  function BigSigma1(x: word): (r: word)
  {
    x.RotateRight(6) ^ x.RotateRight(11) ^ x.RotateRight(25)
  }

  function SmallSigma0(x: word): (r: word)
  {
    x.RotateRight(7) ^ x.RotateRight(18) ^ (x >> 3)
  }

  function SmallSigma1(x: word): (r: word)
  {
    x.RotateRight(17) ^ x.RotateRight(19) ^ (x >> 10)
  }

  function Choose(x: word, y: word, z: word): (r: word)
  {
    (x & y) ^ (!x & z)
  }

  function Majority(x: word, y: word, z: word): (r: word)
  {
    (x & y) ^ (x & z) ^ (y & z)
  }

  /** Four bytes, the most significant one first. */
  function BigEndian(block: seq<byte>, p: nat): (w: word)
    requires p + 4 <= |block|
  {
    ((block[p] as word) << 24) | ((block[p + 1] as word) << 16) | ((block[p + 2] as word) << 8) | (block[p + 3] as word)
  }

  /** The words of the message schedule. */
  function W(block: seq<byte>, t: nat): (w: word)
    requires |block| == 64
  {
    if t < 16 then BigEndian(block, 4 * t)
    else NextWord(W(block, t - 2), W(block, t - 7), W(block, t - 15), W(block, t - 16))
  }

  function NextWord(w2: word, w7: word, w15: word, w16: word): (w: word)
  {
    Sum(SmallSigma1(w2), w7, SmallSigma0(w15), w16)
  }

  function Sum(a: word, b: word, c: word, d: word): (r: word)
  {
    a + b + c + d
  }

  function NextEight(s: Eight, k: word, w: word): (r: Eight)
  {
    var t1 := Add(Add(Add(Add(s.h, BigSigma1(s.e)), Choose(s.e, s.f, s.g)), k), w);
    var t2 := Add(BigSigma0(s.a), Majority(s.a, s.b, s.c));
    Eight(Add(t1, t2), s.a, s.b, s.c, Add(s.d, t1), s.e, s.f, s.g)
  }

  function Schedule(block: seq<byte>): (ws: seq<word>)
    requires |block| == 64
    ensures |ws| == 64 && forall t :: 0 <= t < 64 ==> ws[t] == W(block, t)
  {
    seq(64, t requires 0 <= t < 64 => W(block, t))
  }

  /** One round for each word. */
  function Rounds(s: Eight, ws: seq<word>): (r: Eight)
    requires |ws| <= 64
  {
    if ws == [] then s
    else
      var t := |ws| - 1;
      NextEight(Rounds(s, ws[..t]), Constant(t), ws[t])
  }

  function Plus(s: Eight, r: Eight): (q: Eight)
  {
    Eight(Add(s.a, r.a), Add(s.b, r.b), Add(s.c, r.c), Add(s.d, r.d), Add(s.e, r.e), Add(s.f, r.f), Add(s.g, r.g), Add(s.h, r.h))
  }

  function Compressed(s: Eight, block: Chunk): (r: Eight)
  {
    Plus(s, Rounds(s, Schedule(block)))
  }

  /** Whole blocks. */
  type Blocks = m: seq<byte> | |m| % 64 == 0

  /** The chaining values after a number of whole blocks, for any compression `f`. */
  function Absorb<S>(f: (S, Chunk) -> S, first: S, m: Blocks): (r: S)
    decreases |m|
  {
    if m == [] then first else f(Absorb(f, first, m[..|m| - 64]), m[|m| - 64..])
  }

  function Zeros(n: nat): (r: seq<byte>)
    ensures |r| == n
  {
    seq(n, _ => 0)
  }

  /** The byte `i` places up. */
  function ByteOf(n: nat, i: nat): (b: byte)
  {
    if i == 0 then n % 256 else ByteOf(n / 256, i - 1)
  }

  /** The length in bits, in 64 bits, the most significant byte first. */
  function LengthField(bits: nat): (r: seq<byte>)
    ensures |r| == 8
  {
    seq(8, i requires 0 <= i < 8 => ByteOf(bits, 7 - i))
  }

  /** The fewest zeros that bring a message of `n` bytes and a one bit to eight bytes before a block's end. */
  function Filling(n: nat): (k: nat)
    ensures k < 64 && (n + 1 + k) % 64 == 56
  {
    (119 - n % 64) % 64
  }

  function Padded(m: seq<byte>): (r: Blocks)
  {
    m + [0x80] + Zeros(Filling(|m|)) + LengthField(8 * |m|)
  }

  function WordOf(s: Eight, i: nat): (w: word)
    requires i < 8
  {
    match i
    case 0 => s.a case 1 => s.b case 2 => s.c case 3 => s.d
    case 4 => s.e case 5 => s.f case 6 => s.g case 7 => s.h
  }

  function ByteOfWord(w: word, k: nat): (b: byte)
    requires k < 4
  {
    ((if k == 0 then w >> 24 else if k == 1 then w >> 16 else if k == 2 then w >> 8 else w) & 0xFF) as bv8 as byte
  }

  function DigestOf(s: Eight): (r: seq<byte>)
  {
    seq(32, i requires 0 <= i < 32 => ByteOfWord(WordOf(s, i / 4), i % 4))
  }

  /** SHA-256 of a message. */
  function Digest(m: seq<byte>): (r: seq<byte>)
  {
    DigestOf(Absorb(Compressed, Initial(), Padded(m)))
  }

  // ---------------------------------------------------------------- the block function

  /** What the schedule's loop adds to the word of sixteen steps before. */
  function Mixed(was: word, s0: word, w7: word, s1: word): (r: word)
  {
    was + (s0 + w7 + s1)
  }

  lemma MixedIs(was: word, s0: word, w7: word, s1: word)
    ensures Mixed(was, s0, w7, s1) == Sum(s1, w7, s0, was)
  {
  }

  /** One step of the schedule over sixteen words: at `t`, they are the words `t - 16` to `t - 1`. */
  ghost predicate Scheduled(words: seq<word>, block: seq<byte>, t: nat)
    requires |block| == 64
  {
    |words| == 16 && forall j: nat :: t <= j + 16 && j < t ==> words[j % 16] == W(block, j)
  }

  lemma ScheduledNext(words: seq<word>, block: seq<byte>, t: nat, w: word)
    requires |block| == 64 && Scheduled(words, block, t) && w == W(block, t)
    ensures Scheduled(words[t % 16 := w], block, t + 1)
  {
    forall j: nat | t + 1 <= j + 16 && j < t + 1
      ensures words[t % 16 := w][j % 16] == W(block, j)
    {
      if j < t { Apart(j, t); }
    }
  }

  lemma Apart(j: nat, t: nat)
    requires j < t < j + 16
    ensures j % 16 != t % 16
  {
  }

  /** The sixteen words in place. */
  method NextScheduled(words: array<word>, block: seq<byte>, t: nat)
    requires |block| == 64 && words.Length == 16 && Scheduled(words[..], block, t)
    modifies words
    ensures Scheduled(words[..], block, t + 1) && words[t % 16] == W(block, t)
  {
    var w;
    if t < 16 {
      w := BigEndian(block, 4 * t);
    } else {
      var x, y := words[(t - 15) % 16], words[(t - 2) % 16];
      MixedIs(words[t % 16], SmallSigma0(x), words[(t - 7) % 16], SmallSigma1(y));
      w := Mixed(words[t % 16], SmallSigma0(x), words[(t - 7) % 16], SmallSigma1(y));
      Recalled(words[..], block, t);
    }
    ScheduledNext(words[..], block, t, w);
    words[t % 16] := w;
  }

  lemma Recalled(words: seq<word>, block: seq<byte>, t: nat)
    requires |block| == 64 && t >= 16 && Scheduled(words, block, t)
    ensures words[(t - 2) % 16] == W(block, t - 2) && words[(t - 7) % 16] == W(block, t - 7)
    ensures words[(t - 15) % 16] == W(block, t - 15) && words[t % 16] == W(block, t - 16)
  {
    assert (t - 16) % 16 == t % 16;
  }

  method Round(s: Eight, k: word, w: word) returns (r: Eight)
    ensures r == NextEight(s, k, w)
  {
    var t1 := Add(Add(Add(Add(s.h, BigSigma1(s.e)), Choose(s.e, s.f, s.g)), k), w);
    var t2 := Add(BigSigma0(s.a), Majority(s.a, s.b, s.c));
    r := Eight(Add(t1, t2), s.a, s.b, s.c, Add(s.d, t1), s.e, s.f, s.g);
  }

  /** compress. */
  method Compress(s: Eight, block: seq<byte>) returns (r: Eight)
    requires |block| == 64
    ensures r == Compressed(s, block)
  {
    var words := new word[16];
    var q, i := s, 0;
    while i < 64
      invariant i <= 64 && Scheduled(words[..], block, i) && q == Rounds(s, Schedule(block)[..i])
    {
      assert Schedule(block)[..i + 1][..i] == Schedule(block)[..i];
      NextScheduled(words, block, i);
      q := Round(q, Constant(i), words[i % 16]);
      i := i + 1;
    }
    assert Schedule(block)[..i] == Schedule(block);
    r := Plus(s, q);
  }

  // ---------------------------------------------------------------- messages in pieces

  function Longer(m: Blocks, block: Chunk): (r: Blocks)
  {
    m + block
  }

  /** One more block. */
  lemma AbsorbMore<S>(f: (S, Chunk) -> S, first: S, m: Blocks, block: Chunk)
    ensures Absorb(f, first, Longer(m, block)) == f(Absorb(f, first, m), block)
  {
    var r := m + block;
    assert r[..|r| - 64] == m && r[|r| - 64..] == block;
  }

  /** The blocks that end a message: one, when the length still fits behind the one bit, or two. */
  function LastBlocks(rest: seq<byte>, bits: nat): (r: Blocks)
    requires |rest| < 64
  {
    if |rest| <= 55 then LastBlock(rest, bits) else FirstOfTwo(rest) + SecondOfTwo(bits)
  }

  function LastBlock(rest: seq<byte>, bits: nat): (r: Chunk)
    requires |rest| <= 55
  {
    rest + [0x80] + Zeros(55 - |rest|) + LengthField(bits)
  }

  function FirstOfTwo(rest: seq<byte>): (r: Chunk)
    requires 55 < |rest| < 64
  {
    rest + [0x80] + Zeros(63 - |rest|)
  }

  function SecondOfTwo(bits: nat): (r: Chunk)
  {
    Zeros(56) + LengthField(bits)
  }

  lemma PaddedIs(front: Blocks, rest: seq<byte>)
    requires |rest| < 64
    ensures Padded(front + rest) == front + LastBlocks(rest, 8 * (|front| + |rest|))
  {
    Fills(|front|, |rest|);
    if |rest| > 55 { assert Zeros(119 - |rest|) == Zeros(63 - |rest|) + Zeros(56); }
  }

  lemma Fills(n: nat, used: nat)
    requires n % 64 == 0 && used < 64
    ensures Filling(n + used) == if used <= 55 then 55 - used else 119 - used
  {
  }

  /** The end of whole blocks and a rest. */
  lemma EndIs<S>(f: (S, Chunk) -> S, first: S, front: Blocks, rest: seq<byte>, bits: nat)
    requires |rest| < 64 && bits == 8 * (|front| + |rest|)
    ensures Absorb(f, first, Padded(front + rest)) ==
            if |rest| <= 55 then f(Absorb(f, first, front), LastBlock(rest, bits))
            else f(f(Absorb(f, first, front), FirstOfTwo(rest)), SecondOfTwo(bits))
  {
    if |rest| <= 55 {
      PaddedOnce(front, rest, bits);
      AbsorbMore(f, first, front, LastBlock(rest, bits));
    } else {
      PaddedTwice(front, rest, bits);
      AbsorbMore(f, first, front, FirstOfTwo(rest));
      AbsorbMore(f, first, Longer(front, FirstOfTwo(rest)), SecondOfTwo(bits));
    }
  }

  lemma PaddedOnce(front: Blocks, rest: seq<byte>, bits: nat)
    requires |rest| <= 55 && bits == 8 * (|front| + |rest|)
    ensures Padded(front + rest) == Longer(front, LastBlock(rest, bits))
  {
    PaddedIs(front, rest);
  }

  lemma PaddedTwice(front: Blocks, rest: seq<byte>, bits: nat)
    requires 55 < |rest| < 64 && bits == 8 * (|front| + |rest|)
    ensures Padded(front + rest) == Longer(Longer(front, FirstOfTwo(rest)), SecondOfTwo(bits))
  {
    PaddedIs(front, rest);
    Regroup(front, FirstOfTwo(rest), SecondOfTwo(bits));
  }

  lemma Regroup(a: seq<byte>, b: seq<byte>, c: seq<byte>)
    ensures a + (b + c) == a + b + c
  {
  }

  /** A message on its way through a compression `f`. */
  class Hash<S(!new)> {
    const f: (S, Chunk) -> S
    const first: S
    var state: S
    var bytes: nat
    const block: array<byte>
    var used: nat
    ghost var front: Blocks
    ghost var rest: seq<byte>

    ghost predicate Valid()
      reads this, block
    {
      && block.Length == 64 && used == |rest| < 64 && bytes == |front| + |rest|
      && state == Absorb(f, first, front) && block[..used] == rest
    }

    ghost function Message(): (m: seq<byte>)
      reads this
    {
      front + rest
    }

    /** ovl_sha256_init. */
    constructor (f: (S, Chunk) -> S, first: S)
      ensures Valid() && Message() == [] && fresh(block) && this.f == f && this.first == first
    {
      this.f, this.first := f, first;
      state, bytes, used, front, rest := first, 0, 0, [], [];
      block := new byte[64](_ => 0);
    }

    /** ovl_sha256_update: the bytes are added to the message, however it was split. */
    method Update(data: seq<byte>)
      requires Valid()
      modifies this, block
      ensures Valid() && Message() == old(Message()) + data
    {
      var k := 0;
      while k < |data|
        invariant k <= |data| && Valid() && Message() == old(Message()) + data[..k]
      {
        var count := if 64 - used < |data| - k then 64 - used else |data| - k;
        OnePiece(old(Message()), data, k, count);
        Take(data[k..k + count]);
        k := k + count;
      }
      assert data[..k] == data;
    }

    lemma OnePiece(m: seq<byte>, data: seq<byte>, k: nat, count: nat)
      requires k + count <= |data|
      ensures m + data[..k] + data[k..k + count] == m + data[..k + count]
    {
      assert data[..k + count] == data[..k] + data[k..k + count];
    }

    /** A turn of its loop: as many bytes as the block has room for. */
    method Take(piece: seq<byte>)
      requires Valid() && 0 < |piece| && used + |piece| <= 64
      modifies this, block
      ensures Valid() && Message() == old(Message()) + piece
    {
      Copy(piece);
      used, bytes, rest := used + |piece|, bytes + |piece|, rest + piece;
      if used == 64 { AbsorbBlock(); }
    }

    /** A block that is full. */
    method AbsorbBlock()
      requires block.Length == 64 == used && |rest| == 64 && block[..64] == rest && bytes == |front| + 64 && state == Absorb(f, first, front)
      modifies this`state, this`used, this`front, this`rest
      ensures Valid() && Message() == old(Message())
    {
      assert block[..] == block[..64];
      AbsorbMore(f, first, front, rest);
      state := f(state, block[..]);
      used, front, rest := 0, Longer(front, rest), [];
    }

    /** memcpy into the block. */
    method Copy(piece: seq<byte>)
      requires used + |piece| <= block.Length
      modifies block
      ensures block[..used + |piece|] == old(block[..used]) + piece
    {
      forall i | 0 <= i < |piece| { block[used + i] := piece[i]; }
    }

    /** ovl_sha256_final, before the digest is written out: the padded message is absorbed. */
    method Final() returns (r: S)
      requires Valid()
      modifies this, block
      ensures r == Absorb(f, first, Padded(old(Message())))
    {
      var bits := bytes * 8;
      EndIs(f, first, front, rest, bits);
      block[used] := 0x80;
      used := used + 1;
      assert block[..used] == rest + [0x80];
      if used > 56 { CloseFirst(rest); }
      CloseWith(bits, rest);
      r := state;
    }

    /** The block that has no room left for the length. */
    method CloseFirst(ghost rest: seq<byte>)
      requires block.Length == 64 && 55 < |rest| < 64 && used == |rest| + 1 && block[..used] == rest + [0x80]
      modifies this`used, this`state, block
      ensures used == 0 && state == f(old(state), FirstOfTwo(rest))
    {
      Wipe(64);
      assert block[..] == FirstOfTwo(rest);
      state := f(state, block[..]);
      used := 0;
    }

    /** The last block: what is there, zeros and the length. */
    method CloseWith(bits: nat, ghost rest: seq<byte>)
      requires block.Length == 64 && (if |rest| <= 55 then used == |rest| + 1 && block[..used] == rest + [0x80] else used == 0)
      modifies this`state, block
      ensures state == f(old(state), if |rest| <= 55 then LastBlock(rest, bits) else SecondOfTwo(bits))
    {
      Wipe(56);
      PutLength(bits);
      assert |rest| <= 55 ==> block[..] == LastBlock(rest, bits);
      assert |rest| > 55 ==> block[..] == SecondOfTwo(bits);
      state := f(state, block[..]);
    }

    /** memset of the block up to `end`. */
    method Wipe(end: nat)
      requires used <= end <= block.Length
      modifies block
      ensures block[..end] == old(block[..used]) + Zeros(end - used)
    {
      forall i | used <= i < end { block[i] := 0; }
    }

    method PutLength(bits: nat)
      requires block.Length == 64
      modifies block
      ensures block[..] == old(block[..56]) + LengthField(bits)
    {
      var i := 0;
      while i < 8
        invariant i <= 8
        invariant block[..56] == old(block[..56])
        invariant forall p :: 64 - i <= p < 64 ==> block[p] == ByteOf(bits, 63 - p)
      {
        block[63 - i] := ByteOf(bits, i);
        i := i + 1;
      }
    }
  }

  function Joined(parts: seq<seq<byte>>): (m: seq<byte>)
  {
    if parts == [] then [] else Joined(parts[..|parts| - 1]) + parts[|parts| - 1]
  }

  /** For every split of a message into updates, the digest is the message's. */
  method HashParts(parts: seq<seq<byte>>) returns (digest: seq<byte>)
    ensures digest == Digest(Joined(parts))
  {
    var hash := new Hash(Compressed, Initial());
    var k := 0;
    while k < |parts|
      invariant k <= |parts| && hash.Valid() && fresh(hash) && fresh(hash.block) && hash.Message() == Joined(parts[..k])
      invariant hash.f == Compressed && hash.first == Initial()
    {
      hash.Update(parts[k]);
      assert parts[..k + 1][..k] == parts[..k];
      k := k + 1;
    }
    assert parts[..k] == parts;
    var r := hash.Final();
    digest := DigestOf(r);
  }
}
