/**
 The output side of the LZ4 compressor: the loops of lz4.c that write tokens, length
 runs, literals, offsets and match lengths, each proved against the reference encoding,
 with every over-running store shown to stay in the buffer.
 */
module Lz4Emit {
  import opened Basics
  import opened Lz4Format
  import opened Lz4Decode

  /** LZ4_COMPRESSBOUND. */
  function CompressBound(n: nat): (r: nat)
  {
    if n > 0x7E00_0000 then 0 else n + n / 255 + 16
  }

  /** `seqs` stand for the first `anchor` bytes of the source and keep the distances from its end. */
  ghost predicate Covers(src: seq<byte>, seqs: seq<Sequence>, anchor: nat)
  {
    && anchor <= |src| && ValidSequences(seqs) && Reaches(seqs)
    && Expand(seqs) == src[..anchor] && Restricted(seqs, |src|)
  }

  /** A block in the format, within the parsing restrictions, that stands for `text`. */
  ghost predicate IsBlockFor(block: seq<byte>, text: seq<byte>)
  {
    exists seqs, last :: ValidBlock(seqs, last) && block == EncodeBlock(seqs, last) && text == Expand(seqs) + last
  }

  /** Such a block decodes to its text, whatever room beyond the text the decoder is given. */
  lemma BlockDecodes(block: seq<byte>, text: seq<byte>, cap: nat)
    requires IsBlockFor(block, text) && |text| <= cap
    ensures Decode(block, cap) == Some(text)
    ensures Interpret(block, 0, [], false) == Some(text)
  {
    var seqs, last :| ValidBlock(seqs, last) && block == EncodeBlock(seqs, last) && text == Expand(seqs) + last;
    DecodeEncoded(seqs, last, cap);
    assert seqs[..0] == [];
    assert EncodeAll(seqs[..0]) == [] && Expand(seqs[..0]) == [];
    InterpretEncoded(seqs, last, 0, false);
  }

  lemma FinishBlock(src: seq<byte>, seqs: seq<Sequence>, anchor: nat, run: nat)
    requires Covers(src, seqs, anchor) && anchor + run <= |src| && Restricted(seqs, anchor + run)
    ensures IsBlockFor(EncodeAll(seqs) + EncodeFinal(src[anchor..anchor + run]), src[..anchor + run])
  {
    var last := src[anchor..anchor + run];
    assert src[..anchor + run] == src[..anchor] + last;
    assert ValidBlock(seqs, last);
  }

  // ---------------------------------------------------------------- length runs

  lemma {:induction false} RunIs(n: nat)
    ensures |Run(n)| == n / 255 + 1
    ensures forall k :: 0 <= k < n / 255 ==> Run(n)[k] == 255
    ensures Run(n)[n / 255] == n % 255
  {
    if n >= 255 { RunIs(n - 255); }
  }

  /** The length loop of the literal runs: 255s, then the rest. */
  method PutRun(dst: array<byte>, op0: nat, n: nat) returns (op: nat)
    requires op0 + |Run(n)| <= dst.Length
    modifies dst
    ensures op == op0 + |Run(n)| <= dst.Length
    ensures dst[..op] == old(dst[..op0]) + Run(n)
    ensures forall k :: op <= k < dst.Length ==> dst[k] == old(dst[k])
  {
    op := op0;
    var len := n;
    while len >= 255
      invariant op0 <= op && 0 <= len <= n && op + |Run(len)| == op0 + |Run(n)|
      invariant dst[..op] + Run(len) == old(dst[..op0]) + Run(n)
      invariant forall k :: op <= k < dst.Length ==> dst[k] == old(dst[k])
    {
      ghost var before := dst[..op];
      dst[op] := 255;
      op := op + 1;
      len := len - 255;
      assert dst[..op] == before + [255];
      assert before + ([255] + Run(len)) == dst[..op] + Run(len);
    }
    ghost var before := dst[..op];
    dst[op] := len;
    op := op + 1;
    assert dst[..op] == before + [len];
  }

  /** Four bytes of 255. */
  method PutFour255(dst: array<byte>, op: nat)
    requires op + 4 <= dst.Length
    modifies dst
    ensures forall k :: 0 <= k < dst.Length ==> dst[k] == if op <= k < op + 4 then 255 else old(dst[k])
  {
    dst[op], dst[op + 1], dst[op + 2], dst[op + 3] := 255, 255, 255, 255;
  }

  /** The length loop of the matches: 255s four at a time, overrun and then cut back. */
  method PutRunWide(dst: array<byte>, op0: nat, n: nat) returns (op: nat)
    requires op0 + |Run(n)| + 3 <= dst.Length
    modifies dst
    ensures op == op0 + |Run(n)| <= dst.Length
    ensures dst[..op] == old(dst[..op0]) + Run(n)
  {
    op := op0;
    var code := n;
    RunIs(n);
    PutFour255(dst, op);
    while code >= 4 * 255
      invariant op0 <= op && op + code / 255 + 4 <= dst.Length
      invariant op - op0 + code / 255 == n / 255 && code % 255 == n % 255
      invariant forall k :: 0 <= k < op0 ==> dst[k] == old(dst[k])
      invariant forall k :: op0 <= k < op + 4 ==> dst[k] == 255
    {
      op := op + 4;
      PutFour255(dst, op);
      code := code - 4 * 255;
    }
    op := op + code / 255;
    dst[op] := code % 255;
    op := op + 1;
    assert dst[..op] == old(dst[..op0]) + Run(n);
  }

  // ---------------------------------------------------------------- literals

  /** Token, literal length and literals of a sequence; the token's match field is still 0. */
  method PutLiterals(dst: array<byte>, op0: nat, src: seq<byte>, anchor: nat, ip: nat, ghost lits: seq<byte>) returns (op: nat)
    requires anchor <= ip && ip + 8 <= |src| && lits == src[anchor..ip]
    requires op0 + 1 + |Extra(|lits|)| + |lits| + 7 <= dst.Length && op0 + 9 <= dst.Length
    modifies dst
    ensures op == op0 + 1 + |Extra(|lits|)| + |lits| && dst[..op] == old(dst[..op0]) + EncodeLits(lits, 0)
  {
    var litLength := ip - anchor;
    assert litLength == |lits|;
    op := PutLength(dst, op0, litLength);
    ghost var front := dst[..op];
    WildCopy8From(src, anchor, dst, op, op + litLength);
    op := op + litLength;
    Regroup(old(dst[..op0]), [16 * Field(litLength)], Extra(litLength), lits);
  }

  lemma Regroup(w: seq<byte>, t: seq<byte>, x: seq<byte>, l: seq<byte>)
    ensures (w + (t + x)) + l == w + (t + (x + l))
  {
  }

  /** Token and literal length. */
  method PutLength(dst: array<byte>, op0: nat, litLength: nat) returns (op: nat)
    requires op0 + 1 + |Extra(litLength)| <= dst.Length
    modifies dst
    ensures op == op0 + 1 + |Extra(litLength)|
    ensures dst[..op] == old(dst[..op0]) + ([16 * Field(litLength)] + Extra(litLength))
  {
    op := op0 + 1;
    if litLength >= RUN_MASK {
      dst[op0] := RUN_MASK * 16;
      assert dst[..op] == old(dst[..op0]) + [16 * Field(litLength)];
      op := PutRun(dst, op, litLength - RUN_MASK);
    } else {
      dst[op0] := litLength * 16;
    }
  }

  /** The last literals, copied exactly. */
  method PutFinal(dst: array<byte>, op0: nat, src: seq<byte>, anchor: nat, run: nat) returns (op: nat)
    requires anchor + run <= |src| && op0 + 1 + |Extra(run)| + run <= dst.Length
    modifies dst
    ensures op == op0 + 1 + |Extra(run)| + run
    ensures dst[..op] == old(dst[..op0]) + EncodeFinal(src[anchor..anchor + run])
  {
    op := PutLength(dst, op0, run);
    ghost var front := dst[..op];
    MemcpyFrom(src, anchor, dst, op, run);
    op := op + run;
    assert dst[..op] == front + src[anchor..anchor + run];
    Regroup(old(dst[..op0]), [16 * Field(run)], Extra(run), src[anchor..anchor + run]);
  }

  // ---------------------------------------------------------------- matches

  /** LZ4_writeLE16 of the offset. */
  method PutOffset(dst: array<byte>, op: nat, offset: nat)
    requires op + 2 <= dst.Length && offset <= DISTANCE_MAX
    modifies dst
    ensures dst[..op + 2] == old(dst[..op]) + [offset % 256, offset / 256]
  {
    dst[op], dst[op + 1] := offset % 256, offset / 256;
  }

  /** Adding the match field into the token of a sequence written without it. */
  lemma TokenField(front: seq<byte>, lits: seq<byte>, rest: seq<byte>, code: nat)
    ensures var w := front + EncodeLits(lits, 0) + rest;
            && w[|front|] + Field(code) < 256
            && w[|front| := w[|front|] + Field(code)] == front + EncodeLits(lits, Field(code)) + rest
  {
    var t := 16 * Field(|lits|);
    Replace(front, t, t + Field(code), Extra(|lits|) + lits, rest);
  }

  lemma Replace(front: seq<byte>, a: byte, b: byte, mid: seq<byte>, rest: seq<byte>)
    ensures var w := front + ([a] + mid) + rest;
            w[|front|] == a && w[|front| := b] == front + ([b] + mid) + rest
  {
  }

  lemma SequenceBytes(front: seq<byte>, s: Sequence)
    requires ValidSequence(s)
    ensures front + EncodeLits(s.lits, Field(s.mlen - MINMATCH)) + [s.offset % 256, s.offset / 256] + Extra(s.mlen - MINMATCH)
            == front + EncodeSequence(s)
  {
    Append(front, EncodeLits(s.lits, Field(s.mlen - MINMATCH)), [s.offset % 256, s.offset / 256], Extra(s.mlen - MINMATCH));
  }

  lemma Append(w: seq<byte>, l: seq<byte>, o: seq<byte>, x: seq<byte>)
    ensures w + l + o + x == w + (l + (o + x))
  {
  }

  /**
   Offset and match length of a sequence whose literals are written: the length's field
   is added into the token, the rest follows the offset.
   */
  method PutMatchBytes(dst: array<byte>, token: nat, op0: nat, offset: nat, code: nat, ghost front: seq<byte>, ghost s: Sequence)
      returns (op: nat)
    requires ValidSequence(s) && s.offset == offset && s.mlen == code + MINMATCH && token == |front|
    requires op0 + 2 + |Extra(code)| + 3 <= dst.Length
    requires dst[..op0] == front + EncodeLits(s.lits, 0)
    modifies dst
    ensures op == op0 + 2 + |Extra(code)| && dst[..op] == front + EncodeSequence(s)
  {
    PutOffset(dst, op0, offset);
    op := op0 + 2;
    ghost var two: seq<byte> := [offset % 256, offset / 256];
    ghost var w := dst[..op];
    TokenField(front, s.lits, two, code);
    assert dst[token] == w[token];
    dst[token] := dst[token] + Field(code);
    assert dst[..op] == w[token := w[token] + Field(code)];
    if code >= RUN_MASK { op := PutRunWide(dst, op, code - RUN_MASK); }
    assert dst[..op] == front + EncodeLits(s.lits, Field(code)) + two + Extra(code);
    SequenceBytes(front, s);
  }
}
