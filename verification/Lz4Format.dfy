/**
 The LZ4 block format, read one byte at a time.

 A block is a list of sequences: a token, literals, and a match that copies from the
 output produced so far; the last sequence ends after its literals.  This module holds
 the reference reading of a block (`Interpret`), the reference writing of one
 (`EncodeBlock`), and the proof that the two are inverse.  It knows nothing of the
 buffers, limits and fast paths of the C code.
 */
module Lz4Format {
  import opened Basics

  const MINMATCH := 4
  const LASTLITERALS := 5
  const MFLIMIT := 12
  const RUN_MASK := 15
  const DISTANCE_MAX := 65535

  // ---------------------------------------------------------------- match copy

  /** Appends `len` bytes, each the byte `offset` places back; offset 0 stands for zeros. */
  function Repeat(out: seq<byte>, offset: nat, len: nat): (r: seq<byte>)
    requires offset <= |out|
    ensures |r| == |out| + len && out <= r
    decreases len
  {
    if len == 0 then out
    else Repeat(out + [if offset == 0 then 0 else out[|out| - offset]], offset, len - 1)
  }

  /** What it means for `s[from..upto]` to be an overlapping copy at distance `offset`. */
  ghost predicate CopiesBack(s: seq<byte>, from: nat, upto: nat, offset: nat)
    requires offset <= from <= upto <= |s|
  {
    forall k :: from <= k < upto ==> s[k] == if offset == 0 then 0 else s[k - offset]
  }

  /** Repeat is the one extension whose new bytes copy back at the given distance. */
  lemma {:induction false} RepeatUnique(s: seq<byte>, from: nat, upto: nat, offset: nat)
    requires offset <= from <= upto <= |s|
    requires CopiesBack(s, from, upto, offset)
    ensures s[..upto] == Repeat(s[..from], offset, upto - from)
    decreases upto - from
  {
    if from < upto {
      assert s[from] == if offset == 0 then 0 else s[..from][from - offset];
      assert s[..from + 1] == s[..from] + [s[from]];
      RepeatUnique(s, from + 1, upto, offset);
    }
  }

  // ---------------------------------------------------------------- reading

  datatype Length = NoLength | Length(value: nat, next: nat)

  /** A run of 255s closed by a smaller byte; its value is the sum. */
  function ReadRun(src: seq<byte>, pos: nat): (r: Length)
    ensures r.Length? ==> pos < r.next <= |src|
    decreases |src| - pos
  {
    if pos >= |src| then NoLength
    else if src[pos] != 255 then Length(src[pos], pos + 1)
    else
      var rest := ReadRun(src, pos + 1);
      if rest.NoLength? then NoLength else Length(255 + rest.value, rest.next)
  }

  /** A four-bit field, continued by a run when it is 15. */
  function ReadLength(src: seq<byte>, pos: nat, field: nat): (r: Length)
    requires field <= RUN_MASK && pos <= |src|
    ensures r.Length? ==> pos <= r.next <= |src| && field <= r.value
    ensures r.Length? ==> (r.value < RUN_MASK <==> field < RUN_MASK)
    ensures field < RUN_MASK ==> r == Length(field, pos)
  {
    if field < RUN_MASK then Length(field, pos)
    else
      var run := ReadRun(src, pos);
      if run.NoLength? then NoLength else Length(RUN_MASK + run.value, run.next)
  }

  datatype Step =
    | Malformed
    | Final(lits: seq<byte>)
    | Match(lits: seq<byte>, offset: nat, mlen: nat, litEnd: nat, next: nat)

  /** One sequence of the block, at `pos`. */
  function ParseStep(src: seq<byte>, pos: nat): (r: Step)
    ensures r.Match? ==> pos + 3 + |r.lits| <= r.litEnd + 2 <= r.next <= |src|
    ensures r.Match? ==> r.offset <= DISTANCE_MAX && MINMATCH <= r.mlen
    ensures r.Final? ==> pos + 1 + |r.lits| <= |src|
  {
    if pos >= |src| then Malformed
    else
      var lit := ReadLength(src, pos + 1, src[pos] / 16);
      if lit.NoLength? || lit.next + lit.value > |src| then Malformed
      else ParseMatch(src, src[pos] % 16, src[lit.next..lit.next + lit.value], lit.next + lit.value)
  }

  /** The part of a sequence after its literals. */
  function ParseMatch(src: seq<byte>, field: nat, lits: seq<byte>, p: nat): (r: Step)
    requires p <= |src| && field <= RUN_MASK
    ensures r.Match? ==> r.litEnd == p && p + 2 <= r.next <= |src| && r.lits == lits
    ensures r.Match? ==> r.offset <= DISTANCE_MAX && MINMATCH <= r.mlen
    ensures r.Final? ==> p == |src| && r.lits == lits
  {
    if p == |src| then Final(lits)
    else if p + 2 > |src| then Malformed
    else
      var m := ReadLength(src, p + 2, field);
      if m.NoLength? then Malformed
      else Match(lits, (src[p] as int) + 256 * (src[p + 1] as int), m.value + MINMATCH, p, m.next)
  }

  /**
   The reference reading of the rest of a block.  The format rejects offset 0;
   with `zeroFill` it is read as a run of zero bytes instead.
   */
  function Interpret(src: seq<byte>, pos: nat, out: seq<byte>, zeroFill: bool): (r: Option<seq<byte>>)
    decreases |src| - pos
  {
    match ParseStep(src, pos)
    case Malformed => None
    case Final(lits) => Some(out + lits)
    case Match(lits, offset, mlen, _, next) =>
      if offset > |out| + |lits| || (offset == 0 && !zeroFill) then None
      else Interpret(src, next, Repeat(out + lits, offset, mlen), zeroFill)
  }

  // ---------------------------------------------------------------- writing

  datatype Sequence = Sequence(lits: seq<byte>, offset: nat, mlen: nat)

  /** The bytes of a run: 255 as often as it goes into `n`, then the rest. */
  function Run(n: nat): (r: seq<byte>)
    ensures |r| > 0
  {
    if n < 255 then [n] else [255] + Run(n - 255)
  }

  function Field(n: nat): (r: nat)
    ensures r <= RUN_MASK && (r == RUN_MASK <==> n >= RUN_MASK)
    ensures n < RUN_MASK ==> r == n
  {
    if n < RUN_MASK then n else RUN_MASK
  }

  function Extra(n: nat): (r: seq<byte>)
    ensures n < RUN_MASK <==> r == []
  {
    if n < RUN_MASK then [] else Run(n - RUN_MASK)
  }

  lemma {:induction false} RunSize(n: nat)
    ensures |Run(n)| == n / 255 + 1
  {
    if n >= 255 { RunSize(n - 255); }
  }

  /** How many bytes a length takes after its field. */
  function ExtraBytes(n: nat): (r: nat)
  {
    (n + 240) / 255
  }

  lemma ExtraSize(n: nat)
    ensures |Extra(n)| == ExtraBytes(n)
  {
    if n >= RUN_MASK { RunSize(n - RUN_MASK); }
  }

  ghost predicate ValidSequence(s: Sequence)
  {
    s.offset <= DISTANCE_MAX && MINMATCH <= s.mlen
  }

  /** Token, literal length, literals: the part of a sequence before its offset. */
  function EncodeLits(lits: seq<byte>, field: nat): (r: seq<byte>)
    requires field <= RUN_MASK
    ensures |r| == 1 + |Extra(|lits|)| + |lits|
  {
    [16 * Field(|lits|) + field] + (Extra(|lits|) + lits)
  }

  function EncodeMatch(offset: nat, code: nat): (r: seq<byte>)
    requires offset <= DISTANCE_MAX
    ensures |r| == 2 + |Extra(code)|
  {
    [offset % 256, offset / 256] + Extra(code)
  }

  function EncodeSequence(s: Sequence): (r: seq<byte>)
    requires ValidSequence(s)
    ensures |r| >= 3 + |s.lits|
  {
    EncodeLits(s.lits, Field(s.mlen - MINMATCH)) + EncodeMatch(s.offset, s.mlen - MINMATCH)
  }

  function EncodeFinal(lits: seq<byte>): (r: seq<byte>)
  {
    EncodeLits(lits, 0)
  }

  ghost predicate ValidSequences(seqs: seq<Sequence>)
  {
    forall s <- seqs :: ValidSequence(s)
  }

  /** The bytes of a list of sequences, without the final literals. */
  function EncodeAll(seqs: seq<Sequence>): (r: seq<byte>)
    requires ValidSequences(seqs)
  {
    if seqs == [] then [] else EncodeAll(seqs[..|seqs| - 1]) + EncodeSequence(seqs[|seqs| - 1])
  }

  function EncodeBlock(seqs: seq<Sequence>, last: seq<byte>): (r: seq<byte>)
    requires ValidSequences(seqs)
  {
    EncodeAll(seqs) + EncodeFinal(last)
  }

  // ---------------------------------------------------------------- meaning of a list of sequences

  /** Every offset reaches back into output that exists by then. */
  ghost predicate Reaches(seqs: seq<Sequence>)
    decreases |seqs|, 0
  {
    seqs == [] ||
    var s := seqs[|seqs| - 1];
    Reaches(seqs[..|seqs| - 1]) && 1 <= s.offset <= |Expand(seqs[..|seqs| - 1])| + |s.lits|
  }

  /** The output of a list of sequences. */
  ghost function Expand(seqs: seq<Sequence>): (r: seq<byte>)
    requires Reaches(seqs)
    decreases |seqs|, 1
  {
    if seqs == [] then []
    else
      var s := seqs[|seqs| - 1];
      Repeat(Expand(seqs[..|seqs| - 1]) + s.lits, s.offset, s.mlen)
  }

  /**
   The parsing restrictions on a block whose output is `total` bytes long: every match
   starts at least 12 bytes, and ends at least 5 bytes, before the end of the output.
   */
  ghost predicate Restricted(seqs: seq<Sequence>, total: nat)
    requires Reaches(seqs)
  {
    seqs == [] ||
    var end := |Expand(seqs)|;
    end + LASTLITERALS <= total &&
    end - seqs[|seqs| - 1].mlen + MFLIMIT <= total
  }

  /** A block that obeys the format and its parsing restrictions. */
  ghost predicate ValidBlock(seqs: seq<Sequence>, last: seq<byte>)
  {
    ValidSequences(seqs) && Reaches(seqs) && Restricted(seqs, |Expand(seqs)| + |last|)
  }

  // ---------------------------------------------------------------- read after write

  /** The bytes `e` stand in `src` at `pos`. */
  ghost predicate At(src: seq<byte>, pos: nat, e: seq<byte>)
  {
    pos + |e| <= |src| && src[pos..pos + |e|] == e
  }

  lemma AtSplit(src: seq<byte>, pos: nat, a: seq<byte>, b: seq<byte>)
    requires At(src, pos, a + b)
    ensures At(src, pos, a) && At(src, pos + |a|, b)
  {
    assert src[pos..pos + |a|] == src[pos..pos + |a + b|][..|a|];
    assert src[pos + |a|..pos + |a| + |b|] == src[pos..pos + |a + b|][|a|..];
  }

  lemma {:induction false} ReadRunOf(src: seq<byte>, pos: nat, n: nat)
    requires At(src, pos, Run(n))
    ensures ReadRun(src, pos) == Length(n, pos + |Run(n)|)
    decreases n
  {
    if n < 255 {
      assert src[pos] == src[pos..pos + 1][0];
    } else {
      AtSplit(src, pos, [255], Run(n - 255));
      assert src[pos] == src[pos..pos + 1][0];
      ReadRunOf(src, pos + 1, n - 255);
    }
  }

  lemma ReadLengthOf(src: seq<byte>, pos: nat, n: nat)
    requires At(src, pos, Extra(n))
    ensures ReadLength(src, pos, Field(n)) == Length(n, pos + |Extra(n)|)
  {
    if n >= RUN_MASK { ReadRunOf(src, pos, n - RUN_MASK); }
  }

  lemma Nibbles(high: nat, low: nat)
    requires low < 16
    ensures (16 * high + low) / 16 == high && (16 * high + low) % 16 == low
  {
  }

  /** Reading the literals of an encoded sequence. */
  lemma ReadLits(src: seq<byte>, pos: nat, lits: seq<byte>, field: nat)
    requires field <= RUN_MASK && At(src, pos, EncodeLits(lits, field))
    ensures ParseStep(src, pos) == ParseMatch(src, field, lits, pos + |EncodeLits(lits, field)|)
  {
    var t, x := 16 * Field(|lits|) + field, Extra(|lits|);
    Nibbles(Field(|lits|), field);
    AtSplit(src, pos, [t], x + lits);
    AtSplit(src, pos + 1, x, lits);
    assert src[pos] == src[pos..pos + 1][0] == t;
    ReadLengthOf(src, pos + 1, |lits|);
    ParseLits(src, pos, Length(|lits|, pos + 1 + |x|), lits);
  }

  lemma ParseLits(src: seq<byte>, pos: nat, lit: Length, lits: seq<byte>)
    requires pos < |src| && lit == ReadLength(src, pos + 1, src[pos] / 16) && lit.Length?
    requires lit.next + lit.value <= |src| && lits == src[lit.next..lit.next + lit.value]
    ensures ParseStep(src, pos) == ParseMatch(src, src[pos] % 16, lits, lit.next + lit.value)
  {
  }

  lemma ReadMatch(src: seq<byte>, pos: nat, lits: seq<byte>, offset: nat, code: nat)
    requires offset <= DISTANCE_MAX
    requires At(src, pos, EncodeMatch(offset, code))
    ensures ParseMatch(src, Field(code), lits, pos)
            == Match(lits, offset, code + MINMATCH, pos, pos + |EncodeMatch(offset, code)|)
  {
    var w: seq<byte> := [offset % 256, offset / 256];
    AtSplit(src, pos, w, Extra(code));
    assert src[pos] == src[pos..pos + 2][0] == offset % 256;
    assert src[pos + 1] == src[pos..pos + 2][1] == offset / 256;
    ReadLengthOf(src, pos + 2, code);
  }

  /** The sequence written at `pos` is the one read there. */
  lemma {:induction false} ReadSequence(src: seq<byte>, pos: nat, s: Sequence)
    requires ValidSequence(s)
    requires At(src, pos, EncodeSequence(s))
    ensures ParseStep(src, pos)
            == Match(s.lits, s.offset, s.mlen, pos + |EncodeLits(s.lits, Field(s.mlen - MINMATCH))|, pos + |EncodeSequence(s)|)
  {
    var code := s.mlen - MINMATCH;
    var l, m := EncodeLits(s.lits, Field(code)), EncodeMatch(s.offset, code);
    var e := EncodeSequence(s);
    assert e == l + m;
    ReadParts(src, pos, s.lits, s.offset, code, l, m);
    assert ParseStep(src, pos) == Match(s.lits, s.offset, s.mlen, pos + |l|, pos + |e|);
  }

  lemma ReadParts(src: seq<byte>, pos: nat, lits: seq<byte>, offset: nat, code: nat, l: seq<byte>, m: seq<byte>)
    requires offset <= DISTANCE_MAX && l == EncodeLits(lits, Field(code)) && m == EncodeMatch(offset, code) && At(src, pos, l + m)
    ensures ParseStep(src, pos) == Match(lits, offset, code + MINMATCH, pos + |l|, pos + |l| + |m|)
  {
    AtSplit(src, pos, l, m);
    ReadLits(src, pos, lits, Field(code));
    ReadMatch(src, pos + |l|, lits, offset, code);
  }

  lemma ReadFinal(src: seq<byte>, pos: nat, last: seq<byte>)
    requires pos <= |src| && src[pos..] == EncodeFinal(last)
    ensures ParseStep(src, pos) == Final(last)
  {
    assert At(src, pos, EncodeFinal(last));
    ReadLits(src, pos, last, 0);
  }

  // ---------------------------------------------------------------- prefixes of a list

  lemma {:induction false} EncodeAllPrefix(seqs: seq<Sequence>, i: nat)
    requires ValidSequences(seqs) && i <= |seqs|
    ensures EncodeAll(seqs[..i]) <= EncodeAll(seqs)
  {
    if i == |seqs| {
      assert seqs[..i] == seqs;
    } else {
      var front := seqs[..|seqs| - 1];
      EncodeAllPrefix(front, i);
      assert front[..i] == seqs[..i];
    }
  }

  lemma {:induction false} ExpandPrefix(seqs: seq<Sequence>, i: nat)
    requires Reaches(seqs) && i <= |seqs|
    ensures Reaches(seqs[..i]) && Expand(seqs[..i]) <= Expand(seqs)
    ensures i < |seqs| ==> |Expand(seqs[..i])| + |seqs[i].lits| + seqs[i].mlen <= |Expand(seqs)|
  {
    if i == |seqs| {
      assert seqs[..i] == seqs;
    } else {
      var front := seqs[..|seqs| - 1];
      ExpandPrefix(front, i);
      ExpandLast(seqs);
      assert front[..i] == seqs[..i];
      assert i < |front| ==> front[i] == seqs[i];
    }
  }

  lemma ExpandLast(seqs: seq<Sequence>)
    requires Reaches(seqs) && seqs != []
    ensures var front, s := seqs[..|seqs| - 1], seqs[|seqs| - 1];
            Reaches(front) && Expand(front) <= Expand(seqs) && |Expand(front)| + |s.lits| + s.mlen == |Expand(seqs)|
  {
  }

  /** What incompressible bytes may take: one in 255 more. */
  function Amortised(n: nat): (r: nat)
  {
    n + n / 255
  }

  /** Sequences take hardly more bytes than they stand for. */
  lemma {:induction false} EncodedSize(seqs: seq<Sequence>)
    requires ValidSequences(seqs) && Reaches(seqs)
    ensures |EncodeAll(seqs)| <= Amortised(|Expand(seqs)|)
  {
    if seqs != [] {
      var front, s := seqs[..|seqs| - 1], seqs[|seqs| - 1];
      EncodedSize(front);
      assert ValidSequence(s);
      ExpandLast(seqs);
      SequenceSize(s, |Expand(front)|);
      assert |EncodeAll(seqs)| == |EncodeAll(front)| + |EncodeSequence(s)|;
    }
  }

  lemma SequenceSize(s: Sequence, n: nat)
    requires ValidSequence(s)
    ensures Amortised(n) + |EncodeSequence(s)| <= Amortised(n + |s.lits| + s.mlen)
  {
    ExtraSize(|s.lits|);
    ExtraSize(s.mlen - MINMATCH);
    SizesAdd(n, |s.lits|, s.mlen);
    assert |EncodeSequence(s)| == 3 + (|s.lits| + 240) / 255 + |s.lits| + (s.mlen + 236) / 255;
  }

  lemma SizesAdd(n: nat, lits: nat, mlen: nat)
    requires MINMATCH <= mlen
    ensures Amortised(n) + 3 + (lits + 240) / 255 + lits + (mlen + 236) / 255 <= Amortised(n + lits + mlen)
  {
  }

  /** Each step of reading an encoded block. */
  lemma StepOf(seqs: seq<Sequence>, last: seq<byte>, i: nat)
    requires ValidSequences(seqs) && i < |seqs|
    ensures var src, pos, s := EncodeBlock(seqs, last), |EncodeAll(seqs[..i])|, seqs[i];
            var next := |EncodeAll(seqs[..i + 1])|;
            && ParseStep(src, pos) == Match(s.lits, s.offset, s.mlen, pos + |EncodeLits(s.lits, Field(s.mlen - MINMATCH))|, next)
            && pos < next <= |src| - |EncodeFinal(last)|
  {
    var src, pos, s := EncodeBlock(seqs, last), |EncodeAll(seqs[..i])|, seqs[i];
    assert seqs[..i + 1][..i] == seqs[..i];
    EncodeAllPrefix(seqs, i + 1);
    var front := EncodeAll(seqs[..i + 1]);
    assert src[..|front|] == front;
    assert front[pos..] == EncodeSequence(s);
    assert At(src, pos, EncodeSequence(s)) by {
      assert src[pos..|front|] == front[pos..];
    }
    ReadSequence(src, pos, s);
  }

  /** The output before and after step `i`. */
  lemma OutputOf(seqs: seq<Sequence>, i: nat)
    requires Reaches(seqs) && i < |seqs|
    ensures Reaches(seqs[..i]) && Reaches(seqs[..i + 1])
    ensures 1 <= seqs[i].offset <= |Expand(seqs[..i])| + |seqs[i].lits|
    ensures Expand(seqs[..i + 1]) == Repeat(Expand(seqs[..i]) + seqs[i].lits, seqs[i].offset, seqs[i].mlen)
    ensures |Expand(seqs[..i + 1])| <= |Expand(seqs)|
  {
    assert seqs[..i + 1][..i] == seqs[..i];
    ExpandPrefix(seqs, i);
    ExpandPrefix(seqs, i + 1);
  }

  /** The reference reading of an encoded block gives its meaning. */
  lemma {:induction false} InterpretEncoded(seqs: seq<Sequence>, last: seq<byte>, i: nat, zeroFill: bool)
    requires ValidSequences(seqs) && Reaches(seqs) && i <= |seqs|
    ensures Reaches(seqs[..i])
    ensures Interpret(EncodeBlock(seqs, last), |EncodeAll(seqs[..i])|, Expand(seqs[..i]), zeroFill)
            == Some(Expand(seqs) + last)
    decreases |seqs| - i
  {
    var src := EncodeBlock(seqs, last);
    if i == |seqs| {
      assert seqs[..i] == seqs;
      assert src[|EncodeAll(seqs)|..] == EncodeFinal(last);
      ReadFinal(src, |EncodeAll(seqs)|, last);
    } else {
      StepOf(seqs, last, i);
      OutputOf(seqs, i);
      InterpretEncoded(seqs, last, i + 1, zeroFill);
    }
  }
}
